/**
 * UTF-8 as defined in section 3 of RFC 3629: the encoding of one Unicode scalar value
 * into one to four octets, the strict decoding of one character at the front of a byte
 * sequence, and the greedy decoding that Python's `bytes.decode()` performs.  When that
 * decoding raises `UnicodeDecodeError`, the error's `start` is the length of the longest
 * prefix made of complete, well-formed characters: `DecodeGreedy(b).consumed` below.
 */
module Utf8 {
  import opened Bytes

  predicate IsContinuation(b: byte) {
    0x80 <= b <= 0xBF
  }

  /** The octets of one character: one octet below U+0080, two below U+0800, three below U+10000, four above. */
  function EncodeChar(c: char): (r: seq<byte>)
    ensures 1 <= |r| <= 4
    ensures |r| == 1 <==> (c as int) < 0x80
  {
    var n := c as int;
    if n < 0x80 then
      [n as byte]
    else if n < 0x800 then
      [(0xC0 + n / 64) as byte, (0x80 + n % 64) as byte]
    else if n < 0x1_0000 then
      [(0xE0 + n / 4096) as byte, (0x80 + n / 64 % 64) as byte, (0x80 + n % 64) as byte]
    else
      [(0xF0 + n / 0x4_0000) as byte, (0x80 + n / 4096 % 64) as byte,
       (0x80 + n / 64 % 64) as byte, (0x80 + n % 64) as byte]
  }

  /** The octets of a whole text, character after character. */
  function Encode(s: string): (r: seq<byte>)
    ensures |r| >= |s|
  {
    if s == [] then [] else EncodeChar(s[0]) + Encode(s[1..])
  }

  /**
   * The character at the front of `b` and the number of octets it takes, or None when the
   * front is not a complete well-formed sequence: an ASCII octet, or a lead octet followed by
   * the continuation octets the table of RFC 3629 section 4 allows for it (this excludes
   * overlong forms, surrogates and values above U+10FFFF).
   */
  function DecodeStep(b: seq<byte>): (r: Option<(char, nat)>)
    ensures r.Some? ==> 1 <= r.value.1 <= |b| && r.value.1 <= 4
  {
    if |b| == 0 then None
    else if b[0] < 0x80 then Some((b[0] as int as char, 1))
    else if 0xC2 <= b[0] <= 0xDF then Decode2(b)
    else if 0xE0 <= b[0] <= 0xEF then Decode3(b)
    else if 0xF0 <= b[0] <= 0xF4 then Decode4(b)
    else None
  }

  /** A two-octet sequence: lead C2..DF, then one continuation octet. */
  function Decode2(b: seq<byte>): (r: Option<(char, nat)>)
    requires |b| >= 1 && 0xC2 <= b[0] <= 0xDF
    ensures r.Some? ==> r.value.1 == 2 <= |b|
  {
    if |b| >= 2 && IsContinuation(b[1]) then
      Some((((b[0] as int - 0xC0) * 64 + (b[1] as int - 0x80)) as char, 2))
    else None
  }

  /** The range the second octet of a sequence led by `b0` must fall in (RFC 3629 section 4). */
  function SecondLow(b0: byte): byte {
    if b0 == 0xE0 then 0xA0 else if b0 == 0xF0 then 0x90 else 0x80
  }

  function SecondHigh(b0: byte): byte {
    if b0 == 0xED then 0x9F else if b0 == 0xF4 then 0x8F else 0xBF
  }

  /** A three-octet sequence: lead E0..EF, a second octet in the range the lead allows, a continuation. */
  function Decode3(b: seq<byte>): (r: Option<(char, nat)>)
    requires |b| >= 1 && 0xE0 <= b[0] <= 0xEF
    ensures r.Some? ==> r.value.1 == 3 <= |b|
  {
    if |b| >= 3 && SecondLow(b[0]) <= b[1] <= SecondHigh(b[0]) && IsContinuation(b[2]) then
      var v := (b[0] as int - 0xE0) * 4096 + (b[1] as int - 0x80) * 64 + (b[2] as int - 0x80);
      assert v < 0xD800 || 0xE000 <= v < 0x1_0000 by {
        if b[0] == 0xED { assert v < 0xD800; }
        else if b[0] < 0xED { assert v < 0xD000; }
        else { assert 0xE000 <= v; }
      }
      Some((v as char, 3))
    else None
  }

  /** A four-octet sequence: lead F0..F4, a second octet in the range the lead allows, two continuations. */
  function Decode4(b: seq<byte>): (r: Option<(char, nat)>)
    requires |b| >= 1 && 0xF0 <= b[0] <= 0xF4
    ensures r.Some? ==> r.value.1 == 4 <= |b|
  {
    if |b| >= 4 && SecondLow(b[0]) <= b[1] <= SecondHigh(b[0])
       && IsContinuation(b[2]) && IsContinuation(b[3]) then
      var v := (b[0] as int - 0xF0) * 0x4_0000 + (b[1] as int - 0x80) * 4096
               + (b[2] as int - 0x80) * 64 + (b[3] as int - 0x80);
      assert 0x1_0000 <= v < 0x11_0000;
      Some((v as char, 4))
    else None
  }

  /** Decoding the octets of a character gives back that character, whatever follows them. */
  lemma DecodeEncodeChar(c: char, rest: seq<byte>)
    ensures DecodeStep(EncodeChar(c) + rest) == Some((c, |EncodeChar(c)|))
  {
    var n := c as int;
    if n < 0x80 {
      assert (EncodeChar(c) + rest)[0] as int == n;
    } else if n < 0x800 {
      DecodeEncode2(c, rest);
    } else if n < 0x1_0000 {
      DecodeEncode3(c, rest);
    } else {
      DecodeEncode4(c, rest);
    }
  }

  lemma DecodeEncode2(c: char, rest: seq<byte>)
    requires 0x80 <= c as int < 0x800
    ensures DecodeStep(EncodeChar(c) + rest) == Some((c, 2))
  {
    var n := c as int;
    var b := EncodeChar(c) + rest;
    assert b[0] as int == 0xC0 + n / 64 && b[1] as int == 0x80 + n % 64;
    assert Decode2(b) == Some((c, 2));
  }

  lemma DecodeEncode3(c: char, rest: seq<byte>)
    requires 0x800 <= c as int < 0x1_0000
    ensures DecodeStep(EncodeChar(c) + rest) == Some((c, 3))
  {
    var n := c as int;
    var q := n / 64;
    assert n / 4096 == q / 64;
    var b := EncodeChar(c) + rest;
    assert b[0] as int == 0xE0 + q / 64 && b[1] as int == 0x80 + q % 64 && b[2] as int == 0x80 + n % 64;
    assert (q / 64) * 4096 + (q % 64) * 64 + n % 64 == n;
    assert SecondLow(b[0]) <= b[1] <= SecondHigh(b[0]);
    assert Decode3(b) == Some((c, 3));
  }

  lemma DecodeEncode4(c: char, rest: seq<byte>)
    requires 0x1_0000 <= c as int
    ensures DecodeStep(EncodeChar(c) + rest) == Some((c, 4))
  {
    var n := c as int;
    var q := n / 64;
    var p := q / 64;
    assert n / 4096 == p;
    assert n / 0x4_0000 == p / 64;
    var b := EncodeChar(c) + rest;
    assert b[0] as int == 0xF0 + p / 64 && b[1] as int == 0x80 + p % 64;
    assert b[2] as int == 0x80 + q % 64 && b[3] as int == 0x80 + n % 64;
    assert (p / 64) * 0x4_0000 + (p % 64) * 4096 + (q % 64) * 64 + n % 64 == n;
    assert SecondLow(b[0]) <= b[1] <= SecondHigh(b[0]);
    assert Decode4(b) == Some((c, 4));
  }

  /** The octets a successful DecodeStep consumed are exactly the encoding of the character it returned. */
  lemma EncodeDecodeStep(b: seq<byte>)
    requires DecodeStep(b).Some?
    ensures EncodeChar(DecodeStep(b).value.0) == b[..DecodeStep(b).value.1]
  {
    if b[0] < 0x80 {
      assert DecodeStep(b) == Some((b[0] as int as char, 1));
    } else if b[0] <= 0xDF {
      EncodeDecode2(b);
    } else if b[0] <= 0xEF {
      EncodeDecode3(b);
    } else {
      EncodeDecode4(b);
    }
  }

  lemma EncodeDecode2(b: seq<byte>)
    requires |b| >= 1 && 0xC2 <= b[0] <= 0xDF && Decode2(b).Some?
    ensures EncodeChar(Decode2(b).value.0) == b[..2]
  {
    var n := Decode2(b).value.0 as int;
    var t1 := b[1] as int - 0x80;
    assert n == (b[0] as int - 0xC0) * 64 + t1;
    assert n / 64 == b[0] as int - 0xC0 && n % 64 == t1;
  }

  lemma EncodeDecode3(b: seq<byte>)
    requires |b| >= 1 && 0xE0 <= b[0] <= 0xEF && Decode3(b).Some?
    ensures EncodeChar(Decode3(b).value.0) == b[..3]
  {
    var n := Decode3(b).value.0 as int;
    var t0, t1, t2 := b[0] as int - 0xE0, b[1] as int - 0x80, b[2] as int - 0x80;
    assert n == t0 * 4096 + t1 * 64 + t2;
    assert n / 64 == t0 * 64 + t1 && n % 64 == t2;
    assert n / 64 % 64 == t1 && n / 4096 == t0;
  }

  lemma EncodeDecode4(b: seq<byte>)
    requires |b| >= 1 && 0xF0 <= b[0] <= 0xF4 && Decode4(b).Some?
    ensures EncodeChar(Decode4(b).value.0) == b[..4]
  {
    var n := Decode4(b).value.0 as int;
    var t0, t1, t2, t3 := b[0] as int - 0xF0, b[1] as int - 0x80, b[2] as int - 0x80, b[3] as int - 0x80;
    assert n == t0 * 0x4_0000 + t1 * 4096 + t2 * 64 + t3;
    assert n / 64 == t0 * 4096 + t1 * 64 + t2 && n % 64 == t3;
    assert n / 4096 == t0 * 64 + t1;
    assert n / 64 % 64 == t2 && n / 4096 % 64 == t1 && n / 0x4_0000 == t0;
  }

  /** What a decoding achieved: the characters, and how many octets they took. */
  datatype Decoded = Decoded(text: string, consumed: nat)

  /**
   * Decode character after character until the front is not a complete well-formed sequence.
   * `consumed == |b|` is the case where Python's `b.decode()` succeeds; otherwise `consumed` is
   * the `start` of the `UnicodeDecodeError` it raises, and `text` is `b[:start].decode()`.
   */
  function DecodeGreedy(b: seq<byte>): (r: Decoded)
    ensures r.consumed <= |b|
    ensures Encode(r.text) == b[..r.consumed]
    decreases |b|
  {
    match DecodeStep(b)
    case None => Decoded([], 0)
    case Some((c, n)) =>
      EncodeDecodeStep(b);
      var tail := DecodeGreedy(b[n..]);
      var text := [c] + tail.text;
      assert text[0] == c && text[1..] == tail.text;
      assert Encode(text) == EncodeChar(c) + Encode(tail.text);
      SliceSplit(b, n, tail.consumed);
      Decoded(text, n + tail.consumed)
  }

  /** Decoding stops only where the front is not a complete well-formed sequence (or at the end). */
  lemma {:induction false} DecodeGreedyStops(b: seq<byte>)
    ensures var r := DecodeGreedy(b);
            r.consumed < |b| ==> DecodeStep(b[r.consumed..]) == None
    decreases |b|
  {
    match DecodeStep(b)
    case None =>
      assert b[0..] == b;
    case Some((c, n)) =>
      var rest := b[n..];
      var tail := DecodeGreedy(rest);
      DecodeGreedyStep(b);
      assert DecodeGreedy(b).consumed == n + tail.consumed;
      DecodeGreedyStops(rest);
      if tail.consumed < |rest| {
        SliceSplit(b, n, tail.consumed);
        assert DecodeStep(b[n + tail.consumed..]) == DecodeStep(rest[tail.consumed..]);
      }
  }

  /** Slicing `b` after `n` and then after `k` is slicing it after `n + k`. */
  lemma SliceSplit(b: seq<byte>, n: nat, k: nat)
    requires n + k <= |b|
    ensures b[..n + k] == b[..n] + b[n..][..k]
    ensures b[n + k..] == b[n..][k..]
  {
  }

  /** One step of DecodeGreedy, for a front that decodes. */
  lemma DecodeGreedyStep(b: seq<byte>)
    requires DecodeStep(b).Some?
    ensures var (c, n) := DecodeStep(b).value;
            DecodeGreedy(b) == Decoded([c] + DecodeGreedy(b[n..]).text, n + DecodeGreedy(b[n..]).consumed)
  {
  }

  lemma HeadTailAppend<T>(s: seq<T>, u: seq<T>)
    requires |s| > 0
    ensures [s[0]] + (s[1..] + u) == s + u
  {
    assert s == [s[0]] + s[1..];
  }

  /** Decoding the octets of a text, followed by anything, first gives back that text. */
  lemma {:induction false} DecodeAfterText(t: string, rest: seq<byte>)
    ensures DecodeGreedy(Encode(t) + rest)
            == Decoded(t + DecodeGreedy(rest).text, |Encode(t)| + DecodeGreedy(rest).consumed)
  {
    if t == [] {
      assert Encode(t) + rest == rest;
    } else {
      var e := EncodeChar(t[0]);
      var tail := Encode(t[1..]) + rest;
      var b := Encode(t) + rest;
      assert Encode(t) == e + Encode(t[1..]);
      AppendAssoc(e, Encode(t[1..]), rest);
      DecodeEncodeChar(t[0], tail);
      assert b[|e|..] == tail;
      DecodeGreedyStep(b);
      DecodeAfterText(t[1..], rest);
      HeadTailAppend(t, DecodeGreedy(rest).text);
    }
  }

  /** Round trip: every text survives encoding then decoding, and decoding consumes all its octets. */
  lemma DecodeEncode(t: string)
    ensures DecodeGreedy(Encode(t)) == Decoded(t, |Encode(t)|)
  {
    DecodeAfterText(t, []);
    assert Encode(t) + [] == Encode(t);
    assert t + [] == t;
  }

  /** Decoding only the decodable prefix gives the same text as decoding everything. */
  lemma DecodePrefix(b: seq<byte>)
    ensures DecodeGreedy(b[..DecodeGreedy(b).consumed]) == Decoded(DecodeGreedy(b).text, DecodeGreedy(b).consumed)
  {
    DecodeEncode(DecodeGreedy(b).text);
  }
}
