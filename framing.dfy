/**
 * The wire format of the submission client (submit.py): a field is a 4-byte little-endian
 * length header followed by that many bytes.  The socket is modelled as the chunks the peer
 * will still deliver, in order, and the log of everything written to it.
 */
module Framing {
  import opened Bytes

  /** The exceptions the socket helpers raise. */
  datatype Error =
    | Overflow        // OverflowError: a size outside [0, 2^32), or a header that is not 4 bytes
    | NoMoreData      // IOError("No more data in the socket"): the peer closed during a read
    | FieldTooLarge   // IOError("Field is too large")
    | FieldTooSmall   // IOError("Field is too small")

  datatype Result<+T> = Ok(value: T) | Fail(error: Error)

  /** Length of a size header, and the first size it cannot hold (`1 << 32`). */
  const HeaderSize: nat := 4
  const SizeLimit: nat := 0x1_0000_0000

  lemma SizeLimitIsPow()
    ensures Pow256(HeaderSize) == SizeLimit
  {
  }

  // ----------------------------------------------------------------------------------------
  // Size headers

  /** The `width` least significant base-256 digits of `n`, least significant first. */
  function LittleEndian(n: nat, width: nat): (r: seq<byte>)
    ensures |r| == width
  {
    if width == 0 then [] else [(n % 256) as byte] + LittleEndian(n / 256, width - 1)
  }

  /** The number whose little-endian digits are `b`. */
  function ValueOf(b: seq<byte>): nat
  {
    if b == [] then 0 else b[0] as nat + 256 * ValueOf(b[1..])
  }

  /** `width` bytes hold exactly the numbers below 256^width. */
  lemma {:induction false} ValueOfBound(b: seq<byte>)
    ensures ValueOf(b) < Pow256(|b|)
  {
    if b != [] {
      ValueOfBound(b[1..]);
    }
  }

  /** Decoding an encoding gives back the number, provided it fits in the width. */
  lemma {:induction false} ValueOfLittleEndian(n: nat, width: nat)
    requires n < Pow256(width)
    ensures ValueOf(LittleEndian(n, width)) == n
  {
    if width > 0 {
      var e := LittleEndian(n, width);
      assert e[1..] == LittleEndian(n / 256, width - 1);
      ValueOfLittleEndian(n / 256, width - 1);
    }
  }

  /** Encoding a decoding gives back the bytes. */
  lemma {:induction false} LittleEndianValueOf(b: seq<byte>)
    ensures LittleEndian(ValueOf(b), |b|) == b
  {
    if b != [] {
      var n := ValueOf(b);
      assert n % 256 == b[0] as int && n / 256 == ValueOf(b[1..]);
      LittleEndianValueOf(b[1..]);
      assert b == [b[0]] + b[1..];
    }
  }

  /** Byte `i` of the encoding is `(n >> 8i) & 0xFF`. */
  lemma {:induction false} LittleEndianByte(n: nat, width: nat, i: nat)
    requires i < width
    ensures LittleEndian(n, width)[i] as int == n / Pow256(i) % 256
  {
    if i > 0 {
      LittleEndianByte(n / 256, width - 1, i - 1);
      DivDiv256(n, Pow256(i - 1));
    }
  }

  lemma DivDiv256(a: nat, c: nat)
    requires c > 0
    ensures a / 256 / c == a / (256 * c)
  {
    var q, r := a / (256 * c), a % (256 * c);
    var q1, r1 := r / 256, r % 256;
    assert q1 < c;
    assert a == 256 * (c * q + q1) + r1;
    DivUnique(a, 256, c * q + q1, r1);
    DivUnique(c * q + q1, c, q, q1);
  }

  /**
   * socket_encode_size: fails with Overflow outside [0, 2^32); otherwise fills a 4-byte buffer
   * with the low byte of `size`, shifting `size` right by 8 after each byte.
   */
  method EncodeSize(size: int) returns (r: Result<seq<byte>>)
    ensures r.Fail? <==> size < 0 || size >= SizeLimit
    ensures r.Fail? ==> r.error == Overflow
    ensures r.Ok? ==> r.value == LittleEndian(size, HeaderSize)
    ensures r.Ok? ==> forall i | 0 <= i < HeaderSize :: r.value[i] as int == size / Pow256(i) % 256
    ensures r.Ok? ==> ValueOf(r.value) == size
  {
    if size < 0 || size >= SizeLimit {
      return Fail(Overflow);
    }
    var res := new byte[HeaderSize];
    var s: nat := size;
    for i := 0 to HeaderSize
      invariant res[..i] + LittleEndian(s, HeaderSize - i) == LittleEndian(size, HeaderSize)
    {
      assert LittleEndian(s, HeaderSize - i) == [(s % 256) as byte] + LittleEndian(s / 256, HeaderSize - i - 1);
      res[i] := (s % 256) as byte;
      assert res[..i + 1] == res[..i] + [(s % 256) as byte];
      s := s / 256;
    }
    assert res[..] == res[..HeaderSize];
    forall i | 0 <= i < HeaderSize
      ensures res[..][i] as int == size / Pow256(i) % 256
    {
      LittleEndianByte(size, HeaderSize, i);
    }
    SizeLimitIsPow();
    ValueOfLittleEndian(size, HeaderSize);
    r := Ok(res[..]);
  }

  /**
   * socket_decode_size: fails with Overflow unless given exactly 4 bytes; otherwise accumulates
   * the bytes from the last to the first, shifting left by 8 before each.
   */
  method DecodeSize(b: seq<byte>) returns (r: Result<nat>)
    ensures r.Fail? <==> |b| != HeaderSize
    ensures r.Fail? ==> r.error == Overflow
    ensures r.Ok? ==> r.value == ValueOf(b) && r.value < SizeLimit
    ensures r.Ok? ==> LittleEndian(r.value, HeaderSize) == b
  {
    if |b| != HeaderSize {
      return Fail(Overflow);
    }
    var res: nat := 0;
    for i := 0 to HeaderSize
      invariant res == ValueOf(b[HeaderSize - i..])
    {
      assert b[HeaderSize - i - 1..][1..] == b[HeaderSize - i..];
      res := res * 256 + b[HeaderSize - 1 - i] as nat;
    }
    assert b[0..] == b;
    ValueOfBound(b);
    SizeLimitIsPow();
    LittleEndianValueOf(b);
    r := Ok(res);
  }

  // ----------------------------------------------------------------------------------------
  // The socket

  /** The bytes of a sequence of chunks, in order. */
  function Flatten(chunks: seq<seq<byte>>): seq<byte>
  {
    if chunks == [] then [] else chunks[0] + Flatten(chunks[1..])
  }

  /**
   * A connected stream socket.  `inbox` holds the chunks the peer will still deliver, none of
   * them empty; once it is empty the peer has closed the connection and every receive returns
   * zero bytes.  `outbox` is everything the client has written.
   */
  class Socket {
    var inbox: seq<seq<byte>>
    var outbox: seq<byte>

    ghost predicate Valid()
      reads this
    {
      forall i | 0 <= i < |inbox| :: inbox[i] != []
    }

    /** The bytes the peer will still deliver. */
    function Pending(): seq<byte>
      reads this
    {
      Flatten(inbox)
    }

    constructor (chunks: seq<seq<byte>>)
      requires forall i | 0 <= i < |chunks| :: chunks[i] != []
      ensures Valid() && inbox == chunks && outbox == []
    {
      inbox, outbox := chunks, [];
    }

    /**
     * recv(max): the next at most `max` bytes of the current chunk (what is left of the chunk
     * stays for the next receive), or zero bytes once the peer has closed.
     */
    method Recv(max: nat) returns (data: seq<byte>)
      requires Valid() && max > 0
      modifies this
      ensures Valid() && outbox == old(outbox)
      ensures |data| <= max && |data| <= |old(Pending())|
      ensures data == [] <==> old(Pending()) == []
      ensures data == old(Pending())[..|data|] && Pending() == old(Pending())[|data|..]
    {
      if inbox == [] {
        return [];
      }
      var chunk := inbox[0];
      assert old(Pending()) == chunk + Flatten(inbox[1..]);
      if |chunk| <= max {
        data := chunk;
        inbox := inbox[1..];
      } else {
        data := chunk[..max];
        inbox := [chunk[max..]] + inbox[1..];
        assert inbox[1..] == old(inbox)[1..];
        assert chunk == data + chunk[max..];
      }
    }

    /** sendall(data): every byte is written, in order. */
    method SendAll(data: seq<byte>)
      modifies this
      ensures outbox == old(outbox) + data && inbox == old(inbox)
    {
      outbox := outbox + data;
    }
  }

  /**
   * socket_consume: receive until `size` bytes have arrived.  The result is exactly the next
   * `size` bytes of the stream, however the peer chunked them; if the peer closes first the
   * read fails with NoMoreData, having drained what was left.
   */
  method Consume(sock: Socket, size: nat) returns (r: Result<seq<byte>>)
    requires sock.Valid()
    modifies sock
    ensures sock.Valid() && sock.outbox == old(sock.outbox)
    ensures size <= |old(sock.Pending())| ==>
              r == Ok(old(sock.Pending())[..size]) && sock.Pending() == old(sock.Pending())[size..]
    ensures |old(sock.Pending())| < size ==> r == Fail(NoMoreData) && sock.Pending() == []
  {
    var data: seq<byte> := [];
    var remaining: nat := size;
    while remaining > 0
      invariant sock.Valid() && sock.outbox == old(sock.outbox)
      invariant |data| + remaining == size
      invariant data + sock.Pending() == old(sock.Pending())
    {
      var recv := sock.Recv(remaining);
      if |recv| == 0 {
        assert data == old(sock.Pending());
        return Fail(NoMoreData);
      }
      data := data + recv;
      remaining := remaining - |recv|;
    }
    ghost var before := old(sock.Pending());
    assert |data| == size && before == data + sock.Pending();
    assert before[..size] == data && before[size..] == sock.Pending();
    return Ok(data);
  }

  // ----------------------------------------------------------------------------------------
  // Fields

  /** What reading one field off the front of a stream gives, and the bytes left unread. */
  datatype Parsed = Parsed(field: Result<seq<byte>>, rest: seq<byte>)

  /**
   * What socket_recvfield yields on the stream `s`: the header's size must not exceed
   * `maxsize`, must equal it when `exact`, and the stream must then hold that many bytes.
   * A bound violation leaves the bytes after the header unread; a peer that closes early
   * leaves nothing.
   */
  function ParseField(s: seq<byte>, maxsize: nat, exact: bool): (r: Parsed)
    ensures r.field.Ok? ==> |s| >= HeaderSize && s == s[..HeaderSize] + r.field.value + r.rest
    ensures r.field.Ok? ==> |r.field.value| == ValueOf(s[..HeaderSize])
    ensures r.field.Ok? ==> |r.field.value| <= maxsize && (exact ==> |r.field.value| == maxsize)
    ensures r.field == Fail(FieldTooLarge) <==> |s| >= HeaderSize && ValueOf(s[..HeaderSize]) > maxsize
    ensures r.field == Fail(FieldTooSmall)
            <==> |s| >= HeaderSize && exact && ValueOf(s[..HeaderSize]) < maxsize
    ensures r.field == Fail(NoMoreData) ==> r.rest == []
    ensures r.field.Fail? ==> r.field.error != Overflow
    ensures |r.rest| <= |s| && r.rest == s[|s| - |r.rest|..]
  {
    if |s| < HeaderSize then Parsed(Fail(NoMoreData), [])
    else
      var size := ValueOf(s[..HeaderSize]);
      if size > maxsize then Parsed(Fail(FieldTooLarge), s[HeaderSize..])
      else if exact && size < maxsize then Parsed(Fail(FieldTooSmall), s[HeaderSize..])
      else if |s| < HeaderSize + size then Parsed(Fail(NoMoreData), [])
      else
        assert s == s[..HeaderSize] + s[HeaderSize..HeaderSize + size] + s[HeaderSize + size..];
        Parsed(Ok(s[HeaderSize..HeaderSize + size]), s[HeaderSize + size..])
  }

  /**
   * socket_recvfield: read the header, reject a size above `maxsize` (or, when `exact`, below
   * it), then read exactly that many bytes.
   */
  method RecvField(sock: Socket, maxsize: nat, exact: bool) returns (r: Result<seq<byte>>)
    requires sock.Valid()
    modifies sock
    ensures sock.Valid() && sock.outbox == old(sock.outbox)
    ensures var p := ParseField(old(sock.Pending()), maxsize, exact);
            r == p.field && sock.Pending() == p.rest
  {
    ghost var s := sock.Pending();
    var header := Consume(sock, HeaderSize);
    if header.Fail? {
      return Fail(header.error);
    }
    var decoded := DecodeSize(header.value);
    var size := decoded.value;
    if size > maxsize {
      return Fail(FieldTooLarge);
    } else if exact && size < maxsize {
      return Fail(FieldTooSmall);
    }
    assert header.value == s[..HeaderSize] && sock.Pending() == s[HeaderSize..];
    r := Consume(sock, size);
    if r.Ok? {
      assert s[HeaderSize..][..size] == s[HeaderSize..HeaderSize + size];
      assert s[HeaderSize..][size..] == s[HeaderSize + size..];
    }
  }

  /** The bytes socket_sendfield writes for `data`: its size header, then the data. */
  function Frame(data: seq<byte>): (r: seq<byte>)
    requires |data| < SizeLimit
    ensures |r| == HeaderSize + |data| && r[HeaderSize..] == data
  {
    LittleEndian(|data|, HeaderSize) + data
  }

  /**
   * socket_sendfield: write the encoded size, then the data.  Encoding a size of 2^32 or more
   * raises Overflow before anything is written.  (`sendall` returns None on success, so the
   * "Send failed" branch of the source cannot be taken.)
   */
  method SendField(sock: Socket, data: seq<byte>) returns (r: Result<()>)
    modifies sock
    ensures sock.inbox == old(sock.inbox)
    ensures |data| < SizeLimit ==> r == Ok(()) && sock.outbox == old(sock.outbox) + Frame(data)
    ensures |data| >= SizeLimit ==> r == Fail(Overflow) && sock.outbox == old(sock.outbox)
  {
    var header := EncodeSize(|data|);
    if header.Fail? {
      return Fail(Overflow);
    }
    sock.SendAll(header.value);
    sock.SendAll(data);
    return Ok(());
  }

  /**
   * Round trip between the two ends of the wire: a frame written by socket_sendfield is read
   * back by socket_recvfield as the same data, leaving the bytes after it, unless its size
   * breaks the reader's bound.
   */
  lemma ParseFrame(data: seq<byte>, rest: seq<byte>, maxsize: nat, exact: bool)
    requires |data| < SizeLimit
    ensures ParseField(Frame(data) + rest, maxsize, exact)
            == if |data| > maxsize then Parsed(Fail(FieldTooLarge), data + rest)
               else if exact && |data| < maxsize then Parsed(Fail(FieldTooSmall), data + rest)
               else Parsed(Ok(data), rest)
  {
    var s := Frame(data) + rest;
    assert s[..HeaderSize] == LittleEndian(|data|, HeaderSize);
    SizeLimitIsPow();
    ValueOfLittleEndian(|data|, HeaderSize);
    assert s[HeaderSize..] == data + rest;
    assert s[HeaderSize..HeaderSize + |data|] == data;
    assert s[HeaderSize + |data|..] == rest;
  }
}
