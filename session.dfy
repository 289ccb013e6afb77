/**
 * The client's walk over one connection (submit.py lines 185-236): check the server's version
 * field, send the secret identifier and read a 1-byte status, send the mode, upload and/or
 * download the zip payload, then write the server's feedback text until it closes.
 *
 * `Run` is the walk as a function of the bytes the server sends; `RunSession` performs it on a
 * socket and is proved to write exactly what `Run` says and to end as `Run` says.
 */
module Session {
  import opened Bytes
  import opened Framing
  import Utf8

  /** `version_uid`, `max_codesize`, and the size of each feedback receive. */
  const VersionUid: seq<byte> := [0x00, 0x00, 0x00, 0x02]
  const MaxCodeSize: nat := 100000
  const FeedbackChunk: nat := 256

  /**
   * The command line: `--uuid`, `--download`, `--force-update`, and the contents of the file at
   * `zippath` (None when it does not exist).
   */
  datatype Request = Request(uuid: string, download: bool, forceUpdate: bool, zip: Option<seq<byte>>)

  /** How a session ends. */
  datatype End =
    | VersionMismatch                       // "Protocol version mismatch with the server, ..."
    | Rejected(status: byte, message: string)
    | FileMissing                           // "File ... cannot be accessed"
    | Crashed(error: Error)                 // an exception the script does not catch
    | Finished(downloaded: Option<seq<byte>>, feedback: string, dropped: seq<byte>)

  /** The `msg` table: the statuses that end the session, with what is printed for each. */
  function StatusMessage(status: byte): (r: Option<string>)
    ensures r.Some? <==> status in {1, 2, 3}
  {
    if status == 1 then Some("Invalid user secret identifier")
    else if status == 2 then Some("Unknown user secret identifier")
    else if status == 3 then Some("User is already logged in")
    else None
  }

  /** `submit_mode`: bit 0 is the download flag, bit 1 the force-update flag. */
  function Mode(download: bool, forceUpdate: bool): (m: byte)
    ensures m < 4
    ensures m % 2 == 1 <==> download
    ensures m / 2 == 1 <==> forceUpdate
  {
    (if download then 1 else 0) + (if forceUpdate then 2 else 0)
  }

  /** The zip file is sent unless the request is a plain download. */
  predicate Uploads(req: Request) {
    req.forceUpdate || !req.download
  }

  /** What the session ends with, what it writes, and what it leaves unread on the socket. */
  datatype Trace = Trace(end: End, sent: seq<byte>, unread: seq<byte>)

  /** The session on the server's byte stream `s`: first the version check. */
  function Run(s: seq<byte>, req: Request): (t: Trace)
    ensures t.sent != [] ==> ParseField(s, |VersionUid|, false).field == Ok(VersionUid)
    ensures t.end == VersionMismatch ==> t.sent == []
  {
    var version := ParseField(s, |VersionUid|, false);
    if version.field.Fail? then Trace(Crashed(version.field.error), [], version.rest)
    else if version.field.value != VersionUid then Trace(VersionMismatch, [], version.rest)
    else Authenticate(version.rest, req)
  }

  /** Send the identifier, read the status; a status in the `msg` table ends the session. */
  function Authenticate(s: seq<byte>, req: Request): (t: Trace)
    ensures |Utf8.Encode(req.uuid)| >= SizeLimit ==> t.end == Crashed(Overflow) && t.sent == []
    ensures |Utf8.Encode(req.uuid)| < SizeLimit ==> Frame(Utf8.Encode(req.uuid)) <= t.sent
    ensures t.end.Rejected? ==> && t.end.status in {1, 2, 3} && |Utf8.Encode(req.uuid)| < SizeLimit
                                && t.sent == Frame(Utf8.Encode(req.uuid))
  {
    var id := Utf8.Encode(req.uuid);
    if |id| >= SizeLimit then Trace(Crashed(Overflow), [], s)
    else
      var status := ParseField(s, 1, true);
      if status.field.Fail? then Trace(Crashed(status.field.error), Frame(id), status.rest)
      else
        var code := status.field.value[0];
        match StatusMessage(code)
        case Some(message) => Trace(Rejected(code, message), Frame(id), status.rest)
        case None =>
          var t := Exchange(status.rest, req);
          Trace(t.end, Frame(id) + Frame([Mode(req.download, req.forceUpdate)]) + t.sent, t.unread)
  }

  /** After the mode is sent: upload, then download, then the feedback. */
  function Exchange(s: seq<byte>, req: Request): (t: Trace)
    ensures t.end == FileMissing <==> Uploads(req) && req.zip.None?
    ensures t.end == FileMissing ==> t.sent == []
    ensures t.end.Finished? ==> (t.end.downloaded.Some? <==> req.download)
  {
    if Uploads(req) && req.zip.None? then Trace(FileMissing, [], s)
    else if Uploads(req) && |req.zip.value| >= SizeLimit then Trace(Crashed(Overflow), [], s)
    else
      var up := if Uploads(req) then Frame(req.zip.value) else [];
      if !req.download then Trace(Feedback(s, None), up, [])
      else
        var payload := ParseField(s, MaxCodeSize, false);
        if payload.field.Fail? then Trace(Crashed(payload.field.error), up, payload.rest)
        else Trace(Feedback(payload.rest, Some(payload.field.value)), up, [])
  }

  /** The feedback phase reads to the end: the decodable text is written, the rest dropped. */
  function Feedback(s: seq<byte>, downloaded: Option<seq<byte>>): (r: End)
    ensures r.Finished? && r.downloaded == downloaded
    ensures Utf8.Encode(r.feedback) + r.dropped == s
  {
    var d := Utf8.DecodeGreedy(s);
    Finished(downloaded, d.text, s[d.consumed..])
  }

  // ----------------------------------------------------------------------------------------
  // The session on a socket

  /**
   * One round of the feedback loop keeps its invariant: if `text` and `prev` are the decoded
   * text and the residue of everything received so far, then after `chunk` is appended to `prev`
   * and decoded, the text and residue are those of everything received including `chunk`.
   */
  lemma FeedbackRound(received: seq<byte>, chunk: seq<byte>, text: string, prev: seq<byte>)
    requires text == Utf8.DecodeGreedy(received).text
    requires prev == received[Utf8.DecodeGreedy(received).consumed..]
    ensures var d := Utf8.DecodeGreedy(prev + chunk);
            var r := Utf8.DecodeGreedy(received + chunk);
            text + d.text == r.text && (prev + chunk)[d.consumed..] == (received + chunk)[r.consumed..]
  {
    ReceivedSplit(received, chunk, text, prev);
    RoundShift(received + chunk, text, prev + chunk);
  }

  /** Decoding octets that start with a text's encoding decodes the text, then what follows. */
  lemma RoundShift(all: seq<byte>, text: string, p: seq<byte>)
    requires all == Utf8.Encode(text) + p
    ensures var d := Utf8.DecodeGreedy(p);
            var r := Utf8.DecodeGreedy(all);
            text + d.text == r.text && p[d.consumed..] == all[r.consumed..]
  {
    var e, d, r := Utf8.Encode(text), Utf8.DecodeGreedy(p), Utf8.DecodeGreedy(all);
    Utf8.DecodeAfterText(text, p);
    assert r.consumed == |e| + d.consumed;
    DropAfter(e, p, d.consumed);
  }

  /** Everything received, then a chunk, is the decoded text's octets, then the residue and the chunk. */
  lemma ReceivedSplit(received: seq<byte>, chunk: seq<byte>, text: string, prev: seq<byte>)
    requires text == Utf8.DecodeGreedy(received).text
    requires prev == received[Utf8.DecodeGreedy(received).consumed..]
    ensures received + chunk == Utf8.Encode(text) + (prev + chunk)
  {
    DecodedSplit(received);
    AppendAssoc(Utf8.Encode(text), prev, chunk);
  }

  /** The octets of the decoded text followed by the residue are the octets decoded. */
  lemma DecodedSplit(b: seq<byte>)
    ensures var d := Utf8.DecodeGreedy(b);
            Utf8.Encode(d.text) + b[d.consumed..] == b
  {
    SplitAt(b, Utf8.DecodeGreedy(b).consumed);
  }

  lemma SplitAt<T>(s: seq<T>, i: nat)
    requires i <= |s|
    ensures s == s[..i] + s[i..]
  {
  }

  lemma DropAfter<T>(a: seq<T>, b: seq<T>, k: nat)
    requires k <= |b|
    ensures (a + b)[|a| + k..] == b[k..]
  {
  }

  /**
   * One decode attempt of the feedback loop: `data.decode()`, and on a `UnicodeDecodeError` the
   * text before the error's `start` with the bytes from `start` on kept for the next round.
   */
  method DecodeAvailable(data: seq<byte>) returns (text: string, rest: seq<byte>)
    ensures var d := Utf8.DecodeGreedy(data);
            text == d.text && rest == data[d.consumed..]
    ensures Utf8.Encode(text) + rest == data
  {
    var d := Utf8.DecodeGreedy(data);
    if d.consumed == |data| {
      text, rest := d.text, [];
    } else {
      rest := data[d.consumed..];
      text := Utf8.DecodeGreedy(data[..d.consumed]).text;
      Utf8.DecodePrefix(data);
    }
    SplitAt(data, d.consumed);
  }

  /**
   * The feedback loop: receive up to 256 bytes until the peer closes, prepend what was left
   * over, write what decodes and keep the rest (from the decode error's `start`) for the next
   * round.  Whatever the chunking, the text written is the greedy decoding of everything
   * received, and the text's bytes followed by the final residue are everything received.
   */
  method StreamFeedback(sock: Socket) returns (text: string, prev: seq<byte>)
    requires sock.Valid()
    modifies sock
    ensures sock.Valid() && sock.outbox == old(sock.outbox) && sock.Pending() == []
    ensures Utf8.Encode(text) + prev == old(sock.Pending())
    ensures var d := Utf8.DecodeGreedy(old(sock.Pending()));
            text == d.text && prev == old(sock.Pending())[d.consumed..]
  {
    prev := [];
    text := [];
    ghost var received: seq<byte> := [];
    while true
      invariant sock.Valid() && sock.outbox == old(sock.outbox)
      invariant received + sock.Pending() == old(sock.Pending())
      invariant text == Utf8.DecodeGreedy(received).text
      invariant prev == received[Utf8.DecodeGreedy(received).consumed..]
      decreases |sock.Pending()|
    {
      ghost var pending := sock.Pending();
      var chunk := sock.Recv(FeedbackChunk);
      if |chunk| == 0 {
        break;
      }
      SplitAt(pending, |chunk|);
      AppendAssoc(received, chunk, sock.Pending());
      FeedbackRound(received, chunk, text, prev);
      var written;
      written, prev := DecodeAvailable(prev + chunk);
      text := text + written;
      received := received + chunk;
    }
    assert received == old(sock.Pending());
    DecodedSplit(received);
  }

  /** The whole session on a connected socket whose peer sends `old(sock.Pending())`. */
  method RunSession(sock: Socket, req: Request) returns (end: End)
    requires sock.Valid()
    modifies sock
    ensures sock.Valid()
    ensures var t := Run(old(sock.Pending()), req);
            end == t.end && sock.outbox == old(sock.outbox) + t.sent && sock.Pending() == t.unread
  {
    // Check version
    var version := RecvField(sock, |VersionUid|, false);
    if version.Fail? {
      return Crashed(version.error);
    }
    if version.value != VersionUid {
      return VersionMismatch;
    }
    end := AuthenticateSession(sock, req);
  }

  /** Identification and everything after it, as `Authenticate` says. */
  method AuthenticateSession(sock: Socket, req: Request) returns (end: End)
    requires sock.Valid()
    modifies sock
    ensures sock.Valid()
    ensures var t := Authenticate(old(sock.Pending()), req);
            end == t.end && sock.outbox == old(sock.outbox) + t.sent && sock.Pending() == t.unread
  {
    ghost var s0, o0 := sock.Pending(), sock.outbox;
    // Send the secret user identifier
    var id := Utf8.Encode(req.uuid);
    var sent := SendField(sock, id);
    if sent.Fail? {
      assert Authenticate(s0, req) == Trace(Crashed(Overflow), [], s0);
      assert sock.outbox == o0 + [];
      return Crashed(sent.error);
    }
    assert sock.Pending() == s0 && sock.outbox == o0 + Frame(id);
    var res := RecvField(sock, 1, true);
    ghost var status' := ParseField(s0, 1, true);
    assert res == status'.field && sock.Pending() == status'.rest;
    if res.Fail? {
      assert Authenticate(s0, req) == Trace(Crashed(res.error), Frame(id), status'.rest);
      return Crashed(res.error);
    }
    var status := res.value[0];
    var message := StatusMessage(status);
    if message.Some? {
      assert Authenticate(s0, req) == Trace(Rejected(status, message.value), Frame(id), status'.rest);
      return Rejected(status, message.value);
    }
    // Send mode of submission
    ghost var mode := Frame([Mode(req.download, req.forceUpdate)]);
    sent := SendField(sock, [Mode(req.download, req.forceUpdate)]);
    ghost var out := sock.outbox;
    assert out == o0 + Frame(id) + mode;
    ghost var t := Exchange(status'.rest, req);
    end := ExchangeSession(sock, req);
    assert end == t.end && sock.Pending() == t.unread && sock.outbox == out + t.sent;
    assert Authenticate(s0, req) == Trace(t.end, Frame(id) + mode + t.sent, t.unread);
    AppendAssoc(o0, Frame(id), mode);
    AppendAssoc(o0, Frame(id) + mode, t.sent);
    assert sock.outbox == o0 + (Frame(id) + mode + t.sent);
  }

  /** Upload and/or download according to the mode, then the feedback, as `Exchange` says. */
  method ExchangeSession(sock: Socket, req: Request) returns (end: End)
    requires sock.Valid()
    modifies sock
    ensures sock.Valid()
    ensures var t := Exchange(old(sock.Pending()), req);
            end == t.end && sock.outbox == old(sock.outbox) + t.sent && sock.Pending() == t.unread
  {
    // Process according to mode of submission
    if req.forceUpdate || !req.download {
      if req.zip.None? {
        return FileMissing;
      }
      var sent := SendField(sock, req.zip.value);
      if sent.Fail? {
        return Crashed(sent.error);
      }
    }
    var downloaded: Option<seq<byte>> := None;
    if req.download {
      var payload := RecvField(sock, MaxCodeSize, false);
      if payload.Fail? {
        return Crashed(payload.error);
      }
      downloaded := Some(payload.value);
    }
    // Read until the socket is closed
    var text, prev := StreamFeedback(sock);
    end := Finished(downloaded, text, prev);
  }

  // ----------------------------------------------------------------------------------------
  // Properties of the walk

  /**
   * The version field is bounded, not exact: a field of at most 4 bytes that differs from
   * `version_uid` (a shorter one included) stops the session before anything is sent, and only
   * `version_uid` itself lets it go on to identification.
   */
  lemma VersionGate(v: seq<byte>, rest: seq<byte>, req: Request)
    requires |v| <= |VersionUid|
    ensures var t := Run(Frame(v) + rest, req);
            if v == VersionUid then t == Authenticate(rest, req)
            else t == Trace(VersionMismatch, [], rest)
  {
    ParseFrame(v, rest, |VersionUid|, false);
  }

  /** A version field longer than 4 bytes is refused as too large; its body is left unread. */
  lemma VersionTooLarge(v: seq<byte>, rest: seq<byte>, req: Request)
    requires |VersionUid| < |v| < SizeLimit
    ensures Run(Frame(v) + rest, req) == Trace(Crashed(FieldTooLarge), [], v + rest)
  {
    ParseFrame(v, rest, |VersionUid|, false);
  }

  /** Nothing at all is sent unless the version field is exactly `version_uid`. */
  lemma NothingSentBeforeVersion(s: seq<byte>, req: Request)
    ensures Run(s, req).sent != [] ==> ParseField(s, |VersionUid|, false).field == Ok(VersionUid)
    ensures ParseField(s, |VersionUid|, false).field == Ok(VersionUid) && |Utf8.Encode(req.uuid)| < SizeLimit
            ==> |Run(s, req).sent| >= HeaderSize + |Utf8.Encode(req.uuid)|
                && Run(s, req).sent[..HeaderSize + |Utf8.Encode(req.uuid)|] == Frame(Utf8.Encode(req.uuid))
  {
    var v := ParseField(s, |VersionUid|, false);
    if v.field == Ok(VersionUid) && |Utf8.Encode(req.uuid)| < SizeLimit {
      assert Run(s, req) == Authenticate(v.rest, req);
    }
  }

  /** Statuses 1, 2 and 3 end the session after the identifier and before the mode is sent. */
  lemma StatusRejects(code: byte, rest: seq<byte>, req: Request)
    requires code in {1, 2, 3}
    requires |Utf8.Encode(req.uuid)| < SizeLimit
    ensures var t := Authenticate(Frame([code]) + rest, req);
            t.end.Rejected? && t.end.status == code && t.end.message == StatusMessage(code).value
            && t.sent == Frame(Utf8.Encode(req.uuid)) && t.unread == rest
  {
    ParseFrame([code], rest, 1, true);
  }

  /** Any other status lets the session go on: the mode byte follows, as a 1-byte field. */
  lemma StatusAdmits(code: byte, rest: seq<byte>, req: Request)
    requires code !in {1, 2, 3}
    requires |Utf8.Encode(req.uuid)| < SizeLimit
    ensures var t := Authenticate(Frame([code]) + rest, req);
            var e := Exchange(rest, req);
            t.end == e.end && t.unread == e.unread
            && t.sent == Frame(Utf8.Encode(req.uuid)) + Frame([Mode(req.download, req.forceUpdate)]) + e.sent
  {
    ParseFrame([code], rest, 1, true);
  }

  /** The status field is exactly one byte: any other length ends the session after the identifier. */
  lemma StatusExact(v: seq<byte>, rest: seq<byte>, req: Request)
    requires |v| != 1 && |v| < SizeLimit
    requires |Utf8.Encode(req.uuid)| < SizeLimit
    ensures var t := Authenticate(Frame(v) + rest, req);
            t.end == Crashed(if |v| > 1 then FieldTooLarge else FieldTooSmall)
            && t.sent == Frame(Utf8.Encode(req.uuid)) && t.unread == v + rest
  {
    ParseFrame(v, rest, 1, true);
  }

  /**
   * After the mode: the zip file is sent exactly when the request uploads, a payload is
   * received exactly when it downloads, and a missing file stops the session before anything
   * is read or sent.  The upload comes first: when the download fails the upload is already sent.
   */
  lemma Directions(s: seq<byte>, req: Request)
    ensures var t := Exchange(s, req);
            (t.end == FileMissing <==> Uploads(req) && req.zip.None?)
            && (t.end == FileMissing ==> t.sent == [] && t.unread == s)
            && (t.end.Finished? ==> (t.end.downloaded.Some? <==> req.download) && t.unread == []
                                    && t.sent == if Uploads(req) then Frame(req.zip.value) else [])
            && (t.end.Finished? || t.end == FileMissing || t.end.Crashed?)
            && (t.end.Crashed? && t.sent != [] ==> Uploads(req) && t.sent == Frame(req.zip.value))
  {
  }

  /**
   * A whole submission: the server accepts the version and the identifier, sends the payload
   * when one is asked for, then the feedback text, and closes.  The client sends exactly the
   * identifier, the mode and the upload, and writes the whole feedback.
   */
  lemma Submission(req: Request, code: byte, payload: seq<byte>, feedback: string)
    requires |Utf8.Encode(req.uuid)| < SizeLimit
    requires Uploads(req) ==> req.zip.Some? && |req.zip.value| < SizeLimit
    requires code !in {1, 2, 3}
    requires |payload| <= MaxCodeSize
    ensures var down := if req.download then Frame(payload) else [];
            var up := if Uploads(req) then Frame(req.zip.value) else [];
            var mode := Mode(req.download, req.forceUpdate);
            Run(Frame(VersionUid) + (Frame([code]) + (down + Utf8.Encode(feedback))), req)
            == Trace(Finished(if req.download then Some(payload) else None, feedback, []),
                     Frame(Utf8.Encode(req.uuid)) + Frame([mode]) + up, [])
  {
    var down := if req.download then Frame(payload) else [];
    var fb := Utf8.Encode(feedback);
    VersionGate(VersionUid, Frame([code]) + (down + fb), req);
    StatusAdmits(code, down + fb, req);
    ExchangeDelivers(req, payload, feedback);
  }

  /** The exchange phase of a submission whose server sends the payload asked for and then text. */
  lemma ExchangeDelivers(req: Request, payload: seq<byte>, feedback: string)
    requires Uploads(req) ==> req.zip.Some? && |req.zip.value| < SizeLimit
    requires |payload| <= MaxCodeSize
    ensures var down := if req.download then Frame(payload) else [];
            Exchange(down + Utf8.Encode(feedback), req)
            == Trace(Finished(if req.download then Some(payload) else None, feedback, []),
                     if Uploads(req) then Frame(req.zip.value) else [], [])
  {
    var fb := Utf8.Encode(feedback);
    FeedbackOfText(feedback, if req.download then Some(payload) else None);
    if req.download {
      ParseFrame(payload, fb, MaxCodeSize, false);
    } else {
      assert [] + fb == fb;
    }
  }

  /** Feedback that is all well-formed text is written whole, with nothing dropped. */
  lemma FeedbackOfText(text: string, downloaded: Option<seq<byte>>)
    ensures Feedback(Utf8.Encode(text), downloaded) == Finished(downloaded, text, [])
  {
    var e := Utf8.Encode(text);
    Utf8.DecodeEncode(text);
    assert e[|e|..] == [];
  }

  /**
   * The residue is not only an incomplete tail: one byte that can never start a character
   * (0xFF, say) stays in `prev` for good, and no text after it is ever written, however much
   * valid text follows.
   */
  lemma InvalidByteWithholdsRest(text: string, more: seq<byte>, downloaded: Option<seq<byte>>)
    ensures Feedback(Utf8.Encode(text) + ([0xFF] + more), downloaded)
            == Finished(downloaded, text, [0xFF] + more)
  {
    var r: seq<byte> := [0xFF] + more;
    assert Utf8.DecodeStep(r) == None;
    assert Utf8.DecodeGreedy(r) == Utf8.Decoded([], 0);
    Utf8.DecodeAfterText(text, r);
    assert text + [] == text;
    DropAfter(Utf8.Encode(text), r, 0);
  }

  /**
   * A two-chunk delivery that splits the euro sign (E2 82 AC) between receives, followed by a
   * space: the first round writes nothing and keeps both bytes, and the text written in the end
   * is the whole of it.
   */
  method SplitCharacter() returns (text: string, prev: seq<byte>)
    ensures text == "\U{20AC} " && prev == []
  {
    var sock := new Socket([[0xE2, 0x82], [0xAC, 0x20]]);
    assert sock.Pending() == [0xE2, 0x82, 0xAC, 0x20];
    ghost var sent: string := "\U{20AC} ";
    assert Utf8.EncodeChar(sent[0]) == [0xE2, 0x82, 0xAC];
    assert sent[1..] == " " && Utf8.Encode(sent[1..][1..]) == [];
    assert Utf8.Encode(sent[1..]) == [0x20];
    assert Utf8.Encode(sent) == [0xE2, 0x82, 0xAC, 0x20];
    Utf8.DecodeEncode(sent);
    text, prev := StreamFeedback(sock);
  }
}
