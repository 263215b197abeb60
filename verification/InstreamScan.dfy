/** The clamd INSTREAM client (backend/internal/scan/clamav.go): length-prefixed chunk
    framing on the way out, a NUL-terminated reply on the way back. */
module InstreamScan {
  import opened Wrappers
  import opened ByteStrings

  const NUL: Byte := 0
  const BUFFER_SIZE := 65536
  const LENGTH_WIDTH: nat := 4

  function Ascii(s: string): Bytes
    requires forall i | 0 <= i < |s| :: s[i] as int < 128
  {
    seq(|s|, i requires 0 <= i < |s| => s[i] as int as Byte)
  }

  const COMMAND: Bytes := Ascii("zINSTREAM") + [NUL]
  const STREAM: Bytes := Ascii("stream: ")
  const STREAM_OK: Bytes := Ascii("stream: OK")
  const FOUND: Bytes := Ascii(" FOUND")
  const ERROR: Bytes := Ascii(" ERROR")

  // ---------- Readers ----------

  datatype ReadError = NoError | Eof | Failure

  /** What one call can put into the buffer (the reply buffer is smaller). */
  type Chunk = b: Bytes | |b| <= BUFFER_SIZE witness []

  /** One call of an io.Reader: the bytes it put into the buffer and its error value. A
      reader is the sequence of its answers; once they are used up it reports Eof. */
  datatype Read = Read(data: Chunk, err: ReadError)

  /** How many calls a read loop makes: it stops at the first error, or when the reader is
      used up. */
  function CallsMade(calls: seq<Read>, i: nat := 0): (n: nat)
    requires i <= |calls|
    ensures i <= n <= |calls| && forall k | i <= k < n - 1 :: calls[k].err == NoError
    ensures n < |calls| ==> n > i && calls[n - 1].err != NoError
    decreases |calls| - i
  {
    if i == |calls| then i
    else if calls[i].err != NoError then i + 1
    else CallsMade(calls, i + 1)
  }

  /** The read loop has made `i` of its calls, and the last one returned `err`. */
  predicate Reading(calls: seq<Read>, i: nat, err: ReadError) {
    i <= CallsMade(calls) && err == if i == 0 then NoError else calls[i - 1].err
  }

  lemma ReadingGoesOn(calls: seq<Read>, i: nat, err: ReadError)
    requires Reading(calls, i, err)
    ensures if err != NoError || i == |calls| then i == CallsMade(calls) && (err == Failure <==> Fails(calls))
            else Reading(calls, i + 1, calls[i].err)
  {
  }

  function Chunks(calls: seq<Read>): seq<Bytes> {
    seq(|calls|, k requires 0 <= k < |calls| => calls[k].data)
  }

  /** What a read loop gets: the data of every call it makes, the failing one included. */
  function Content(calls: seq<Read>): Bytes {
    Joined(Chunks(calls), CallsMade(calls))
  }

  predicate Fails(calls: seq<Read>) {
    var n := CallsMade(calls);
    n > 0 && calls[n - 1].err == Failure
  }

  // ---------- Framing ----------

  /** binary.BigEndian.PutUint32, for width 4. */
  function BigEndian(n: nat, width: nat := LENGTH_WIDTH): (s: Bytes)
    ensures |s| == width
    decreases width
  {
    if width == 0 then [] else BigEndian(n / 256, width - 1) + [(n % 256) as Byte]
  }

  function FromBigEndian(s: Bytes): nat {
    if s == [] then 0 else FromBigEndian(s[..|s| - 1]) * 256 + s[|s| - 1] as int
  }

  function Pow256(width: nat): nat {
    if width == 0 then 1 else 256 * Pow256(width - 1)
  }

  lemma {:induction false} BigEndianRoundTrip(n: nat, width: nat)
    requires n < Pow256(width)
    ensures FromBigEndian(BigEndian(n, width)) == n
    decreases width
  {
    if width > 0 {
      BigEndianRoundTrip(n / 256, width - 1);
      assert BigEndian(n, width)[..width - 1] == BigEndian(n / 256, width - 1);
    }
  }

  lemma {:induction false} ZeroLength(s: Bytes)
    requires forall k | 0 <= k < |s| :: s[k] == 0
    ensures FromBigEndian(s) == 0
  {
    if s != [] { ZeroLength(s[..|s| - 1]); }
  }

  /** One frame per non-empty read. */
  function Frames(calls: seq<Read>): seq<Bytes> {
    seq(|calls|, k requires 0 <= k < |calls| => FrameOf(calls[k].data))
  }

  /** An empty read is not written at all. */
  function FrameOf(p: Chunk): Bytes {
    if p == [] then [] else BigEndian(|p|) + p
  }

  const TERMINATOR: Bytes := [0, 0, 0, 0]

  /** What a server makes of the stream: it reads frames until a zero length. */
  datatype Decoded = Payload(data: Bytes, rest: Bytes) | Incomplete

  function Decode(s: Bytes): Decoded
    decreases |s|
  {
    if |s| < 4 then Incomplete
    else
      var n := FromBigEndian(s[..4]);
      if n == 0 then Payload([], s[4..])
      else if |s| < 4 + n then Incomplete
      else
        match Decode(s[4 + n..])
        case Payload(data, rest) => Payload(s[4..4 + n] + data, rest)
        case Incomplete => Incomplete
  }

  function Prepend(data: Bytes, d: Decoded): Decoded {
    match d
    case Payload(more, rest) => Payload(data + more, rest)
    case Incomplete => Incomplete
  }

  lemma PrependTwice(a: Bytes, b: Bytes, d: Decoded)
    ensures Prepend(a, Prepend(b, d)) == Prepend(a + b, d)
  {
    if d.Payload? { Associative(a, b, d.data); }
  }

  /** Reading `f` off the front of any stream contributes the payload `p`. */
  ghost predicate Carries(f: Bytes, p: Bytes) {
    forall s :: Decode(f + s) == Prepend(p, Decode(s))
  }

  lemma CarriesNothing()
    ensures Carries([], [])
  {
    forall s
      ensures Decode([] + s) == Prepend([], Decode(s))
    {
      assert [] + s == s;
      if Decode(s).Payload? { assert [] + Decode(s).data == Decode(s).data; }
    }
  }

  lemma FrameCarries(p: Chunk)
    ensures Carries(FrameOf(p), p)
  {
    if p == [] {
      CarriesNothing();
    } else {
      forall s
        ensures Decode(FrameOf(p) + s) == Prepend(p, Decode(s))
      {
        DecodeFrame(p, s);
      }
    }
  }

  lemma DecodeFrame(p: Chunk, s: Bytes)
    requires p != []
    ensures Decode(BigEndian(|p|) + p + s) == Prepend(p, Decode(s))
  {
    var t := BigEndian(|p|) + p + s;
    assert Pow256(4) == 0x1_0000_0000 by { assert Pow256(2) == 0x1_0000; }
    BigEndianRoundTrip(|p|, 4);
    assert t[..4] == BigEndian(|p|);
    assert t[4..4 + |p|] == p;
    assert t[4 + |p|..] == s;
  }

  lemma CarriesBoth(f: Bytes, p: Bytes, g: Bytes, q: Bytes)
    requires Carries(f, p) && Carries(g, q)
    ensures Carries(f + g, p + q)
  {
    forall s
      ensures Decode(f + g + s) == Prepend(p + q, Decode(s))
    {
      Associative(f, g, s);
      PrependTwice(p, q, Decode(s));
    }
  }

  lemma {:induction false} JoinedCarries(fs: seq<Bytes>, ps: seq<Bytes>, n: nat)
    requires n <= |fs| && n <= |ps| && forall k | 0 <= k < n :: Carries(fs[k], ps[k])
    ensures Carries(Joined(fs, n), Joined(ps, n))
  {
    if n == 0 {
      CarriesNothing();
    } else {
      JoinedCarries(fs, ps, n - 1);
      CarriesBoth(Joined(fs, n - 1), Joined(ps, n - 1), fs[n - 1], ps[n - 1]);
    }
  }

  lemma FramesCarryChunks(calls: seq<Read>, n: nat)
    requires n <= |calls|
    ensures Carries(Joined(Frames(calls), n), Joined(Chunks(calls), n))
  {
    forall k | 0 <= k < n
      ensures Carries(Frames(calls)[k], Chunks(calls)[k])
    {
      FrameCarries(calls[k].data);
    }
    JoinedCarries(Frames(calls), Chunks(calls), n);
  }

  /** Whatever the sizes of the reads, zero included, the server decodes exactly the input
      and the stream ends there, so no zero length precedes the terminator. */
  lemma StreamRoundTrip(calls: seq<Read>, n: nat)
    requires n <= |calls|
    ensures Decode(Joined(Frames(calls), n) + TERMINATOR) == Payload(Joined(Chunks(calls), n), [])
  {
    FramesCarryChunks(calls, n);
    ZeroLength(TERMINATOR);
    assert TERMINATOR[..4] == TERMINATOR;
    assert Decode(TERMINATOR) == Payload([], []);
    RightUnit(Joined(Chunks(calls), n));
  }

  /** More bytes do not change a payload that is already complete. */
  lemma {:induction false} DecodeExtends(s: Bytes, t: Bytes)
    requires Decode(s).Payload?
    ensures Decode(s + t) == Payload(Decode(s).data, Decode(s).rest + t)
    decreases |s|
  {
    var n := FromBigEndian(s[..4]);
    CutBefore(s, t, 4, 4);
    if n > 0 {
      var more := s[4 + n..];
      assert Decode(s) == Prepend(s[4..4 + n], Decode(more));
      DecodeExtends(more, t);
      CutBefore(s, t, 4, 4 + n);
      assert Decode(s + t) == Prepend(s[4..4 + n], Decode(more + t));
    }
  }

  /** The framing is prefix-free. */
  lemma ProperPrefixIsIncomplete(s: Bytes, k: nat)
    requires k < |s| && (Decode(s).Payload? ==> Decode(s).rest == [])
    ensures Decode(s[..k]) == Incomplete
  {
    var head, tail := s[..k], s[k..];
    assert head + tail == s;
    if Decode(head).Payload? { DecodeExtends(head, tail); }
  }

  // ---------- The connection ----------

  /** What a connection that breaks after `room` bytes (never, if None) delivers of `s`. */
  function Clip(s: Bytes, room: Option<nat>): Bytes {
    if Fits(s, room) then s else s[..room.value]
  }

  predicate Fits(s: Bytes, room: Option<nat>) {
    room.None? || |s| <= room.value
  }

  class Connection {
    const room: Option<nat>
    var delivered: Bytes

    constructor (room: Option<nat>)
      ensures this.room == room && delivered == []
    {
      this.room, delivered := room, [];
    }

    /** A write that does not fit delivers what does, and fails. */
    method Write(p: Bytes) returns (ok: bool)
      requires Fits(delivered, room)
      modifies this
      ensures ok <==> Fits(old(delivered) + p, room)
      ensures delivered == Clip(old(delivered) + p, room)
    {
      ok := room.None? || |delivered| + |p| <= room.value;
      delivered := if ok then delivered + p else (delivered + p)[..room.value];
    }
  }

  /** The frames and the terminator, which a failing source leaves out. */
  function Body(calls: seq<Read>): Bytes {
    var frames := Joined(Frames(calls), CallsMade(calls));
    if Fails(calls) then frames else frames + TERMINATOR
  }

  /** Everything Scan writes when no write fails. */
  function Stream(calls: seq<Read>): Bytes {
    COMMAND + Body(calls)
  }

  /** It begins with the ASCII bytes of zINSTREAM and a zero. */
  lemma StreamBeginsWithCommand(calls: seq<Read>)
    ensures |Stream(calls)| >= 10
    ensures Stream(calls)[..10] == [122, 73, 78, 83, 84, 82, 69, 65, 77, 0]
  {
    assert COMMAND == [122, 73, 78, 83, 84, 82, 69, 65, 77, 0];
    assert Stream(calls)[..|COMMAND|] == COMMAND;
  }

  /** A prefix that does not fit breaks the connection where the whole does. */
  lemma ClipPrefix(a: Bytes, b: Bytes, room: Option<nat>)
    requires a <= b && !Fits(a, room)
    ensures !Fits(b, room) && Clip(a, room) == Clip(b, room)
  {
    assert a == b[..|a|];
  }

  /** What the server has decoded of the bytes it received. */
  function ServerSees(received: Bytes): Decoded {
    if COMMAND <= received then Decode(received[|COMMAND|..]) else Incomplete
  }

  lemma WholeBody(calls: seq<Read>)
    ensures Decode(Body(calls)) == if Fails(calls) then Incomplete else Payload(Content(calls), [])
  {
    var n := CallsMade(calls);
    if Fails(calls) {
      var frames := Joined(Frames(calls), n);
      assert frames + [] == frames;
      FramesCarryChunks(calls, n);
      assert Decode([]) == Incomplete;
    } else {
      StreamRoundTrip(calls, n);
    }
  }

  lemma ServerSeesBody(command: Bytes, body: Bytes, k: nat)
    requires k <= |command + body|
    ensures command <= (command + body)[..k] <==> k >= |command|
    ensures k >= |command| ==> (command + body)[..k][|command|..] == body[..k - |command|]
  {
    var all := command + body;
    if k >= |command| {
      assert all[..k][..|command|] == command;
    }
  }

  /** Wherever the source fails and wherever the connection breaks: the server gets a complete
      stream if and only if neither happens, and then it is exactly the source. No proper
      prefix of the stream can be taken for a shorter file. */
  lemma ServerSeesAllOrNothing(calls: seq<Read>, room: Option<nat>)
    ensures ServerSees(Clip(Stream(calls), room)) ==
            if Fits(Stream(calls), room) && !Fails(calls) then Payload(Content(calls), []) else Incomplete
  {
    var body := Body(calls);
    var k := if Fits(Stream(calls), room) then |Stream(calls)| else room.value;
    assert Clip(Stream(calls), room) == (COMMAND + body)[..k];
    ServerSeesBody(COMMAND, body, k);
    WholeBody(calls);
    if k == |Stream(calls)| {
      assert body[..|body|] == body;
    } else if k >= |COMMAND| {
      ProperPrefixIsIncomplete(body, k - |COMMAND|);
    }
  }

  /** What has been sent after `i` reads, `start` included. */
  function SentAfter(start: Bytes, calls: seq<Read>, i: nat): Bytes
    requires i <= |calls|
  {
    Extended(start, Frames(calls), i)
  }

  lemma SentOneMore(start: Bytes, calls: seq<Read>, i: nat)
    requires i < |calls|
    ensures SentAfter(start, calls, i + 1) == SentAfter(start, calls, i) + FrameOf(calls[i].data)
  {
  }

  function SentInAll(start: Bytes, calls: seq<Read>): Bytes {
    SentAfter(start, calls, CallsMade(calls))
  }

  /** After the last read, all of the stream but the terminator has been sent. */
  lemma StreamIsSent(calls: seq<Read>)
    ensures Stream(calls) == if Fails(calls) then SentInAll(COMMAND, calls) else SentInAll(COMMAND, calls) + TERMINATOR
  {
    var frames := Joined(Frames(calls), CallsMade(calls));
    ExtendedJoins(COMMAND, Frames(calls), CallsMade(calls));
    Associative(COMMAND, frames, TERMINATOR);
  }

  /** A connection that breaks in the middle of what has been sent breaks the whole there. */
  lemma BrokenHere(start: Bytes, calls: seq<Read>, i: nat, room: Option<nat>)
    requires i <= CallsMade(calls) && !Fits(SentAfter(start, calls, i), room)
    ensures !Fits(SentInAll(start, calls), room)
    ensures Clip(SentAfter(start, calls, i), room) == Clip(SentInAll(start, calls), room)
  {
    ExtendedGrows(start, Frames(calls), i, CallsMade(calls));
    ClipPrefix(SentAfter(start, calls, i), SentInAll(start, calls), room);
  }

  datatype Upload = Uploaded | WriteFailed | ReadFailed

  /** The length and the data of one read, if it returned bytes. */
  method WriteChunk(conn: Connection, calls: seq<Read>, i: nat, ghost start: Bytes) returns (ok: bool)
    requires i < |calls| && conn.delivered == SentAfter(start, calls, i) && Fits(conn.delivered, conn.room)
    modifies conn
    ensures ok <==> Fits(SentAfter(start, calls, i + 1), conn.room)
    ensures ok ==> conn.delivered == SentAfter(start, calls, i + 1)
    ensures !ok ==> conn.delivered == Clip(SentAfter(start, calls, i + 1), conn.room)
  {
    var n := calls[i].data;
    SentOneMore(start, calls, i);
    if |n| == 0 {
      assert conn.delivered + [] == conn.delivered;
      return true;
    }
    var size := BigEndian(|n|);
    ghost var before := conn.delivered;
    Associative(before, size, n);
    ok := conn.Write(size);
    if !ok {
      ClipPrefix(before + size, before + FrameOf(n), conn.room);
      return;
    }
    ok := conn.Write(n);
  }

  /** The upload loop: one chunk for each read. It stops at the first write or read that
      fails. */
  method SendChunks(conn: Connection, calls: seq<Read>) returns (r: Upload)
    requires Fits(conn.delivered, conn.room)
    modifies conn
    ensures conn.delivered == Clip(SentInAll(old(conn.delivered), calls), conn.room)
    ensures r == if !Fits(SentInAll(old(conn.delivered), calls), conn.room) then WriteFailed
                 else if Fails(calls) then ReadFailed
                 else Uploaded
  {
    ghost var start := conn.delivered;
    var i, err := 0, NoError;
    while err == NoError && i < |calls|
      invariant Reading(calls, i, err)
      invariant conn.delivered == SentAfter(start, calls, i) && Fits(conn.delivered, conn.room)
      decreases |calls| - i
    {
      ReadingGoesOn(calls, i, err);
      var ok := WriteChunk(conn, calls, i, start);
      err := calls[i].err;
      i := i + 1;
      if !ok {
        BrokenHere(start, calls, i, conn.room);
        return WriteFailed;
      }
    }
    ReadingGoesOn(calls, i, err);
    r := if err == Failure then ReadFailed else Uploaded;
  }

  /** The command, the chunks, and the terminator once the source is at its end. */
  method SendStream(conn: Connection, calls: seq<Read>) returns (r: Upload)
    requires conn.delivered == []
    modifies conn
    ensures conn.delivered == Clip(Stream(calls), conn.room)
    ensures r == if !Fits(Stream(calls), conn.room) then WriteFailed else if Fails(calls) then ReadFailed else Uploaded
  {
    StreamIsSent(calls);
    var ok := conn.Write(COMMAND);
    assert [] + COMMAND == COMMAND;
    if !ok {
      BrokenHere(COMMAND, calls, 0, conn.room);
      WriteFails(calls, conn.room);
      return WriteFailed;
    }
    r := SendChunks(conn, calls);
    if r == WriteFailed {
      WriteFails(calls, conn.room);
    }
    if r == Uploaded {
      ok := conn.Write(TERMINATOR);
      if !ok {
        return WriteFailed;
      }
    }
  }

  lemma WriteFails(calls: seq<Read>, room: Option<nat>)
    requires !Fits(SentInAll(COMMAND, calls), room)
    ensures !Fits(Stream(calls), room) && Clip(SentInAll(COMMAND, calls), room) == Clip(Stream(calls), room)
  {
    StreamIsSent(calls);
    ClipPrefix(SentInAll(COMMAND, calls), Stream(calls), room);
  }

  // ---------- The reply ----------

  function BeforeNul(s: Bytes): Bytes {
    var i := FirstIndex(s, NUL);
    if i < 0 then s else s[..i]
  }

  /** The reply loop: stops at the first NUL or at the end of the connection. However the
      reply is split into calls, the result is the bytes before the first NUL. A read
      error counts only if no NUL had arrived. */
  method ReadReply(calls: seq<Read>) returns (reply: Bytes, ok: bool)
    ensures ok <==> NUL in Content(calls) || !Fails(calls)
    ensures ok ==> reply == BeforeNul(Content(calls))
  {
    reply := [];
    var i, err := 0, NoError;
    while err == NoError && i < |calls|
      invariant Reading(calls, i, err)
      invariant NUL !in reply && reply == Joined(Chunks(calls), i)
      decreases |calls| - i
    {
      ReadingGoesOn(calls, i, err);
      var n := calls[i].data;
      reply := reply + n;
      err := calls[i].err;
      i := i + 1;
      if |n| > 0 {
        var idx := IndexByte(reply, NUL);
        if idx >= 0 {
          ReplyIsComplete(calls, i, idx);
          return reply[..idx], true;
        }
      }
    }
    ReadingGoesOn(calls, i, err);
    ok := err != Failure;
  }

  /** Once a NUL has arrived, the rest of the connection no longer matters. */
  lemma ReplyIsComplete(calls: seq<Read>, i: nat, idx: nat)
    requires i <= CallsMade(calls) && FirstIndex(Joined(Chunks(calls), i), NUL) == idx
    ensures NUL in Content(calls) && BeforeNul(Content(calls)) == Joined(Chunks(calls), i)[..idx]
  {
    JoinedGrows(Chunks(calls), i, CallsMade(calls));
    var a, all := Joined(Chunks(calls), i), Content(calls);
    assert all[..|a|] == a;
    assert all[..idx] == a[..idx] && all[idx] == NUL;
    FirstIndexIs(all, NUL, idx);
  }

  // ---------- The verdict ----------

  datatype Verdict =
    | Clean | Infected(signature: Bytes) | DaemonError | EmptyReply | UnexpectedReply
    | UploadFailed | SourceFailed | ReplyFailed

  predicate IsSpace(b: Byte) {
    b == 32 || 9 <= b <= 13
  }

  function TrimLeft(s: Bytes): Bytes {
    if s != [] && IsSpace(s[0]) then TrimLeft(s[1..]) else s
  }

  function TrimRight(s: Bytes): Bytes {
    if s != [] && IsSpace(s[|s| - 1]) then TrimRight(s[..|s| - 1]) else s
  }

  /** strings.TrimSpace on ASCII white space. */
  function TrimSpace(s: Bytes): Bytes {
    TrimRight(TrimLeft(s))
  }

  predicate HasSuffix(s: Bytes, suffix: Bytes) {
    |s| >= |suffix| && s[|s| - |suffix|..] == suffix
  }

  function TrimPrefix(s: Bytes, prefix: Bytes): Bytes {
    if prefix <= s then s[|prefix|..] else s
  }

  function TrimSuffix(s: Bytes, suffix: Bytes): Bytes {
    if HasSuffix(s, suffix) then s[..|s| - |suffix|] else s
  }

  function Classify(reply: Bytes): Verdict {
    var resp := TrimSpace(reply);
    if resp == STREAM_OK then Clean
    else if HasSuffix(resp, FOUND) then Infected(TrimSuffix(TrimPrefix(resp, STREAM), FOUND))
    else if STREAM <= resp && HasSuffix(resp, ERROR) then DaemonError
    else if resp == [] then EmptyReply
    else UnexpectedReply
  }

  ghost predicate AllSpace(s: Bytes) {
    forall k | 0 <= k < |s| :: s[k] == 32 || s[k] == 9 || s[k] == 10 || s[k] == 11 || s[k] == 12 || s[k] == 13
  }

  /** The reply is `r` between white space, and `r` neither begins nor ends with any. */
  ghost predicate Says(reply: Bytes, r: Bytes) {
    && (exists a, b :: AllSpace(a) && AllSpace(b) && reply == a + r + b)
    && (r != [] ==> !AllSpace(r[..1]) && !AllSpace(r[|r| - 1..]))
  }

  lemma {:induction false} TrimLeftIs(s: Bytes) returns (a: Bytes)
    ensures AllSpace(a) && s == a + TrimLeft(s) && (TrimLeft(s) != [] ==> !IsSpace(TrimLeft(s)[0]))
  {
    if s != [] && IsSpace(s[0]) {
      var rest := TrimLeftIs(s[1..]);
      a := [s[0]] + rest;
      assert s == [s[0]] + s[1..];
    } else {
      a := [];
    }
  }

  lemma {:induction false} TrimRightIs(s: Bytes) returns (b: Bytes)
    ensures AllSpace(b) && s == TrimRight(s) + b && (TrimRight(s) != [] ==> !IsSpace(TrimRight(s)[|TrimRight(s)| - 1]))
    ensures TrimRight(s) != [] ==> TrimRight(s)[0] == s[0]
  {
    if s != [] && IsSpace(s[|s| - 1]) {
      var rest := TrimRightIs(s[..|s| - 1]);
      b := rest + [s[|s| - 1]];
      assert s == s[..|s| - 1] + [s[|s| - 1]];
    } else {
      b := [];
    }
  }

  lemma {:induction false} SaysTrimmed(reply: Bytes)
    ensures Says(reply, TrimSpace(reply))
  {
    var a := TrimLeftIs(reply);
    var l, r := TrimLeft(reply), TrimSpace(reply);
    var b := TrimRightIs(l);
    Associative(a, r, b);
    assert reply == a + r + b;
    if r != [] {
      assert r[..1] == [r[0]] && r[|r| - 1..] == [r[|r| - 1]];
      assert !IsSpace(r[..1][0]) && !IsSpace(r[|r| - 1..][0]);
    }
  }

  lemma {:induction false} TrimLeftSpace(a: Bytes, r: Bytes)
    requires AllSpace(a) && (r != [] ==> !IsSpace(r[0]))
    ensures TrimLeft(a + r) == r
  {
    if a == [] {
      assert a + r == r;
    } else {
      assert (a + r)[1..] == a[1..] + r;
      TrimLeftSpace(a[1..], r);
    }
  }

  lemma {:induction false} TrimRightSpace(r: Bytes, b: Bytes)
    requires AllSpace(b) && (r != [] ==> !IsSpace(r[|r| - 1]))
    ensures TrimRight(r + b) == r
  {
    if b == [] {
      assert r + b == r;
    } else {
      assert (r + b)[..|r + b| - 1] == r + b[..|b| - 1];
      TrimRightSpace(r, b[..|b| - 1]);
    }
  }

  /** Trimming gives the one string that the reply says. */
  lemma {:induction false} SaysIff(reply: Bytes, r: Bytes)
    ensures Says(reply, r) <==> TrimSpace(reply) == r
  {
    if Says(reply, r) {
      var a, b :| AllSpace(a) && AllSpace(b) && reply == a + r + b;
      Associative(a, r, b);
      if r != [] {
        assert r[..1] == [r[0]] && r[|r| - 1..] == [r[|r| - 1]];
        assert !IsSpace(r[0]) && !IsSpace(r[|r| - 1]);
        TrimLeftSpace(a, r + b);
        TrimRightSpace(r, b);
      } else {
        assert a + r + b == a + b && AllSpace(a + b) && a + b == a + b + [];
        TrimLeftSpace(a + b, []);
      }
    }
    SaysTrimmed(reply);
  }

  /** The reply says that the stream is clean, in ASCII. */
  ghost predicate SaysClean(reply: Bytes) {
    Says(reply, [115, 116, 114, 101, 97, 109, 58, 32, 79, 75])
  }

  /** It ends in " FOUND" behind the signature, with or without "stream: " in front; in the one
      reply where the two overlap, the signature read is "FOUND". */
  ghost predicate SaysInfected(reply: Bytes, signature: Bytes) {
    exists r :: Says(reply, r) && NamesSignature(r, signature)
  }

  ghost predicate NamesSignature(r: Bytes, signature: Bytes) {
    || r == STREAM + signature + FOUND
    || (r == signature + FOUND && !(STREAM <= r))
    || (r == STREAM + FOUND[1..] && signature == FOUND[1..])
  }

  /** It begins with "stream: " and ends in " ERROR", which may share the space. */
  ghost predicate SaysError(reply: Bytes) {
    exists r :: Says(reply, r) && STREAM <= r && HasSuffix(r, ERROR)
  }

  lemma {:induction false} SignatureIff(r: Bytes, signature: Bytes)
    ensures NamesSignature(r, signature) <==>
            HasSuffix(r, FOUND) && signature == TrimSuffix(TrimPrefix(r, STREAM), FOUND)
  {
    if NamesSignature(r, signature) {
      if r == STREAM + signature + FOUND {
        TakeApart(STREAM, signature, FOUND);
      } else if r == signature + FOUND {
        TakeApart([], signature, FOUND);
        assert [] + signature + FOUND == r && r[0..] == r;
      } else {
        SharedSpace(r);
      }
    } else if HasSuffix(r, FOUND) {
      if !(STREAM <= r) {
        assert r == r[..|r| - |FOUND|] + FOUND;
      } else if |r| >= |STREAM| + |FOUND| {
        MiddlePart(r);
      } else {
        ShortReply(r);
        SharedSpace(r);
      }
    }
  }

  lemma {:induction false} MiddlePart(r: Bytes)
    requires STREAM <= r && HasSuffix(r, FOUND) && |r| >= |STREAM| + |FOUND|
    ensures var s := TrimSuffix(TrimPrefix(r, STREAM), FOUND); r == STREAM + s + FOUND
  {
    var m := r[|STREAM|..];
    assert r == STREAM + m && m[|m| - |FOUND|..] == FOUND;
    assert m == m[..|m| - |FOUND|] + FOUND;
    Associative(STREAM, m[..|m| - |FOUND|], FOUND);
  }

  lemma {:induction false} ShortReply(r: Bytes)
    requires STREAM <= r && HasSuffix(r, FOUND) && |r| < |STREAM| + |FOUND|
    ensures r == STREAM + FOUND[1..]
  {
    var k := |r| - |FOUND|;
    assert |STREAM| == 8 && |FOUND| == 6;
    assert r[k] == FOUND[0] == 32 && r[..8] == STREAM;
    assert forall i | 0 <= i < 8 :: r[i] == STREAM[i];
    assert k == 7;
    assert r == r[..8] + r[8..] && r[8..] == FOUND[1..] by {
      assert r[7..] == FOUND && r[7..][1..] == r[8..];
    }
  }

  lemma {:induction false} SharedSpace(r: Bytes)
    requires r == STREAM + FOUND[1..]
    ensures STREAM <= r && HasSuffix(r, FOUND) && TrimSuffix(TrimPrefix(r, STREAM), FOUND) == FOUND[1..]
  {
    assert |STREAM| == 8 && |FOUND| == 6 && STREAM[7] == FOUND[0];
    assert r[8..] == FOUND[1..] && r[7..] == FOUND;
  }

  /** Each verdict in terms of what the reply says, whatever the reply. */
  lemma ClassifyIff(reply: Bytes)
    ensures Classify(reply) == Clean <==> SaysClean(reply)
    ensures forall signature :: Classify(reply) == Infected(signature) <==> SaysInfected(reply, signature)
    ensures Classify(reply) == DaemonError <==> SaysError(reply)
    ensures Classify(reply) == EmptyReply <==> AllSpace(reply)
    ensures Classify(reply) == UnexpectedReply <==>
            !SaysClean(reply) && !SaysError(reply) && !AllSpace(reply) &&
            forall signature :: !SaysInfected(reply, signature)
  {
    var r := TrimSpace(reply);
    forall q
      ensures Says(reply, q) <==> r == q
    {
      SaysIff(reply, q);
    }
    forall signature
      ensures SaysInfected(reply, signature) <==>
              HasSuffix(r, FOUND) && signature == TrimSuffix(TrimPrefix(r, STREAM), FOUND)
    {
      SignatureIff(r, signature);
      if SaysInfected(reply, signature) {
        var q :| Says(reply, q) && NamesSignature(q, signature);
        assert q == r;
      }
    }
    SaysErrorIff(reply);
    SaysNothingIff(reply);
    assert STREAM_OK == [115, 116, 114, 101, 97, 109, 58, 32, 79, 75];
    LastBytes(r);
  }

  lemma {:induction false} SaysErrorIff(reply: Bytes)
    ensures SaysError(reply) <==> STREAM <= TrimSpace(reply) && HasSuffix(TrimSpace(reply), ERROR)
  {
    SaysTrimmed(reply);
    if SaysError(reply) {
      var q :| Says(reply, q) && STREAM <= q && HasSuffix(q, ERROR);
      SaysIff(reply, q);
    }
  }

  lemma {:induction false} SaysNothingIff(reply: Bytes)
    ensures AllSpace(reply) <==> TrimSpace(reply) == []
  {
    SaysIff(reply, []);
    if AllSpace(reply) {
      assert reply == reply + [] + [] && AllSpace([]);
    }
    if Says(reply, []) {
      var a, b :| AllSpace(a) && AllSpace(b) && reply == a + [] + b;
    }
  }

  /** The three suffixes exclude each other. */
  lemma {:induction false} LastBytes(r: Bytes)
    ensures HasSuffix(r, FOUND) ==> r != STREAM_OK && r != [] && !HasSuffix(r, ERROR)
    ensures HasSuffix(r, ERROR) ==> r != STREAM_OK && r != []
  {
    assert FOUND[5] == 68 && ERROR[5] == 82 && STREAM_OK[9] == 75;
    if r != [] {
      LastByteOf(r, FOUND);
      LastByteOf(r, ERROR);
    }
  }

  /** The whole stream was sent, and a reply came, ended by a NUL or by the connection. */
  ghost predicate Answered(conn: Connection, source: seq<Read>, replies: seq<Read>) {
    Fits(Stream(source), conn.room) && !Fails(source) && (NUL in Content(replies) || !Fails(replies))
  }

  /** `source` is the reader to scan, `replies` the reads from the connection. */
  method Scan(conn: Connection, source: seq<Read>, replies: seq<Read>) returns (v: Verdict)
    requires conn.delivered == []
    modifies conn
    ensures conn.delivered == Clip(Stream(source), conn.room)
    ensures v == UploadFailed <==> !Fits(Stream(source), conn.room)
    ensures v == SourceFailed <==> Fits(Stream(source), conn.room) && Fails(source)
    ensures v == ReplyFailed <==>
            Fits(Stream(source), conn.room) && !Fails(source) && Fails(replies) && NUL !in Content(replies)
    ensures var answered, reply := Answered(conn, source, replies), BeforeNul(Content(replies));
            && (v == Clean <==> answered && SaysClean(reply))
            && (forall signature :: v == Infected(signature) <==> answered && SaysInfected(reply, signature))
            && (v == DaemonError <==> answered && SaysError(reply))
            && (v == EmptyReply <==> answered && AllSpace(reply))
    ensures v == Clean ==> ServerSees(conn.delivered) == Payload(Content(source), [])
  {
    ClassifyIff(BeforeNul(Content(replies)));
    var upload := SendStream(conn, source);
    ServerSeesAllOrNothing(source, conn.room);
    if upload == WriteFailed {
      return UploadFailed;
    }
    if upload == ReadFailed {
      return SourceFailed;
    }
    var reply, ok := ReadReply(replies);
    if !ok {
      return ReplyFailed;
    }
    v := Classify(reply);
  }

  /** The bytes clamd sends for a verdict about the stream; `text` is what it says of an
      error. */
  function ReplyFor(v: Verdict, text: Bytes): Bytes
    requires v.Clean? || v.Infected? || v.DaemonError?
  {
    match v
    case Clean => STREAM_OK
    case Infected(signature) => STREAM + signature + FOUND
    case DaemonError => STREAM + text + ERROR
  }

  lemma NothingToTrim(s: Bytes)
    requires s != [] && !IsSpace(s[0]) && !IsSpace(s[|s| - 1])
    ensures TrimSpace(s) == s
  {
  }

  lemma TakeApart(head: Bytes, body: Bytes, tail: Bytes)
    ensures var r := head + body + tail;
            HasSuffix(r, tail) && head <= r && TrimSuffix(TrimPrefix(r, head), tail) == body
  {
    var r := head + body + tail;
    assert r[|head| + |body|..] == tail && r[..|head|] == head && r[|head|..] == body + tail;
    assert (body + tail)[|body|..] == tail;
  }

  lemma EndsAtNul(r: Bytes, after: Bytes)
    requires NUL !in r
    ensures BeforeNul(r + [NUL] + after) == r
  {
    var all := r + [NUL] + after;
    assert all[..|r|] == r && all[|r|] == NUL;
    FirstIndexIs(all, NUL, |r|);
  }

  lemma LastByteOf(s: Bytes, suffix: Bytes)
    requires s != [] && suffix != []
    ensures HasSuffix(s, suffix) ==> s[|s| - 1] == suffix[|suffix| - 1]
  {
    if HasSuffix(s, suffix) {
      assert s[|s| - |suffix|..][|suffix| - 1] == s[|s| - 1];
    }
  }

  /** Every verdict of the daemon survives the trip: for any signature or error text without
      a NUL, whatever follows the NUL, the verdict read back is the one sent. */
  lemma VerdictRoundTrip(v: Verdict, text: Bytes, after: Bytes)
    requires v.Clean? || (v.Infected? && NUL !in v.signature) || (v.DaemonError? && NUL !in text)
    ensures Classify(BeforeNul(ReplyFor(v, text) + [NUL] + after)) == v
  {
    var r := ReplyFor(v, text);
    assert NUL !in STREAM_OK && NUL !in STREAM && NUL !in FOUND && NUL !in ERROR;
    EndsAtNul(r, after);
    assert r[0] == 115;
    match v {
      case Clean =>
        NothingToTrim(r);
      case Infected(signature) =>
        assert r[|r| - 1] == FOUND[5] != STREAM_OK[9];
        NothingToTrim(r);
        TakeApart(STREAM, signature, FOUND);
      case DaemonError =>
        assert r[|r| - 1] == ERROR[5] && ERROR[5] != STREAM_OK[9] && ERROR[5] != FOUND[5];
        NothingToTrim(r);
        TakeApart(STREAM, text, ERROR);
        LastByteOf(r, FOUND);
    }
  }
}
