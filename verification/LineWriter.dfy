/** The line-prefixing and CRLF writers of the dev server (tools/dev/serve.go). */
module LineWriter {
  import opened ByteStrings

  const LF: Byte := 10
  const CR: Byte := 13

  // ---------- CRLF conversion ----------

  /** bytes.ReplaceAll(s, "\r\n", "\n"). */
  function Collapse(s: Bytes): Bytes {
    if s == [] then []
    else if |s| >= 2 && s[0] == CR && s[1] == LF then [LF] + Collapse(s[2..])
    else [s[0]] + Collapse(s[1..])
  }

  /** bytes.ReplaceAll(s, "\n", "\r\n"). */
  function Expand(s: Bytes): Bytes {
    if s == [] then []
    else if s[0] == LF then [CR, LF] + Expand(s[1..])
    else [s[0]] + Expand(s[1..])
  }

  function Crlf(s: Bytes): Bytes {
    Expand(Collapse(s))
  }

  lemma {:induction false} CollapseUndoesExpand(s: Bytes)
    ensures Collapse(Expand(s)) == s
  {
    if s != [] {
      CollapseUndoesExpand(s[1..]);
      var e := Expand(s[1..]);
      if s[0] == LF {
        assert ([CR, LF] + e)[2..] == e;
      } else {
        assert ([s[0]] + e)[1..] == e;
      }
    }
  }

  /** Line by line: text without a line feed, lone carriage returns included, stays as it is, and
      its line feed gets a carriage return unless it has one. */
  lemma {:induction false} LineCrlf(s: Bytes)
    requires 10 !in s
    ensures Crlf(s) == s
    ensures Crlf(s + [10]) == if s != [] && s[|s| - 1] == 13 then s + [10] else s + [13, 10]
  {
    if s == [] {
      assert [] + [10] == [10] && [10][1..] == [];
      assert Collapse([10]) == [10] && Expand([10]) == [13, 10] + Expand([]);
    } else {
      var t := s[1..];
      LineCrlf(t);
      assert s == [s[0]] + t && (s + [10])[1..] == t + [10];
      PlainByte(s[0], t);
      if t == [] && s[0] == 13 {
        assert s + [10] == [13, 10];
        CarriedLineEnd();
      } else {
        assert s + [10] == [s[0]] + (t + [10]);
        PlainByte(s[0], t + [10]);
      }
    }
  }

  lemma {:induction false} CarriedLineEnd()
    ensures Crlf([13, 10]) == [13, 10]
  {
    assert [13, 10][2..] == [] && [10][1..] == [];
    assert Collapse([13, 10]) == [10] + [] && Expand([10]) == [13, 10] + [];
  }

  /** A byte that is no line feed, and no carriage return in front of one, is copied. */
  lemma {:induction false} PlainByte(c: Byte, t: Bytes)
    requires c != 10 && !(c == 13 && t != [] && t[0] == 10)
    ensures Crlf([c] + t) == [c] + Crlf(t)
  {
    assert ([c] + t)[1..] == t && ([c] + Collapse(t))[1..] == Collapse(t);
  }

  /** The conversion is idempotent and changes nothing but line ends. */
  lemma CrlfIdempotent(s: Bytes)
    ensures Crlf(Crlf(s)) == Crlf(s)
    ensures Collapse(Crlf(s)) == Collapse(s)
  {
    CollapseUndoesExpand(Collapse(s));
  }

  lemma {:induction false} ExpandedLineEnds(s: Bytes, i: nat)
    requires i < |Expand(s)| && Expand(s)[i] == LF
    ensures i > 0 && Expand(s)[i - 1] == CR
  {
    if s[0] == LF {
      if i > 1 { ExpandedLineEnds(s[1..], i - 2); }
    } else if i > 0 {
      ExpandedLineEnds(s[1..], i - 1);
    }
  }

  /** Every newline that reaches the terminal follows a carriage return. */
  lemma LineEndsAreCrlf(s: Bytes, i: nat)
    requires i < |Crlf(s)| && Crlf(s)[i] == LF
    ensures i > 0 && Crlf(s)[i - 1] == CR
  {
    ExpandedLineEnds(Collapse(s), i);
  }

  lemma {:induction false} ExpandAppend(a: Bytes, b: Bytes)
    ensures Expand(a + b) == Expand(a) + Expand(b)
  {
    if a == [] {
      assert a + b == b;
    } else {
      assert (a + b)[1..] == a[1..] + b;
      ExpandAppend(a[1..], b);
      Associative(if a[0] == LF then [CR, LF] else [a[0]], Expand(a[1..]), Expand(b));
    }
  }

  /** A carriage return at the end of one write and a newline at the start of the next. */
  predicate Torn(a: Bytes, b: Bytes) {
    a != [] && b != [] && a[|a| - 1] == CR && b[0] == LF
  }

  lemma {:induction false} CollapseAppend(a: Bytes, b: Bytes)
    requires !Torn(a, b)
    ensures Collapse(a + b) == Collapse(a) + Collapse(b)
    decreases |a|
  {
    if a == [] {
      assert a + b == b;
    } else if |a| >= 2 && a[0] == CR && a[1] == LF {
      assert (a + b)[2..] == a[2..] + b;
      CollapseAppend(a[2..], b);
      Associative([LF], Collapse(a[2..]), Collapse(b));
    } else {
      assert (a + b)[1..] == a[1..] + b;
      CollapseAppend(a[1..], b);
      Associative([a[0]], Collapse(a[1..]), Collapse(b));
    }
  }

  /** Converting write by write equals converting the whole, exactly when no CRLF pair is
      torn between the two writes. */
  lemma CrlfAppendIff(a: Bytes, b: Bytes)
    ensures Crlf(a + b) == Crlf(a) + Crlf(b) <==> !Torn(a, b)
  {
    if !Torn(a, b) {
      CollapseAppend(a, b);
      ExpandAppend(Collapse(a), Collapse(b));
    } else {
      var a', b' := a[..|a| - 1], b[1..];
      assert a == a' + [CR] && b == [LF] + b' && a + b == a' + ([CR, LF] + b');
      CollapseAppend(a', [CR, LF] + b');
      CollapseAppend(a', [CR]);
      assert ([CR, LF] + b')[2..] == b' && ([LF] + b')[1..] == b' && [CR][1..] == [];
      assert Collapse([CR]) == [CR];
      ExpandAppend(Collapse(a'), [LF] + Collapse(b'));
      ExpandAppend(Collapse(a'), [CR]);
      assert ([LF] + Collapse(b'))[1..] == Collapse(b');
      assert Expand([CR]) == [CR];
      assert |Crlf(a)| + |Crlf(b)| == |Crlf(a + b)| + 1;
    }
  }

  // ---------- Lines ----------

  /** The complete lines of a stream, newlines included. */
  function Lines(s: Bytes): seq<Bytes>
    decreases |s|
  {
    var i := FirstIndex(s, LF);
    if i < 0 then [] else [s[..i + 1]] + Lines(s[i + 1..])
  }

  /** What follows the last newline. */
  function Tail(s: Bytes): (t: Bytes)
    ensures LF !in t
    decreases |s|
  {
    var i := FirstIndex(s, LF);
    if i < 0 then s else Tail(s[i + 1..])
  }

  lemma {:induction false} FirstLine(s: Bytes)
    requires LF in s
    ensures var k := FirstIndex(s, LF) + 1;
            0 < k <= |s| && Lines(s) == [s[..k]] + Lines(s[k..]) && Tail(s) == Tail(s[k..])
  {
  }

  lemma {:induction false} Rejoin(s: Bytes, k: nat, lines: Bytes, tail: Bytes)
    requires k <= |s| && lines + tail == s[k..]
    ensures (s[..k] + lines) + tail == s
  {
    Associative(s[..k], lines, tail);
    assert s[..k] + s[k..] == s;
  }

  /** Lines and tail hold every byte of the stream, in order. */
  lemma {:induction false} LinesLoseNothing(s: Bytes)
    ensures Flatten(Lines(s)) + Tail(s) == s
    decreases |s|
  {
    if LF in s {
      FirstLine(s);
      var k := FirstIndex(s, LF) + 1;
      LinesLoseNothing(s[k..]);
      FlattenCons(s[..k], Lines(s[k..]));
      Rejoin(s, k, Flatten(Lines(s[k..])), Tail(s[k..]));
    } else {
      assert Lines(s) == [] && Tail(s) == s && [] + s == s;
    }
  }

  /** A line has one newline, at its end. */
  lemma {:induction false} LineShape(s: Bytes, k: nat)
    requires k < |Lines(s)|
    ensures var l := Lines(s)[k]; l != [] && l[|l| - 1] == LF && LF !in l[..|l| - 1]
    decreases |s|
  {
    var i := FirstIndex(s, LF);
    assert s[..i + 1][..i] == s[..i];
    if k > 0 {
      LineShape(s[i + 1..], k - 1);
    }
  }

  /** Splitting a stream anywhere: the second piece continues the pending tail. */
  lemma {:induction false} LinesSplit(a: Bytes, b: Bytes)
    ensures Lines(a + b) == Lines(a) + Lines(Tail(a) + b)
    ensures Tail(a + b) == Tail(Tail(a) + b)
    decreases |a|
  {
    var i := FirstIndex(a, LF);
    if i >= 0 {
      assert (a + b)[..i] == a[..i];
      FirstIndexIs(a + b, LF, i);
      assert (a + b)[..i + 1] == a[..i + 1];
      assert (a + b)[i + 1..] == a[i + 1..] + b;
      LinesSplit(a[i + 1..], b);
    }
  }

  function Prefixed(prefix: Bytes, lines: seq<Bytes>): seq<Bytes> {
    seq(|lines|, k requires 0 <= k < |lines| => prefix + lines[k])
  }

  // ---------- The writers ----------

  /** What a write of `p` emits, and what it leaves in the buffer. */
  function Emitted(buf: Bytes, p: Bytes): seq<Bytes> {
    Lines(buf + p)
  }

  function Kept(buf: Bytes, p: Bytes): Bytes {
    Tail(buf + p)
  }

  /** What a flush emits; it leaves nothing. */
  function Flushed(buf: Bytes): seq<Bytes> {
    if buf == [] then [] else [buf + [LF]]
  }

  /** Standard output, behind a rawWriter when the terminal is in raw mode. `received` are
      the writes it was given, `shown` the bytes that reached the terminal. */
  class Terminal {
    const raw: bool
    var received: seq<Bytes>
    var shown: Bytes

    constructor (raw: bool)
      ensures this.raw == raw && received == [] && shown == []
    {
      this.raw := raw;
      received, shown := [], [];
    }

    method Write(p: Bytes) returns (n: nat)
      modifies this
      ensures n == |p|
      ensures received == old(received) + [p]
      ensures shown == old(shown) + Displayed(raw, p)
    {
      if raw {
        var data := Collapse(p);
        data := Expand(data);
        shown := shown + data;
      } else {
        shown := shown + p;
      }
      received := received + [p];
      n := |p|;
    }
  }

  function Displayed(raw: bool, p: Bytes): Bytes {
    if raw then Crlf(p) else p
  }

  function DisplayedAll(raw: bool, ps: seq<Bytes>): Bytes {
    if ps == [] then [] else DisplayedAll(raw, ps[..|ps| - 1]) + Displayed(raw, ps[|ps| - 1])
  }

  lemma EmitLine(raw: bool, prefix: Bytes, done: seq<Bytes>, line: Bytes)
    ensures Prefixed(prefix, done + [line]) == Prefixed(prefix, done) + [prefix + line]
    ensures DisplayedAll(raw, Prefixed(prefix, done + [line])) ==
            DisplayedAll(raw, Prefixed(prefix, done)) + Displayed(raw, prefix + line)
  {
    var ps := Prefixed(prefix, done);
    assert Prefixed(prefix, done + [line]) == ps + [prefix + line];
    assert (ps + [prefix + line])[..|ps|] == ps;
  }

  lemma {:induction false} EmitRest(raw: bool, prefix: Bytes, buf: Bytes)
    ensures var ps := Prefixed(prefix, Flushed(buf));
            if buf == [] then ps == [] && DisplayedAll(raw, ps) == []
            else ps == [prefix + buf + [LF]] && DisplayedAll(raw, ps) == Displayed(raw, prefix + buf + [LF])
  {
    if buf != [] {
      Associative(prefix, buf, [LF]);
      var p := prefix + buf + [LF];
      assert Prefixed(prefix, Flushed(buf)) == [p];
      assert [p][..0] == [];
    }
  }

  class PrefixWriter {
    const out: Terminal
    const prefix: Bytes
    var buf: Bytes

    constructor (out: Terminal, prefix: Bytes)
      ensures this.out == out && this.prefix == prefix && buf == []
    {
      this.out, this.prefix, buf := out, prefix, [];
    }

    method Write(p: Bytes) returns (n: nat)
      modifies this, out
      ensures n == |p| && buf == Kept(old(buf), p)
      ensures out.received == old(out.received) + Prefixed(prefix, Emitted(old(buf), p))
      ensures out.shown == old(out.shown) + DisplayedAll(out.raw, Prefixed(prefix, Emitted(old(buf), p)))
    {
      ghost var stream, done := old(buf) + p, [];
      buf := buf + p;
      while true
        invariant done + Lines(buf) == Lines(stream) && Tail(buf) == Tail(stream)
        invariant out.received == old(out.received) + Prefixed(prefix, done)
        invariant out.shown == old(out.shown) + DisplayedAll(out.raw, Prefixed(prefix, done))
        decreases |buf|
      {
        var idx := IndexByte(buf, LF);
        if idx < 0 {
          assert done + [] == done;
          break;
        }
        var line := buf[..idx + 1];
        buf := buf[idx + 1..];
        var _ := out.Write(prefix + line);
        EmitLine(out.raw, prefix, done, line);
        Associative(old(out.received), Prefixed(prefix, done), [prefix + line]);
        Associative(old(out.shown), DisplayedAll(out.raw, Prefixed(prefix, done)), Displayed(out.raw, prefix + line));
        Associative(done, [line], Lines(buf));
        done := done + [line];
      }
      n := |p|;
    }

    method Flush()
      modifies this, out
      ensures buf == []
      ensures out.received == old(out.received) + Prefixed(prefix, Flushed(old(buf)))
      ensures out.shown == old(out.shown) + DisplayedAll(out.raw, Prefixed(prefix, Flushed(old(buf))))
    {
      EmitRest(out.raw, prefix, buf);
      if |buf| > 0 {
        var _ := out.Write(prefix + buf + [LF]);
        buf := [];
      }
    }
  }

  // ---------- Any interleaving of several writers on one terminal ----------

  /** The writers share one mutex, so each call is one step. */
  datatype Op = Write(w: nat, p: Bytes) | Flush(w: nat)

  datatype Chunk = Chunk(w: nat, line: Bytes)

  datatype State = State(bufs: nat -> Bytes, chunks: seq<Chunk>)

  function Tagged(w: nat, lines: seq<Bytes>): seq<Chunk> {
    seq(|lines|, k requires 0 <= k < |lines| => Chunk(w, lines[k]))
  }

  function WithBuf(bufs: nat -> Bytes, w: nat, buf: Bytes): nat -> Bytes {
    (v: nat) => if v == w then buf else bufs(v)
  }

  /** One call, in the terms of the contracts of PrefixWriter. */
  function Step(s: State, op: Op): State {
    match op
    case Write(w, p) =>
      State(WithBuf(s.bufs, w, Kept(s.bufs(w), p)), s.chunks + Tagged(w, Emitted(s.bufs(w), p)))
    case Flush(w) =>
      State(WithBuf(s.bufs, w, []), s.chunks + Tagged(w, Flushed(s.bufs(w))))
  }

  function Run(ops: seq<Op>): State {
    if ops == [] then State((w: nat) => [], []) else Step(Run(ops[..|ops| - 1]), ops[|ops| - 1])
  }

  /** Everything handed to one writer; a flush ends a pending line. */
  function Input(ops: seq<Op>, w: nat): Bytes {
    if ops == [] then []
    else
      var before, op := Input(ops[..|ops| - 1], w), ops[|ops| - 1];
      if op.w != w then before
      else if op.Write? then before + op.p
      else if Tail(before) == [] then before
      else before + [LF]
  }

  function LinesOf(chunks: seq<Chunk>, w: nat): seq<Bytes> {
    if chunks == [] then []
    else
      var rest, c := LinesOf(chunks[..|chunks| - 1], w), chunks[|chunks| - 1];
      if c.w == w then rest + [c.line] else rest
  }

  lemma {:induction false} LinesOfAppend(a: seq<Chunk>, b: seq<Chunk>, w: nat)
    ensures LinesOf(a + b, w) == LinesOf(a, w) + LinesOf(b, w)
  {
    if b == [] {
      assert a + b == a;
    } else {
      assert (a + b)[..|a + b| - 1] == a + b[..|b| - 1];
      LinesOfAppend(a, b[..|b| - 1], w);
    }
  }

  lemma {:induction false} LinesOfTagged(v: nat, lines: seq<Bytes>, w: nat)
    ensures LinesOf(Tagged(v, lines), w) == if v == w then lines else []
  {
    if lines != [] {
      LinesOfTagged(v, lines[..|lines| - 1], w);
      assert Tagged(v, lines)[..|lines| - 1] == Tagged(v, lines[..|lines| - 1]);
    }
  }

  lemma EndPendingLine(s: Bytes)
    requires Tail(s) != []
    ensures Lines(s + [LF]) == Lines(s) + [Tail(s) + [LF]] && Tail(s + [LF]) == []
  {
    LinesSplit(s, [LF]);
    var t := Tail(s) + [LF];
    assert t[..|t| - 1] == Tail(s);
    FirstIndexIs(t, LF, |t| - 1);
    assert t[..|t|] == t && t[|t|..] == [];
  }

  /** However the input is cut into Write calls and however the writers' calls interleave,
      each writer emits exactly the lines of its own input, once each and in order, and
      keeps the unfinished rest, which holds no newline. */
  lemma {:induction false} EachWriterEmitsItsLines(ops: seq<Op>, w: nat)
    ensures LinesOf(Run(ops).chunks, w) == Lines(Input(ops, w))
    ensures Run(ops).bufs(w) == Tail(Input(ops, w)) && LF !in Run(ops).bufs(w)
  {
    if ops != [] {
      var front, op := ops[..|ops| - 1], ops[|ops| - 1];
      EachWriterEmitsItsLines(front, w);
      var s, input := Run(front), Input(front, w);
      match op {
        case Write(v, p) =>
          LinesOfAppend(s.chunks, Tagged(v, Emitted(s.bufs(v), p)), w);
          LinesOfTagged(v, Emitted(s.bufs(v), p), w);
          LinesSplit(input, p);
        case Flush(v) =>
          LinesOfAppend(s.chunks, Tagged(v, Flushed(s.bufs(v))), w);
          LinesOfTagged(v, Flushed(s.bufs(v)), w);
          if v == w && s.bufs(v) != [] { EndPendingLine(input); }
      }
    }
  }

  /** After a final flush no byte is held back: the emitted lines are the whole input. */
  lemma FlushedOutputIsComplete(ops: seq<Op>, w: nat)
    requires ops != [] && ops[|ops| - 1] == Flush(w)
    ensures Flatten(LinesOf(Run(ops).chunks, w)) == Input(ops, w)
  {
    var front := ops[..|ops| - 1];
    EachWriterEmitsItsLines(ops, w);
    LinesLoseNothing(Input(ops, w));
    if Tail(Input(front, w)) != [] {
      EndPendingLine(Input(front, w));
    }
  }

  ghost predicate AllEndInNewline(ps: seq<Bytes>) {
    forall k | 0 <= k < |ps| :: ps[k] != [] && ps[k][|ps[k]| - 1] == LF
  }

  lemma {:induction false} DisplayIsWholeCrlf(ps: seq<Bytes>)
    requires AllEndInNewline(ps)
    ensures DisplayedAll(true, ps) == Crlf(Flatten(ps))
    ensures ps != [] ==> Flatten(ps) != [] && Flatten(ps)[|Flatten(ps)| - 1] == LF
  {
    if ps != [] {
      var front, p := ps[..|ps| - 1], ps[|ps| - 1];
      DisplayIsWholeCrlf(front);
      assert ps == front + [p];
      FlattenAppend(front, [p]);
      FlattenOne(p);
      CrlfAppendIff(Flatten(front), p);
    }
  }

  function Writes(chunks: seq<Chunk>, prefix: nat -> Bytes): seq<Bytes> {
    seq(|chunks|, k requires 0 <= k < |chunks| => prefix(chunks[k].w) + chunks[k].line)
  }

  lemma {:induction false} ChunksEndInNewline(ops: seq<Op>)
    ensures forall k | 0 <= k < |Run(ops).chunks| ::
              var l := Run(ops).chunks[k].line; l != [] && l[|l| - 1] == LF
  {
    if ops != [] {
      var front, op := ops[..|ops| - 1], ops[|ops| - 1];
      ChunksEndInNewline(front);
      if op.Write? {
        forall k | 0 <= k < |Lines(Run(front).bufs(op.w) + op.p)|
          ensures var l := Lines(Run(front).bufs(op.w) + op.p)[k]; l != [] && l[|l| - 1] == LF
        {
          LineShape(Run(front).bufs(op.w) + op.p, k);
        }
      }
    }
  }

  /** Without raw mode the terminal shows the writes as they are. */
  lemma {:induction false} PlainTerminalShowsWrites(ps: seq<Bytes>)
    ensures DisplayedAll(false, ps) == Flatten(ps)
  {
    if ps != [] {
      var front, p := ps[..|ps| - 1], ps[|ps| - 1];
      PlainTerminalShowsWrites(front);
      assert ps == front + [p];
      FlattenAppend(front, [p]);
      FlattenOne(p);
    }
  }

  /** Behind rawWriter, what reaches the terminal is the CRLF conversion of the whole
      output, although the conversion is applied one write at a time. */
  lemma RawTerminalShowsWholeCrlf(ops: seq<Op>, prefix: nat -> Bytes)
    ensures var ps := Writes(Run(ops).chunks, prefix); DisplayedAll(true, ps) == Crlf(Flatten(ps))
  {
    ChunksEndInNewline(ops);
    DisplayIsWholeCrlf(Writes(Run(ops).chunks, prefix));
  }
}
