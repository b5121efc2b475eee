/** The line framer: complete lines are the bytes before each '\n'; a line
    handed on loses one trailing '\r'; what follows the last '\n' stays
    buffered. `Split` is the reference decomposition of a buffer, `Feed` is
    what the per-connection framing loop does with it, dispatching each line
    and stopping at the first one that disconnects. The framer does not
    interpret lines: `disconnects` tells it which line ends the connection
    (the event loop passes the command grammar's verdict). */
module Framing {
  import opened Bytes

  /** Terminated lines and the unterminated tail. */
  datatype Frames = Frames(lines: seq<string>, rest: string)

  predicate NoNewline(lines: seq<string>) {
    forall i :: 0 <= i < |lines| ==> '\n' !in lines[i]
  }

  /** Writes each line followed by its '\n'. */
  function Join(lines: seq<string>): string {
    if lines == [] then [] else lines[0] + "\n" + Join(lines[1..])
  }

  /** Cuts a buffer at every '\n': no part holds a '\n', and every line
      is shorter than the buffer it came from. */
  function Split(buf: string): (f: Frames)
    ensures '\n' !in f.rest && NoNewline(f.lines)
    ensures forall i :: 0 <= i < |f.lines| ==> |f.lines[i]| < |buf|
    decreases |buf|
  {
    match FindByte(buf, '\n')
    case None => Frames([], buf)
    case Some(nl) =>
      var f := Split(buf[nl + 1..]);
      Frames([buf[..nl]] + f.lines, f.rest)
  }

  /** Joining the lines of a buffer back, each with its '\n', and appending
      the tail gives the buffer again: framing loses no byte. */
  lemma {:induction false} SplitRebuilds(buf: string)
    ensures Join(Split(buf).lines) + Split(buf).rest == buf
    decreases |buf|
  {
    match FindByte(buf, '\n')
    case None =>
    case Some(nl) =>
      var f := Split(buf[nl + 1..]);
      assert Split(buf) == Frames([buf[..nl]] + f.lines, f.rest);
      SplitRebuilds(buf[nl + 1..]);
      JoinCons(buf, nl, f.lines, f.rest);
  }

  /** Putting back one line and its '\n' in front of a rebuilt remainder. */
  lemma JoinCons(buf: string, nl: nat, lines: seq<string>, rest: string)
    requires nl < |buf| && buf[nl] == '\n' && Join(lines) + rest == buf[nl + 1..]
    ensures Join([buf[..nl]] + lines) + rest == buf
  {
    assert ([buf[..nl]] + lines)[1..] == lines;
    CutAt(buf, nl);
  }

  /** Drops one trailing carriage return, so that CRLF and LF both end a line. */
  function StripCR(s: string): string {
    if |s| > 0 && s[|s| - 1] == '\r' then s[..|s| - 1] else s
  }

  /** The stripped line is the line less a final '\r', or the whole line
      when it does not end in one. */
  lemma StripCRSpec(s: string)
    ensures s == StripCR(s) + "\r" || (StripCR(s) == s && (s == [] || s[|s| - 1] != '\r'))
  {
  }

  /** Each framed line with one trailing '\r' dropped. */
  function Stripped(lines: seq<string>): (r: seq<string>)
    ensures |r| == |lines| && forall i :: 0 <= i < |lines| ==> r[i] == StripCR(lines[i])
  {
    seq(|lines|, i requires 0 <= i < |lines| => StripCR(lines[i]))
  }

  /** `handled` are the `lines`, one by one, with their '\r' dropped: the
      same relation as `handled == Stripped(lines)` (`StripsToStripped`),
      built up one line at a time as the framing loop appends them, so that
      keeping it across a round needs one unfolding rather than reasoning
      about a whole comprehension. */
  predicate StripsTo(lines: seq<string>, handled: seq<string>)
    decreases |lines|
  {
    |handled| == |lines| &&
    (lines != [] ==>
      StripsTo(lines[..|lines| - 1], handled[..|handled| - 1]) &&
      handled[|handled| - 1] == StripCR(lines[|lines| - 1]))
  }

  lemma StripsToAppend(lines: seq<string>, handled: seq<string>, raw: string)
    requires StripsTo(lines, handled)
    ensures StripsTo(lines + [raw], handled + [StripCR(raw)])
  {
    assert (lines + [raw])[..|lines|] == lines;
    assert (handled + [StripCR(raw)])[..|handled|] == handled;
  }

  lemma {:induction false} StripsToStripped(lines: seq<string>, handled: seq<string>)
    requires StripsTo(lines, handled)
    ensures handled == Stripped(lines)
    decreases |lines|
  {
    if lines != [] {
      var n := |lines| - 1;
      StripsToStripped(lines[..n], handled[..n]);
      assert handled == handled[..n] + [handled[n]];
    }
  }

  /** What the framing loop did with one buffer: the framed lines it
      dispatched, in order, whether one of them ended the connection (the
      slot is then reset), and the bytes left buffered otherwise. */
  datatype Outcome = Outcome(dispatched: seq<string>, closed: bool, left: string)

  /** The framing loop over a buffer: while a '\n' is present, dispatch the
      bytes before it; a line that ends the connection empties the buffer
      and ends the loop, otherwise the line and its '\n' are removed from
      the front and the rest moves up. */
  function Feed(buf: string, disconnects: string -> bool): Outcome
    decreases |buf|
  {
    match FindByte(buf, '\n')
    case None => Outcome([], false, buf)
    case Some(nl) =>
      if disconnects(buf[..nl]) then Outcome([buf[..nl]], true, [])
      else
        var o := Feed(buf[nl + 1..], disconnects);
        Outcome([buf[..nl]] + o.dispatched, o.closed, o.left)
  }

  /** One round of the framing loop on a buffer whose first '\n' is at `nl`. */
  lemma FeedStep(buf: string, nl: nat, disconnects: string -> bool)
    requires nl < |buf| && buf[nl] == '\n' && '\n' !in buf[..nl]
    ensures Feed(buf, disconnects) ==
      if disconnects(buf[..nl]) then Outcome([buf[..nl]], true, [])
      else var o := Feed(buf[nl + 1..], disconnects); Outcome([buf[..nl]] + o.dispatched, o.closed, o.left)
  {
    CutAt(buf, nl);
    FindByteAfter(buf[..nl], '\n', buf[nl + 1..]);
  }

  /** The framing loop's bookkeeping after a line that does not end the
      connection: the line joins those already dispatched and framing goes
      on from the bytes after its '\n'. */
  lemma ResumeAfterLine(buf: string, done: seq<string>, pending: string, nl: nat, disconnects: string -> bool)
    requires nl < |pending| && pending[nl] == '\n' && '\n' !in pending[..nl]
    requires !disconnects(pending[..nl])
    requires var o := Feed(pending, disconnects);
      Feed(buf, disconnects) == Outcome(done + o.dispatched, false || o.closed, o.left)
    ensures var o := Feed(pending[nl + 1..], disconnects);
      Feed(buf, disconnects) == Outcome((done + [pending[..nl]]) + o.dispatched, false || o.closed, o.left)
  {
    FeedStep(pending, nl, disconnects);
    var o := Feed(pending[nl + 1..], disconnects);
    assert done + ([pending[..nl]] + o.dispatched) == (done + [pending[..nl]]) + o.dispatched;
  }

  /** The framing loop's bookkeeping after a line that ends the connection:
      it is the last line dispatched and nothing is left. */
  lemma ResumeAfterStop(buf: string, done: seq<string>, pending: string, nl: nat, disconnects: string -> bool)
    requires nl < |pending| && pending[nl] == '\n' && '\n' !in pending[..nl]
    requires disconnects(pending[..nl])
    requires var o := Feed(pending, disconnects);
      Feed(buf, disconnects) == Outcome(done + o.dispatched, false || o.closed, o.left)
    ensures var o := Feed([], disconnects);
      Feed(buf, disconnects) == Outcome((done + [pending[..nl]]) + o.dispatched, true || o.closed, o.left)
  {
    FeedStep(pending, nl, disconnects);
    assert (done + [pending[..nl]]) + [] == done + [pending[..nl]];
  }

  /** The position of the first line that ends the connection, or the
      number of lines when none does. */
  function FirstDisconnect(lines: seq<string>, disconnects: string -> bool): (k: nat)
    ensures k <= |lines|
    ensures forall i :: 0 <= i < k ==> !disconnects(lines[i])
    ensures k < |lines| ==> disconnects(lines[k])
    decreases |lines|
  {
    if lines == [] then 0
    else if disconnects(lines[0]) then 0
    else
      var k := FirstDisconnect(lines[1..], disconnects);
      assert forall i :: 1 <= i < |lines| ==> lines[i] == lines[1..][i - 1];
      k + 1
  }

  /** Reference dispatch of already framed lines: the lines up to and
      including the first that ends the connection, which empties the
      buffer; without such a line, all of them, and `rest` stays. */
  function Deliver(lines: seq<string>, rest: string, disconnects: string -> bool): Outcome {
    var k := FirstDisconnect(lines, disconnects);
    if k < |lines| then Outcome(lines[..k + 1], true, [])
    else Outcome(lines, false, rest)
  }

  /** Dispatching a first line, then the others. */
  lemma DeliverCons(head: string, lines: seq<string>, rest: string, disconnects: string -> bool)
    ensures var o := Deliver(lines, rest, disconnects);
      Deliver([head] + lines, rest, disconnects) ==
        if disconnects(head) then Outcome([head], true, [])
        else Outcome([head] + o.dispatched, o.closed, o.left)
  {
    var all := [head] + lines;
    assert all[1..] == lines;
    if !disconnects(head) {
      var k := FirstDisconnect(lines, disconnects);
      assert FirstDisconnect(all, disconnects) == k + 1;
      if k < |lines| {
        assert all[..k + 2] == [head] + lines[..k + 1];
      }
    } else {
      assert all[..1] == [head];
    }
  }

  /** The framing loop, which searches the buffer for '\n' afresh on every
      round, dispatches exactly the lines `Split` finds, stops where
      `Deliver` stops and keeps the tail `Split` leaves. */
  lemma {:induction false} FeedFollowsSplit(buf: string, disconnects: string -> bool)
    ensures Feed(buf, disconnects) == Deliver(Split(buf).lines, Split(buf).rest, disconnects)
    decreases |buf|
  {
    match FindByte(buf, '\n')
    case None =>
    case Some(nl) =>
      var g := Split(buf[nl + 1..]);
      assert Split(buf) == Frames([buf[..nl]] + g.lines, g.rest);
      DeliverCons(buf[..nl], g.lines, g.rest, disconnects);
      FeedFollowsSplit(buf[nl + 1..], disconnects);
  }

  lemma {:induction false} JoinAppend(a: seq<string>, b: seq<string>)
    ensures Join(a + b) == Join(a) + Join(b)
    decreases |a|
  {
    if a == [] {
      assert a + b == b;
    } else {
      assert (a + b)[1..] == a[1..] + b;
      JoinAppend(a[1..], b);
    }
  }

  /** The first line of a join, then the rest. */
  lemma JoinFirst(lines: seq<string>, rest: string)
    requires lines != []
    ensures Join(lines) + rest == lines[0] + "\n" + (Join(lines[1..]) + rest)
  {
  }

  /** Newline-free lines stay so without their first. */
  lemma NoNewlineTail(lines: seq<string>)
    requires lines != [] && NoNewline(lines)
    ensures NoNewline(lines[1..])
  {
    forall i | 0 <= i < |lines| - 1 ensures '\n' !in lines[1..][i] {
      assert lines[1..][i] == lines[i + 1];
    }
  }

  /** `Split` inverts `Join`: newline-free lines and tail are recovered
      exactly, so the decomposition of a buffer is unique. */
  lemma {:induction false} SplitJoin(lines: seq<string>, rest: string)
    requires NoNewline(lines) && '\n' !in rest
    ensures Split(Join(lines) + rest) == Frames(lines, rest)
    decreases |lines|
  {
    if lines == [] {
      assert Join(lines) + rest == rest;
    } else {
      var tail := Join(lines[1..]) + rest;
      JoinFirst(lines, rest);
      SplitFirstLine(lines[0], tail);
      NoNewlineTail(lines);
      SplitJoin(lines[1..], rest);
      assert [lines[0]] + lines[1..] == lines;
    }
  }

  lemma NoNewlineAppend(a: seq<string>, b: seq<string>)
    requires NoNewline(a) && NoNewline(b)
    ensures NoNewline(a + b)
  {
    forall i | |a| <= i < |a| + |b| ensures '\n' !in (a + b)[i] {
      assert (a + b)[i] == b[i - |a|];
    }
  }

  lemma AppendRebuilds(a: string, b: string, la: seq<string>, ra: string, lb: seq<string>, rb: string)
    requires a == Join(la) + ra && ra + b == Join(lb) + rb
    ensures a + b == Join(la + lb) + rb
  {
    JoinAppend(la, lb);
    calc {
      a + b;
      (Join(la) + ra) + b;
      Join(la) + (ra + b);
      Join(la) + (Join(lb) + rb);
      Join(la + lb) + rb;
    }
  }

  /** Framing `a + b` at once equals framing `a`, then framing the tail
      `a` left behind followed by `b`. */
  lemma SplitAppend(a: string, b: string)
    ensures var fa := Split(a); var fb := Split(fa.rest + b);
      Split(a + b) == Frames(fa.lines + fb.lines, fb.rest)
  {
    var fa := Split(a);
    var fb := Split(fa.rest + b);
    SplitRebuilds(a);
    SplitRebuilds(fa.rest + b);
    AppendRebuilds(a, b, fa.lines, fa.rest, fb.lines, fb.rest);
    NoNewlineAppend(fa.lines, fb.lines);
    SplitJoin(fa.lines + fb.lines, fb.rest);
  }

  function Concat(chunks: seq<string>): string {
    if chunks == [] then [] else chunks[0] + Concat(chunks[1..])
  }

  /** Framing a stream that arrives in chunks: each chunk is appended to
      the tail the earlier chunks left unterminated. */
  function SplitChunks(carry: string, chunks: seq<string>): Frames
    decreases |chunks|
  {
    if chunks == [] then Frames([], carry)
    else
      var f := Split(carry + chunks[0]);
      var g := SplitChunks(f.rest, chunks[1..]);
      Frames(f.lines + g.lines, g.rest)
  }

  lemma ConcatFirst(carry: string, chunks: seq<string>)
    requires chunks != []
    ensures carry + Concat(chunks) == (carry + chunks[0]) + Concat(chunks[1..])
  {
    assert Concat(chunks) == chunks[0] + Concat(chunks[1..]);
  }

  /** How the bytes are cut into reads does not change the lines framed
      nor the tail left over. */
  lemma {:induction false} ChunkingIrrelevant(carry: string, chunks: seq<string>)
    requires '\n' !in carry
    ensures SplitChunks(carry, chunks) == Split(carry + Concat(chunks))
    decreases |chunks|
  {
    if chunks == [] {
      SplitJoin([], carry);
      assert carry + Concat(chunks) == Join([]) + carry;
    } else {
      var f := Split(carry + chunks[0]);
      ChunkingIrrelevant(f.rest, chunks[1..]);
      SplitAppend(carry + chunks[0], Concat(chunks[1..]));
      ConcatFirst(carry, chunks);
    }
  }

  /** The reads of a stream delivered one byte at a time. */
  function Bytewise(s: string): (chunks: seq<string>)
    ensures |chunks| == |s| && forall i :: 0 <= i < |s| ==> chunks[i] == [s[i]]
  {
    seq(|s|, i requires 0 <= i < |s| => [s[i]])
  }

  lemma {:induction false} ConcatBytewise(s: string)
    ensures Concat(Bytewise(s)) == s
    decreases |s|
  {
    if s != [] {
      assert Bytewise(s)[1..] == Bytewise(s[1..]);
      ConcatBytewise(s[1..]);
      assert s == [s[0]] + s[1..];
    }
  }

  /** Feeding a stream byte by byte frames the same lines, in the same
      order, as feeding it all at once. */
  lemma ByteByByteSameLines(s: string)
    ensures SplitChunks([], Bytewise(s)) == Split(s)
  {
    ChunkingIrrelevant([], Bytewise(s));
    ConcatBytewise(s);
    assert [] + s == s;
  }

  lemma StrippedCons(head: string, lines: seq<string>)
    ensures Stripped([head] + lines) == [StripCR(head)] + Stripped(lines)
  {
    var a, b := Stripped([head] + lines), [StripCR(head)] + Stripped(lines);
    forall i | 1 <= i < |a| ensures a[i] == b[i] {
      assert ([head] + lines)[i] == lines[i - 1];
    }
  }

  lemma StripCRCarriageReturn(line: string)
    requires line == [] || line[|line| - 1] != '\r'
    ensures StripCR(line + "\r") == line && StripCR(line) == line
  {
    assert (line + "\r")[..|line|] == line;
  }

  /** A newline-free line followed by '\n' is framed first, ahead of
      whatever the bytes after it frame to. */
  lemma SplitFirstLine(line: string, tail: string)
    requires '\n' !in line
    ensures Split(line + "\n" + tail) == Frames([line] + Split(tail).lines, Split(tail).rest)
  {
    var buf := line + "\n" + tail;
    assert buf == line + ['\n'] + tail;
    FindByteAfter(line, '\n', tail);
    assert buf[..|line|] == line;
    assert buf[|line| + 1..] == tail;
  }

  /** A line ended by CRLF and the same line ended by LF are framed
      alike once the '\r' is dropped, and the bytes after them are the same. */
  lemma CrLfSameAsLf(line: string, tail: string)
    requires '\n' !in line && (line == [] || line[|line| - 1] != '\r')
    ensures var crlf, lf := Split(line + "\r\n" + tail), Split(line + "\n" + tail);
      Stripped(crlf.lines) == Stripped(lf.lines) && crlf.rest == lf.rest
  {
    var g := Split(tail);
    assert line + "\r\n" + tail == (line + "\r") + "\n" + tail;
    SplitFirstLine(line + "\r", tail);
    SplitFirstLine(line, tail);
    StripCRCarriageReturn(line);
    StrippedCons(line + "\r", g.lines);
    StrippedCons(line, g.lines);
  }
}
