/** The value view of one slot of the client table, and what the event loop
    does to a slot when its socket is readable: append the received bytes,
    close on a full buffer without a line terminator, then frame and
    dispatch complete lines until one of them disconnects. */
module Slots {
  import opened Grammar
  import opened Framing

  /** Number of slots in the client table. */
  const MAX_CLIENTS: nat := 10

  /** Capacity of each slot's input buffer. */
  const INBUF_SIZE: nat := 1024

  /** One slot: `socket == -1` marks it free, `roomId == -1` means in no
      room, `pending` is the valid part `inbuf[0..inbuf_len)` of its buffer. */
  datatype Slot = Slot(socket: int, roomId: int, pending: string)

  /** A slot as initialisation and removal leave it. */
  const Free := Slot(-1, -1, [])

  /** A slot between two events: a free slot is fully reset, and a buffer
      holds no complete line and has room for at least one more byte. */
  predicate Idle(s: Slot) {
    (s.socket == -1 ==> s == Free) && |s.pending| < INBUF_SIZE && '\n' !in s.pending
  }

  /** What one receive on a readable socket reported: some bytes, or a
      result `n <= 0` (orderly close by the peer, or an error). */
  datatype RecvEvent = Received(bytes: string) | Hangup

  /** A receive is asked for at most the free space of the buffer, and a
      positive count is a non-empty read. */
  predicate Fits(s: Slot, ev: RecvEvent) {
    ev.Received? ==> 0 < |ev.bytes| && |s.pending| + |ev.bytes| <= INBUF_SIZE
  }

  /** The grammar's verdict on a framed line once its '\r' is dropped. */
  predicate EndsSession(raw: string) {
    HandleCommand(StripCR(raw)) == Disconnect
  }

  /** `verdict` gives the grammar's verdict on every framed line. */
  ghost predicate Agrees(verdict: string -> bool) {
    forall raw {:trigger EndsSession(raw)} :: verdict(raw) == EndsSession(raw)
  }

  /** The buffer is exactly full and holds no line terminator. */
  predicate Overflows(buf: string) {
    |buf| == INBUF_SIZE && '\n' !in buf
  }

  /** The slot after an event and the lines handed to the grammar, in order. */
  datatype Serviced = Serviced(slot: Slot, handled: seq<string>)

  /** One readable event on an active slot. */
  function Service(s: Slot, ev: RecvEvent): Serviced
    requires Fits(s, ev)
  {
    match ev
    case Hangup => Serviced(Free, [])
    case Received(bytes) =>
      var buf := s.pending + bytes;
      if Overflows(buf) then Serviced(Free, [])
      else
        var o := Feed(buf, EndsSession);
        Serviced(if o.closed then Free else s.(pending := o.left), Stripped(o.dispatched))
  }

  lemma JoinNonEmpty(lines: seq<string>)
    requires lines != []
    ensures |Framing.Join(lines)| > 0
  {
  }

  /** Servicing an active slot leaves it idle: either it is reset, or
      it keeps its socket and room and its buffer holds the unterminated
      tail, strictly shorter than the capacity. */
  lemma ServiceKeepsIdle(s: Slot, ev: RecvEvent)
    requires s.socket != -1 && Fits(s, ev)
    ensures var r := Service(s, ev).slot;
      Idle(r) && (r == Free || (r.socket == s.socket && r.roomId == s.roomId))
  {
    if ev.Received? && !Overflows(s.pending + ev.bytes) {
      var buf := s.pending + ev.bytes;
      var f := Split(buf);
      FeedFollowsSplit(buf, EndsSession);
      SplitRebuilds(buf);
      if f.lines != [] {
        JoinNonEmpty(f.lines);
      } else {
        assert f.rest == buf;
      }
    }
  }

  /** A readable event resets the slot without handing on any line exactly
      when it is a close or error, or when it fills the buffer to capacity
      with no '\n' in it. */
  lemma ResetWithoutLinesExactly(s: Slot, ev: RecvEvent)
    requires s.socket != -1 && Fits(s, ev)
    ensures var r := Service(s, ev);
      (r.slot == Free && r.handled == []) <==> (ev.Hangup? || Overflows(s.pending + ev.bytes))
  {
    if ev.Received? && !Overflows(s.pending + ev.bytes) {
      var buf := s.pending + ev.bytes;
      FeedFollowsSplit(buf, EndsSession);
    }
  }

  /** The overflow check fires only at exactly full: a buffer one byte
      short of capacity without '\n' is kept whole and nothing is handed on. */
  lemma AlmostFullIsKept(s: Slot, bytes: string)
    requires Fits(s, Received(bytes)) && |s.pending| + |bytes| == INBUF_SIZE - 1
    requires '\n' !in s.pending + bytes
    ensures Service(s, Received(bytes)) == Serviced(s.(pending := s.pending + bytes), [])
  {
    assert Stripped([]) == [];
  }

  /** Without overflow, the lines handed on are the framed lines of the
      buffer in order, each without its '\n' and one trailing '\r', up to and
      including the first that disconnects; each is shorter than the
      buffer's capacity. The slot is reset exactly when such a line exists,
      and otherwise keeps the unterminated tail. */
  lemma ServiceHandsOnLines(s: Slot, bytes: string)
    requires Fits(s, Received(bytes)) && !Overflows(s.pending + bytes)
    ensures var buf, r := s.pending + bytes, Service(s, Received(bytes));
      var f := Split(buf);
      var k := FirstDisconnect(f.lines, EndsSession);
      (k < |f.lines| ==> r == Serviced(Free, Stripped(f.lines[..k + 1]))) &&
      (k == |f.lines| ==> r == Serviced(s.(pending := f.rest), Stripped(f.lines))) &&
      forall i :: 0 <= i < |r.handled| ==> |r.handled[i]| < INBUF_SIZE && '\n' !in r.handled[i]
  {
    var buf := s.pending + bytes;
    var f := Split(buf);
    FeedFollowsSplit(buf, EndsSession);
    var r := Service(s, Received(bytes));
    forall i | 0 <= i < |r.handled|
      ensures |r.handled[i]| < INBUF_SIZE && '\n' !in r.handled[i]
    {
      assert r.handled[i] == StripCR(f.lines[i]);
      assert '\n' !in f.lines[i];
    }
  }

  lemma StrippedAppend(a: seq<string>, b: seq<string>)
    ensures Stripped(a + b) == Stripped(a) + Stripped(b)
  {
    var l, r := Stripped(a + b), Stripped(a) + Stripped(b);
    forall i | 0 <= i < |l| ensures l[i] == r[i] {
      if i < |a| { assert (a + b)[i] == a[i]; } else { assert (a + b)[i] == b[i - |a|]; }
    }
  }

  /** Two reads on a slot that neither overflow nor disconnect hand on the
      same lines, in the same order, and leave the same tail as one read of
      all their bytes would: how the stream is cut into reads does not
      matter. */
  lemma TwoReadsAsOne(s: Slot, b1: string, b2: string)
    requires Idle(s) && s.socket != -1 && Fits(s, Received(b1))
    requires var r1 := Service(s, Received(b1));
      r1.slot != Free && Fits(r1.slot, Received(b2)) && Service(r1.slot, Received(b2)).slot != Free
    ensures var r1 := Service(s, Received(b1)); var r2 := Service(r1.slot, Received(b2));
      var f := Split(s.pending + b1 + b2);
      r1.handled + r2.handled == Stripped(f.lines) && r2.slot.pending == f.rest
  {
    var r1 := Service(s, Received(b1));
    var buf1 := s.pending + b1;
    var f1 := Split(buf1);
    FeedFollowsSplit(buf1, EndsSession);
    assert FirstDisconnect(f1.lines, EndsSession) == |f1.lines|;
    var buf2 := r1.slot.pending + b2;
    assert buf2 == f1.rest + b2;
    var f2 := Split(buf2);
    FeedFollowsSplit(buf2, EndsSession);
    assert FirstDisconnect(f2.lines, EndsSession) == |f2.lines|;
    SplitAppend(buf1, b2);
    StrippedAppend(f1.lines, f2.lines);
  }

  /** The slot was reported readable. */
  predicate IsReady(s: Slot, ready: map<int, RecvEvent>) {
    s.socket != -1 && s.socket in ready
  }

  /** Each readable slot's event fits its buffer. */
  predicate Admissible(s: Slot, ready: map<int, RecvEvent>) {
    IsReady(s, ready) ==> Fits(s, ready[s.socket])
  }

  /** One slot during the scan of the table: a readable active slot is
      serviced, every other slot is left alone. */
  function Poll(s: Slot, ready: map<int, RecvEvent>): (r: Serviced)
    requires Admissible(s, ready)
    ensures !IsReady(s, ready) ==> r == Serviced(s, [])
  {
    if IsReady(s, ready) then Service(s, ready[s.socket]) else Serviced(s, [])
  }
}
