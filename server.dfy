/** The client table of the chat server, updated in place: a fixed array of
    slots, each with its socket, its room and a fixed-size input buffer.
    Every method is proved against the value view of `Slots`. */
module Server {
  import opened Bytes
  import opened Grammar
  import opened Framing
  import opened Slots

  /** A buffer whose every byte is zero. */
  const Zeroed: seq<char> := seq(INBUF_SIZE, _ => '\0')

  /** One slot of the table. `inbuf[0..inbufLen)` holds the bytes received
      and not yet framed. */
  class Client {
    var socket: int
    var roomId: int
    const inbuf: array<char>
    var inbufLen: nat

    ghost predicate Valid()
      reads this
    {
      inbuf.Length == INBUF_SIZE && inbufLen <= INBUF_SIZE
    }

    /** The slot as a value. */
    ghost function View(): Slot
      requires Valid()
      reads this, inbuf
    {
      Slot(socket, roomId, inbuf[..inbufLen])
    }

    /** The state `client_init` leaves: free, in no room, and every byte of
      the buffer zeroed. */
    ghost predicate Cleared()
      requires Valid()
      reads this, inbuf
    {
      View() == Free && inbuf[..] == Zeroed
    }

    /** A fresh slot, as `client_init` leaves it. */
    constructor ()
      ensures Valid() && Cleared() && fresh(inbuf)
    {
      inbuf := new char[INBUF_SIZE](_ => '\0');
      socket, roomId, inbufLen := -1, -1, 0;
    }

    /** `client_init`: zero the whole slot, then mark it free and in no room. */
    method Init()
      requires Valid()
      modifies this, inbuf
      ensures Valid() && Cleared()
    {
      forall k | 0 <= k < inbuf.Length {
        inbuf[k] := '\0';
      }
      socket, roomId, inbufLen := -1, -1, 0;
    }

    /** `client_remove`: close the connection if the slot holds one, then
      reset the slot. `closed` is the descriptor handed to `close`. */
    method Remove() returns (closed: Option<int>)
      requires Valid()
      modifies this, inbuf
      ensures Valid() && Cleared()
      ensures closed == if old(socket) != -1 then Some(old(socket)) else None
    {
      closed := if socket != -1 then Some(socket) else None;
      Init();
    }

    /** `recv` into the free tail of the buffer and the length update. */
    method Append(bytes: string)
      requires Valid() && inbufLen + |bytes| <= INBUF_SIZE
      modifies this, inbuf
      ensures Valid() && socket == old(socket) && roomId == old(roomId)
      ensures inbuf[..inbufLen] == old(inbuf[..inbufLen]) + bytes
    {
      forall k | inbufLen <= k < inbufLen + |bytes| {
        inbuf[k] := bytes[k - inbufLen];
      }
      inbufLen := inbufLen + |bytes|;
    }

    /** Copy the bytes before the '\n' at `nl`, less one trailing '\r', into
      a NUL-terminated message of the buffer's size; the terminator always
      fits because the line is shorter than the buffer. */
    method ExtractLine(nl: nat) returns (line: string)
      requires Valid() && nl < inbufLen
      ensures line == StripCR(inbuf[..nl])
      ensures |line| < INBUF_SIZE && line <= inbuf[..inbufLen]
    {
      var msgLen := nl;
      if msgLen > 0 && inbuf[msgLen - 1] == '\r' {
        msgLen := msgLen - 1;
      }
      var msg := new char[INBUF_SIZE];
      forall k | 0 <= k < msgLen {
        msg[k] := inbuf[k];
      }
      msg[msgLen] := '\0';
      line := msg[..msgLen];
      assert inbuf[..nl][..msgLen] == line;
    }

    /** `memmove` of the bytes after the '\n' at `nl` to the front of the
      buffer: the consumed line and its terminator are gone and the rest
      keeps its order. */
    method DropLine(nl: nat)
      requires Valid() && nl < inbufLen
      modifies this, inbuf
      ensures Valid() && socket == old(socket) && roomId == old(roomId)
      ensures inbuf[..inbufLen] == old(inbuf[..inbufLen])[nl + 1..]
    {
      var remaining := inbufLen - (nl + 1);
      forall k | 0 <= k < remaining {
        inbuf[k] := inbuf[nl + 1 + k];
      }
      inbufLen := remaining;
    }

    /** One round of the framing loop, for the first '\n' of the buffer at
      `nl`: hand the line before it, less one trailing '\r', to the
      grammar; on a disconnect reset the slot, otherwise drop the line and
      its terminator from the front of the buffer. */
    method NextLine(nl: nat, ghost verdict: string -> bool) returns (line: string, stop: bool)
      requires Valid() && socket != -1 && nl < inbufLen && Agrees(verdict)
      modifies this, inbuf
      ensures Valid() && line == StripCR(old(inbuf[..nl]))
      ensures stop == verdict(old(inbuf[..nl]))
      ensures stop ==> Cleared()
      ensures !stop ==> socket == old(socket) && roomId == old(roomId)
      ensures !stop ==> inbuf[..inbufLen] == old(inbuf[..inbufLen])[nl + 1..]
    {
      line := ExtractLine(nl);
      stop := HandleCommand(line) == Disconnect;
      assert stop == EndsSession(old(inbuf[..nl]));
      if stop {
        var _ := Remove();
      } else {
        DropLine(nl);
      }
    }

    /** The framing loop: while the buffer holds a '\n', hand on the line
      before it and drop it with its terminator; a line that disconnects
      resets the slot, after which the empty buffer ends the loop. */
    method FrameLines(ghost verdict: string -> bool) returns (handled: seq<string>)
      requires Valid() && socket != -1 && Agrees(verdict)
      modifies this, inbuf
      ensures Valid()
      ensures var o := Feed(old(inbuf[..inbufLen]), verdict);
        StripsTo(o.dispatched, handled) &&
        if o.closed then Cleared() else View() == old(View()).(pending := o.left)
    {
      ghost var buf := inbuf[..inbufLen];
      handled := [];
      ghost var dispatched: seq<string> := [];
      ghost var closed := false;
      while true
        invariant Valid() && StripsTo(dispatched, handled)
        invariant closed ==> inbufLen == 0 && Cleared()
        invariant !closed ==> socket == old(socket) && roomId == old(roomId)
        invariant var o := Feed(inbuf[..inbufLen], verdict);
          Feed(buf, verdict) == Outcome(dispatched + o.dispatched, closed || o.closed, o.left)
        decreases inbufLen
      {
        ghost var pending := inbuf[..inbufLen];
        var nl := FindByte(inbuf[..inbufLen], '\n');
        if nl.None? {
          assert dispatched + [] == dispatched;
          break;
        }
        ghost var raw := pending[..nl.value];
        assert raw == inbuf[..nl.value];
        var line, stop := NextLine(nl.value, verdict);
        StripsToAppend(dispatched, handled, raw);
        if stop {
          ResumeAfterStop(buf, dispatched, pending, nl.value, verdict);
        } else {
          ResumeAfterLine(buf, dispatched, pending, nl.value, verdict);
        }
        handled := handled + [line];
        dispatched := dispatched + [raw];
        if stop {
          closed := true;
          assert inbuf[..inbufLen] == [];
          continue;
        }
      }
    }

    /** The body of the event loop for one readable active slot: store the
      bytes, reset on a full buffer without '\n', then frame and hand on
      lines. `handled` are the lines given to `handle_command`, in order. */
    method Receive(ev: RecvEvent) returns (handled: seq<string>)
      requires Valid() && socket != -1 && Fits(View(), ev)
      modifies this, inbuf
      ensures Valid() && Serviced(View(), handled) == Service(old(View()), ev)
      ensures Idle(View()) && (View() == Free ==> Cleared())
    {
      ServiceKeepsIdle(View(), ev);
      handled := [];
      if ev.Hangup? {
        var _ := Remove();
        return;
      }
      Append(ev.bytes);
      if inbufLen == INBUF_SIZE && FindByte(inbuf[..inbufLen], '\n').None? {
        var _ := Remove();
        return;
      }
      ghost var buf := inbuf[..inbufLen];
      handled := FrameLines(EndsSession);
      StripsToStripped(Feed(buf, EndsSession).dispatched, handled);
    }
  }

  /** Every slot is a valid, idle slot among `members`, with its buffer
    among `buffers`. */
  ghost predicate SlotsIdle(clients: array<Client>, members: set<Client>, buffers: set<array<char>>)
    requires clients.Length == MAX_CLIENTS
    reads clients, members, buffers
  {
    forall i :: 0 <= i < MAX_CLIENTS ==>
      clients[i] in members && clients[i].inbuf in buffers &&
      clients[i].Valid() && Idle(clients[i].View())
  }

  /** No two slots share an object or a buffer. */
  ghost predicate Separate(clients: array<Client>)
    requires clients.Length == MAX_CLIENTS
    reads clients
  {
    forall i, j :: 0 <= i < j < MAX_CLIENTS ==>
      clients[i] != clients[j] && clients[i].inbuf != clients[j].inbuf
  }

  /** No socket is held by two active slots. */
  ghost predicate SocketsDistinct(clients: array<Client>)
    requires clients.Length == MAX_CLIENTS
    reads clients, set i | 0 <= i < MAX_CLIENTS :: clients[i]
  {
    forall i, j :: 0 <= i < j < MAX_CLIENTS && clients[i].socket != -1 ==>
      clients[i].socket != clients[j].socket
  }

  /** The invariant of the table: `members` and `buffers` are its slots
    and their buffers. */
  ghost predicate TableOk(clients: array<Client>, members: set<Client>, buffers: set<array<char>>)
    reads clients, members, buffers
  {
    clients.Length == MAX_CLIENTS && SlotsIdle(clients, members, buffers) &&
    Separate(clients) && SocketsDistinct(clients)
  }

  /** `MAX_CLIENTS` separate cleared slots, each with its own buffer. */
  method NewSlots() returns (made: seq<Client>)
    ensures |made| == MAX_CLIENTS
    ensures forall k :: 0 <= k < MAX_CLIENTS ==> made[k].Valid() && made[k].Cleared()
    ensures forall k, l :: 0 <= k < l < MAX_CLIENTS ==> made[k] != made[l] && made[k].inbuf != made[l].inbuf
  {
    made := [];
    while |made| < MAX_CLIENTS
      invariant |made| <= MAX_CLIENTS
      invariant forall k :: 0 <= k < |made| ==> made[k].Valid() && made[k].Cleared()
      invariant forall k, l :: 0 <= k < l < |made| ==> made[k] != made[l] && made[k].inbuf != made[l].inbuf
    {
      var c := new Client();
      made := made + [c];
    }
  }

  method ToArray(made: seq<Client>) returns (a: array<Client>)
    ensures fresh(a) && a[..] == made
  {
    a := new Client[|made|](i requires 0 <= i < |made| => made[i]);
  }

  /** A fresh table of cleared slots. */
  method NewTable() returns (clients: array<Client>, ghost members: set<Client>, ghost buffers: set<array<char>>)
    ensures fresh(clients) && TableOk(clients, members, buffers)
    ensures forall i :: 0 <= i < MAX_CLIENTS ==> clients[i].Cleared()
  {
    var made := NewSlots();
    clients := ToArray(made);
    members := set k | 0 <= k < MAX_CLIENTS :: made[k];
    buffers := set k | 0 <= k < MAX_CLIENTS :: made[k].inbuf;
    assert forall i :: 0 <= i < MAX_CLIENTS ==> clients[i] == made[i];
    assert SlotsIdle(clients, members, buffers) by {
      forall i | 0 <= i < MAX_CLIENTS
        ensures clients[i] in members && clients[i].inbuf in buffers
        ensures clients[i].Valid() && Idle(clients[i].View())
      {
        assert made[i] in members && made[i].inbuf in buffers;
      }
    }
    assert SocketsDistinct(clients) by {
      assert forall i :: 0 <= i < MAX_CLIENTS ==> clients[i].socket == -1;
    }
  }

  /** The table `clients[MAX_CLIENTS]`. `Members` and `Buffers` are the
      slots and their buffers, which the methods may update. */
  class ClientTable {
    const clients: array<Client>
    ghost const Members: set<Client>
    ghost const Buffers: set<array<char>>

    ghost predicate Valid()
      reads clients, Members, Buffers
    {
      TableOk(clients, Members, Buffers)
    }

    /** `clients_init`: every slot as `client_init` leaves it. */
    constructor ()
      ensures Valid() && fresh(clients)
      ensures forall i :: 0 <= i < MAX_CLIENTS ==> clients[i].Cleared()
    {
      var arr, members, buffers := NewTable();
      clients, Members, Buffers := arr, members, buffers;
    }

    /** `find_free_client`: the lowest free slot, or -1 when all are taken. */
    method FindFreeClient() returns (idx: int)
      requires clients.Length == MAX_CLIENTS
      ensures -1 <= idx < MAX_CLIENTS
      ensures idx == -1 <==> forall i :: 0 <= i < MAX_CLIENTS ==> clients[i].socket != -1
      ensures idx != -1 ==> clients[idx].socket == -1 && forall j :: 0 <= j < idx ==> clients[j].socket != -1
    {
      for i := 0 to MAX_CLIENTS
        invariant forall j :: 0 <= j < i ==> clients[j].socket != -1
      {
        if clients[i].socket == -1 {
          return i;
        }
      }
      return -1;
    }

    /** `find_client_by_fd`: the lowest slot holding `fd`, or -1 when none
      does. For an active descriptor that slot is the only one. */
    method FindClientByFd(fd: int) returns (idx: int)
      requires Valid()
      ensures -1 <= idx < MAX_CLIENTS
      ensures idx == -1 <==> forall i :: 0 <= i < MAX_CLIENTS ==> clients[i].socket != fd
      ensures idx != -1 ==> clients[idx].socket == fd && forall j :: 0 <= j < idx ==> clients[j].socket != fd
      ensures idx != -1 && fd != -1 ==> forall j :: 0 <= j < MAX_CLIENTS && j != idx ==> clients[j].socket != fd
    {
      for i := 0 to MAX_CLIENTS
        invariant forall j :: 0 <= j < i ==> clients[j].socket != fd
      {
        if clients[i].socket == fd {
          return i;
        }
      }
      return -1;
    }

    /** The accept branch, given the descriptor `accept` returned: a full
      table closes it (result -1) and changes nothing; otherwise the lowest
      free slot takes it and no other slot changes. */
    method Accept(fd: int) returns (idx: int)
      requires Valid() && fd >= 0
      requires forall i :: 0 <= i < MAX_CLIENTS ==> clients[i].socket != fd
      modifies Members
      ensures Valid() && -1 <= idx < MAX_CLIENTS
      ensures idx == -1 <==> forall i :: 0 <= i < MAX_CLIENTS ==> old(clients[i].socket) != -1
      ensures idx != -1 ==> old(clients[idx].View()) == Free && forall j :: 0 <= j < idx ==> old(clients[j].socket) != -1
      ensures forall i :: 0 <= i < MAX_CLIENTS ==>
        clients[i].View() == if i == idx then Slot(fd, -1, []) else old(clients[i].View())
    {
      idx := FindFreeClient();
      if idx != -1 {
        clients[idx].socket := fd;
      }
    }

    /** Receiving on slot `i`: only that slot and its buffer change. */
    method ServiceSlot(i: nat, ev: RecvEvent) returns (lines: seq<string>)
      requires Valid() && i < MAX_CLIENTS && clients[i].socket != -1 && Fits(clients[i].View(), ev)
      modifies clients[i], clients[i].inbuf
      ensures Valid()
      ensures Serviced(clients[i].View(), lines) == Service(old(clients[i].View()), ev)
      ensures forall j :: 0 <= j < MAX_CLIENTS && j != i ==> clients[j].View() == old(clients[j].View())
    {
      var c := clients[i];
      lines := c.Receive(ev);
      assert forall j :: 0 <= j < MAX_CLIENTS && j != i ==>
        clients[j].socket == old(clients[j].socket) && clients[j].View() == old(clients[j].View());
    }

    /** The scan over the table after `select`: each active slot whose
      socket is in `ready` receives its event, the others stay as they are.
      `handled[i]` are the lines slot `i` handed to the grammar. */
    method ServiceReady(ready: map<int, RecvEvent>) returns (handled: seq<seq<string>>)
      requires Valid()
      requires forall i :: 0 <= i < MAX_CLIENTS ==> Admissible(clients[i].View(), ready)
      modifies Members, Buffers
      ensures Valid() && |handled| == MAX_CLIENTS
      ensures forall i :: 0 <= i < MAX_CLIENTS ==>
        Serviced(clients[i].View(), handled[i]) == Poll(old(clients[i].View()), ready)
    {
      handled := [];
      for i := 0 to MAX_CLIENTS
        invariant Valid() && |handled| == i
        invariant forall j :: 0 <= j < i ==>
          Serviced(clients[j].View(), handled[j]) == Poll(old(clients[j].View()), ready)
        invariant forall j :: i <= j < MAX_CLIENTS ==> clients[j].View() == old(clients[j].View())
      {
        var fd := clients[i].socket;
        if fd != -1 && fd in ready {
          var lines := ServiceSlot(i, ready[fd]);
          handled := handled + [lines];
        } else {
          handled := handled + [[]];
        }
      }
    }
  }
}
