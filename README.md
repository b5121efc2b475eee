# Chat server core in Dafny

This project models the core of a small chat server that listens on a Unix
domain socket. It is written in C. The model covers:

- the client table: `MAX_CLIENTS` (10) slots, each with a socket (`-1` means
  free), a room (`-1` means none) and an input buffer of `INBUF_SIZE` (1024)
  bytes with its fill level;
- accepting a connection into the lowest free slot;
- the receive path for one readable slot: `recv` into the free tail of the
  buffer, reset on a close or error, reset when the buffer fills without a
  `'\n'`, and the framing loop. That loop finds the first `'\n'`, drops one
  trailing `'\r'`, copies the line out, hands it to the grammar, and either
  resets the slot on a disconnect or moves the remaining bytes to the front;
- the command grammar: the name is the bytes before the first space, it is
  looked up exactly and case-sensitively in a fixed ordered table, and the
  result is mapped to `Ok` or `Disconnect`.

Modules follow the program's structure:

- `Bytes`: `Option` and the `memchr` search.
- `Grammar`: `src/grammar.c`, as pure functions.
- `Framing`: what the framing loop computes on a byte string. `Split` is the
  reference decomposition of a buffer into terminated lines and an
  unterminated tail. `Feed` is the loop, which stops at the first line that
  disconnects.
- `Slots`: one slot as a value. `Service` says what one readable event does
  to it.
- `Server`: `src/server.c`, as the classes `Client` (one slot, updated in
  place over an `array<char>` buffer) and `ClientTable` (the array of slots).
  Each method is proved against the functions of `Framing` and `Slots`, and
  the properties of those functions are proved as lemmas.

Points where the C sources leave something open or disagree with each other:

- An unrecognised command name disconnects the client: the `default` label
  shares the `QUIT` branch (src/grammar.c:54-56).
- `src/grammar.h` declares `handle_command` as returning `void`. The
  definition in `src/grammar.c` returns a `command_result` (`CMD_OK` or
  `CMD_DISCONNECT`), and `src/server.c` uses that result. The model follows
  the definition.
- `src/server.h:9-14` declares neither `inbuf`, `inbuf_len` nor
  `INBUF_SIZE`, which `src/server.c` uses. The model gives each slot those
  two fields and takes 1024 as `INBUF_SIZE`.

## Model

| member | source | states |
|---|---|---|
| Bytes.FindByte | src/server.c:145 | `memchr`: `None` exactly when the byte is absent; otherwise the index of its first occurrence |
| Grammar.CommandName | src/grammar.c:67-69 | the command token has no space and is a prefix of the line; it is the whole line exactly when the line has no space, and otherwise is followed by a space |
| Grammar.Lookup | src/grammar.c:71-88 | the table search gives `Invalid` exactly when no entry from `from` on has the name; otherwise it gives the type of the first entry whose name is equal in length and bytes |
| Grammar.ParseCommand | src/grammar.c:62-89 | the type is recognised exactly when the token is a table name, and is that entry's type; there are arguments exactly when the name is recognised and the line has a space; the line is then the name, a space and the arguments |
| Grammar.HandleCommand | src/grammar.c:34-60 | the result is `Disconnect` exactly when the token is `QUIT` or not a table name; `NICK`, `JOIN`, `LEAVE` and `MSG` give `Ok` |
| Grammar.QuitEntry | src/grammar.c:14-19 | the only entry of type `Quit` is the one named `QUIT` |
| Grammar.TableWellFormed | src/grammar.c:14-19 | table names are pairwise distinct and contain no space; types are distinct and none is `Invalid` |
| Grammar.ParseRoundTrip | src/grammar.c:62-89 | a table name, a space and any payload parse to that entry's type and exactly that payload; the bare name parses with no arguments |
| Grammar.CaseSensitive | src/grammar.c:76-77 | `nick` and `NICKX` are not recognised: matching is exact and case-sensitive |
| Grammar.EmptyLineDisconnects | src/grammar.c:54-56 | the empty line disconnects |
| Framing.Split | src/server.c:143-171 | no framed line and not the tail holds a `'\n'`; every line is shorter than its buffer |
| Framing.SplitRebuilds | src/server.c:143-171 | the lines, each followed by `'\n'`, and then the tail give back the buffer: framing loses no byte |
| Framing.SplitJoin | src/server.c:143-171 | `Split` inverts `Join` on newline-free lines and tail, so the decomposition is unique |
| Framing.SplitFirstLine | src/server.c:145-149 | a line is framed as the bytes before the first `'\n'`, ahead of what the bytes after it frame to |
| Framing.StripCRSpec | src/server.c:151-153 | exactly one trailing `'\r'` is dropped, and only when present |
| Framing.StripCRCarriageReturn | src/server.c:151-153 | a line without a final `'\r'` is kept as is, and one `'\r'` appended to it is removed |
| Framing.CrLfSameAsLf | src/server.c:145-153 | a line ended by CRLF and the same line ended by LF hand on the same stripped lines and leave the same tail |
| Framing.StripCR | src/server.c:151-153 | drops one trailing `'\r'`; its meaning is stated by `StripCRSpec`: the line less a final `'\r'`, or the whole line when it does not end in one |
| Framing.Feed | src/server.c:143-171 | the framing loop on a buffer; `FeedFollowsSplit` proves it dispatches `Split`'s lines up to and including the first that disconnects, then empties the buffer, and otherwise keeps `Split`'s tail |
| Framing.FirstDisconnect | src/server.c:162-165 | the index of the first line that disconnects, or the number of lines when none does |
| Framing.FeedFollowsSplit | src/server.c:143-171 | the loop, which searches for `'\n'` afresh each round, dispatches `Split`'s lines in order up to and including the first that disconnects; it then empties the buffer, and otherwise keeps `Split`'s tail |
| Framing.SplitAppend | src/server.c:129-171 | framing `a + b` equals framing `a`, then framing `a`'s tail followed by `b` |
| Framing.ChunkingIrrelevant | src/server.c:115-171 | framing a stream in any cut into reads gives the same lines and tail as framing it whole |
| Framing.ByteByByteSameLines | src/server.c:115-171 | a stream delivered one byte per read frames the same lines, in order, as all at once |
| Slots.Overflows | src/server.c:132-134 | the buffer is exactly full and holds no `'\n'`; `ResetWithoutLinesExactly` and `AlmostFullIsKept` prove it is the only reset without lines besides `n <= 0`, and that a buffer short of full never overflows |
| Slots.Service | src/server.c:113-171 | one readable event on an active slot; `ServiceKeepsIdle` proves the slot ends reset or idle with its socket and room, `ResetWithoutLinesExactly` when it is reset without lines, and `ServiceHandsOnLines` which lines are handed on and what tail is kept |
| Slots.ServiceKeepsIdle | src/server.c:109-174 | after an event the slot is either reset, or keeps its socket and room with a buffer that has no `'\n'` and is shorter than `INBUF_SIZE` |
| Slots.ResetWithoutLinesExactly | src/server.c:119-140 | the slot is reset with no line handed on exactly when `recv` reported `n <= 0`, or the buffer is full with no `'\n'` |
| Slots.AlmostFullIsKept | src/server.c:131-140 | a buffer one byte short of full with no `'\n'` is kept whole and hands on nothing: a buffer that is not full is never an overflow |
| Slots.ServiceHandsOnLines | src/server.c:143-171 | lines handed on are `Split`'s lines, stripped, in order, up to and including the first that disconnects (the slot is then reset); otherwise the tail is kept; each line is shorter than `INBUF_SIZE` and has no `'\n'` |
| Slots.TwoReadsAsOne | src/server.c:115-171 | two reads that neither overflow nor disconnect hand on the same lines and leave the same tail as one read of both |
| Slots.Poll | src/server.c:112-113 | a slot that is free or not readable is left as it is, with no lines |
| Server.Client.constructor | src/server.c:201-206 | a fresh slot is free, in no room, with an empty, zeroed buffer |
| Server.Client.Init | src/server.c:201-206 | `client_init`: the slot is free, in no room, its length is 0 and every byte of its buffer is zero |
| Server.Client.Remove | src/server.c:208-215 | `client_remove`: the descriptor is closed exactly when the slot held one, and the slot is then as `client_init` leaves it |
| Server.Client.Append | src/server.c:115-129 | the received bytes follow the buffered ones; socket and room are unchanged |
| Server.Client.ExtractLine | src/server.c:149-158 | the copied message is the bytes before the `'\n'` less one trailing `'\r'`; it is shorter than the buffer, so the NUL fits |
| Server.Client.DropLine | src/server.c:167-170 | `memmove`: the buffer now holds exactly the bytes after the consumed `'\n'`, in order |
| Server.Client.NextLine | src/server.c:145-170 | one round: the line handed on is the stripped bytes before the first `'\n'`; on a disconnect the slot is reset, otherwise the line and its `'\n'` are dropped and socket and room are kept |
| Server.Client.FrameLines | src/server.c:143-171 | the loop hands on `Feed`'s dispatched lines, stripped, in order; the slot ends reset when one disconnected, otherwise with `Feed`'s tail |
| Server.Client.Receive | src/server.c:113-171 | one readable event updates the slot and hands on lines exactly as `Service` says; the slot is left idle, and fully zeroed when freed |
| Server.NewTable | src/server.c:18-24 | `clients_init`: a table of distinct slots, each as `client_init` leaves it |
| Server.ClientTable.constructor | src/server.c:18-24 | the table invariant holds and every slot is as `client_init` leaves it |
| Server.ClientTable.FindFreeClient | src/server.c:181-189 | the lowest free index, or -1 exactly when every slot is taken |
| Server.ClientTable.FindClientByFd | src/server.c:191-199 | the lowest slot holding the descriptor, or -1 exactly when none does; an active descriptor is held by that slot only |
| Server.ClientTable.Accept | src/server.c:94-106 | a full table (-1) changes nothing; otherwise the lowest free slot takes the descriptor and no other slot changes |
| Server.ClientTable.ServiceSlot | src/server.c:113-171 | the serviced slot changes as `Service` says and every other slot is unchanged |
| Server.ClientTable.ServiceReady | src/server.c:110-174 | the scan services each readable active slot as `Service` says, leaves the others as they are, and keeps the table invariant |

## Left out

- Socket setup, `bind`, `listen`, `select`, `FD_SET` and `max_fd` (`start_server`, src/server.c:26-92) are I/O. Which slots are readable is a parameter, the map `ready` from descriptor to receive result.
- `recv` is a parameter too, `RecvEvent`: some bytes that fit the requested free space, or `n <= 0`. Whether `n < 0` or `n == 0` matters only to logging.
- Logging (`printf`, `perror`, `fprintf`) is left out: it has no effect on state.
- Server.ClientTable.Accept: takes the descriptor `accept` returned as a parameter. It requires that descriptor to be non-negative and not held by any slot, as the kernel guarantees for a new descriptor. A failing `accept` (-1) is not modelled. When the table is full, the model returns -1 and leaves the table unchanged. It does not model the `close` of the accepted descriptor.
- `close` in `client_remove` is returned as the descriptor to close rather than performed.
- The `username` and `addr` fields of `Client` are not modelled; no modelled code reads them. `client_init`'s `memset` zeroes them too.
- The `!c` test in `client_remove` is not modelled: a `Client` reference in Dafny cannot be null.
- `broadcast_message` and `init_clients` are declared in src/server.h but not defined in the files modelled. They are not part of this model.
- Server.ClientTable.Accept and Server.ClientTable.ServiceReady: one round of the event loop is modelled as these two methods, each proved on its own. The model has no single method that runs one `select` round: accept first, then scan the readable slots.
- The four command handlers (src/grammar.c:91-98) have empty bodies. `HandleCommand` therefore takes only the line, and the argument payload it computes is stated by `ParseCommand` but has no further effect.
- Bytes are modelled as `char`. A line is passed to the grammar as exactly its `msg_len` bytes. Parsing therefore depends only on `msg[0..len)` by construction, and the NUL terminator written after the copy is never read by the grammar.
- `size_t` and `ssize_t` arithmetic is modelled with unbounded naturals. Every length is at most `INBUF_SIZE`, so no wrap-around can occur.
- Server.Client.FrameLines and Server.Client.NextLine: they take a ghost parameter naming the grammar's verdict on a framed line, which must agree with `HandleCommand`. Receive passes the grammar itself. The loop calls `HandleCommand` directly; the parameter only names that verdict in the specification.
