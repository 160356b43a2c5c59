# Channels: a verified model of `channels.hpp`

This project models the two channel kinds of the `channels` C++ header library and proves
properties of them in Dafny.

- **`channel<Type>`** is the unbuffered (rendezvous) channel. It has one value slot and a state
  that is one of writable, readable, closing or closed.
- **`buffered_channel<Type>`** is a ring buffer of N ≥ 1 cells. It has a read position, a write
  position, an item count and an open flag.

Each kind has blocking `read`/`write` calls, timed `_for`/`_until` variants, and `close`. Errors are
thrown as `channel_exception` carrying a `channel_error`.

Modules:

- `ChannelErrors` (`errors.dfy`): `channel_error`, `read_status` and `write_status`. It also holds
  the `Result` type that replaces a thrown exception, and the message lookup of
  `channel_exception::what`, including its "unknown error" default.
- `BufferedModel` (`buffered_model.dfy`): the buffered channel as a value, `BufState(items,
  capacity, open)`, that is a bounded FIFO queue with an open flag. It holds the two wait
  predicates and the read, write and close transitions.
- `BufferedChannels` (`buffered_channel.dfy`): the class `BufferedChannel`, which keeps the source's
  fields over an `array<T>` and a ghost `contents`.
  - `Valid()` is the ring invariant. Positions are below N, `count ≤ N`, and
    `writePosition == (readPosition + count) % N`. `contents` is the `count` cells from the read
    position onwards, counted modulo N.
  - Every method keeps `Valid()`. Its new abstract state and outputs are the `BufferedModel`
    transition applied to the old abstract state, or, for a timed call that times out, nothing
    changes. For example, a write appends to `contents` and a read pops its head.
  - `ReadChannel` and `WriteChannel` also give the new positions, count and cell contents.
  - `NewBufferedChannel` is the constructor together with its size check.
- `UnbufferedChannels` (`unbuffered_channel.dfy`): the state type and the transitions over
  `(state, slot)`, plus the class `Channel` whose methods perform them in place.
  - `Abs` turns an unbuffered channel into a buffered one with a single cell. The refinement
    lemmas prove that every wait predicate and every transition agrees with that buffered channel.
- `ChannelTraces` (`traces.dfy`): sequences of calls run one after another, as the channel's lock
  serialises them. The lemmas cover:
  - no value is lost or duplicated;
  - values are delivered in FIFO order;
  - once closed, a channel stays closed and every write is rejected;
  - a closed buffered channel drains before it reports closed;
  - write, close, drain on a buffered channel, and write then close on an unbuffered one;
  - a read with no writer times out and leaves the channel usable.

Waiting is abstracted as follows:

- A completed blocking wait is a precondition that the wait predicate holds.
- A timed wait is a parameter `predicateHeld`. It is required to equal the predicate, because a
  predicate-taking `wait_for`/`wait_until` returns the predicate's value when it returns.
- A timed call whose predicate did not hold returns `timeout` and changes nothing.
- In traces, a call whose predicate is false at its turn is recorded as `Blocked` with no effect.

Where the code and the design notes differ on the writable branch of the unbuffered `read_channel`,
the model follows the code in what it can observe. The code throws `illegal_write` there, but only
after waiting for the state to leave writable, so the branch cannot be reached. The model says so
with `assert false` under that precondition, and gives the branch no behaviour.

## Model

| member | source | states |
|---|---|---|
| ChannelErrors.What | channels.hpp:42-65 | every declared error has an entry in the message table, so the "unknown error" default is never returned |
| ChannelErrors.WhatDistinguishesErrors | channels.hpp:45-48 | two errors get the same message exactly when they are the same error |
| BufferedModel.Initial | channels.hpp:513-520 | a new channel of size ≥ 1 is a well-formed, empty, open queue that accepts a write and blocks a read |
| BufferedModel.ReadReady | channels.hpp:422-425 | no contract: defines `is_readable` as "closed, or holding an item"; WaitPredicatesAgree and ReadRefines relate it to the class and the unbuffered channel |
| BufferedModel.WriteReady | channels.hpp:427-430 | no contract: defines `is_writable` as "closed, or holding fewer items than cells"; FullBlocksWriter, WaitPredicatesAgree and ReadRefines use it |
| BufferedModel.CloseStep | channels.hpp:527-534 | close clears the open flag and keeps the items and the capacity |
| BufferedModel.ReadStep | channels.hpp:466-484 | a read keeps the queue well formed (never more items than cells) and never reports timeout |
| BufferedModel.WriteStep | channels.hpp:486-510 | a write entered with the write predicate keeps the queue within capacity and never reports timeout |
| BufferedModel.CloseProperties | channels.hpp:527-534 | close is idempotent and keeps the items and capacity; afterwards both predicates hold and every write is `illegal_write` with no change |
| BufferedModel.ReadDeliversOldest | channels.hpp:469-481 | while items remain, a read delivers the oldest one with success even when closed, so closed is reported only after draining |
| BufferedChannels.BufferedChannel.Valid | channels.hpp:412-419 | no contract: the ring invariant (positions below N, count ≤ N, write position = read position + count mod N, `contents` = the count cells from the read position mod N); every method of the class keeps it |
| BufferedChannels.BufferedChannel.IsReadable | channels.hpp:422-425 | no contract: `!open || count > 0`; WaitPredicatesAgree equates it with the queue's ReadReady |
| BufferedChannels.BufferedChannel.IsWritable | channels.hpp:427-430 | no contract: `!open || count < N`; WaitPredicatesAgree equates it with the queue's WriteReady |
| BufferedChannels.BufferedChannel.ValidIsWellFormed | channels.hpp:412-419 | the ring invariant implies at least one cell and at most N unread items |
| BufferedChannels.BufferedChannel.WaitPredicatesAgree | channels.hpp:422-430 | `is_readable` is "closed or not empty" and `is_writable` is "closed or not full" on the queue view |
| BufferedChannels.BufferedChannel.constructor | channels.hpp:513-520 | N cells with unspecified contents, both positions 0, count 0, open, empty queue, ring invariant established |
| BufferedChannels.NewBufferedChannel | channels.hpp:513-520 | size 0 yields `invalid_size` and no channel; otherwise a fresh valid open empty channel of that size |
| BufferedChannels.BufferedChannel.ReadChannel | channels.hpp:466-484 | closed and empty: reports closed, leaves the caller's variable and all fields unchanged; otherwise returns the cell at the read position (the queue head), advances it mod N, decrements count, pops the head; ring invariant kept |
| BufferedChannels.BufferedChannel.WriteChannel | channels.hpp:486-510 | open: stores the value at the write position, increments count (still ≤ N), advances the write position mod N, appends to the queue; closed: `illegal_write` whatever the occupancy, nothing changes; ring invariant kept |
| BufferedChannels.BufferedChannel.Close | channels.hpp:527-534 | only the open flag changes, to false; queue, count and positions kept |
| BufferedChannels.BufferedChannel.Read | channels.hpp:536-541 | after the wait on `is_readable`, the read transition of the queue |
| BufferedChannels.BufferedChannel.ReadFor | channels.hpp:543-554 | predicate not held: timeout, caller's variable and all state unchanged; held: the read transition |
| BufferedChannels.BufferedChannel.ReadUntil | channels.hpp:556-567 | as ReadFor with a deadline |
| BufferedChannels.BufferedChannel.Write | channels.hpp:569-581 | after the wait on `is_writable`, the write transition of the queue |
| BufferedChannels.BufferedChannel.WriteFor | channels.hpp:583-607 | predicate not held: timeout, nothing changes; held: the write transition |
| BufferedChannels.BufferedChannel.WriteUntil | channels.hpp:609-633 | as WriteFor with a deadline |
| UnbufferedChannels.ReadReady | channels.hpp:116-124 | no contract: the lambda `_state != hold_state` with hold state writable, as `read` waits on it; ReadRefines equates it with the one-cell buffered `is_readable` |
| UnbufferedChannels.WriteReady | channels.hpp:116-124 | no contract: the same lambda with hold state readable, as `write` waits on it; ReadRefines equates it with the one-cell buffered `is_writable` |
| UnbufferedChannels.ReadStep | channels.hpp:158-183 | a read never touches the slot, never times out, leaves the channel writable or closed, and a successful read delivers the slot; the writable branch is unreachable under the wait predicate |
| UnbufferedChannels.WriteStep | channels.hpp:185-208 | a write never times out, and a failed write is `illegal_write` with nothing changed |
| UnbufferedChannels.CloseStep | channels.hpp:248-262 | close never touches the slot and always ends closing or closed |
| UnbufferedChannels.Abs | channels.hpp:103-111 | the slot is a pending item exactly when readable or closing, the channel is open exactly when writable or readable, at most one item |
| UnbufferedChannels.AbsDeterminesState | channels.hpp:103-111 | the queue view determines the state (and the slot when pending): the state alone says whether a value awaits a reader |
| UnbufferedChannels.ReadRefines | channels.hpp:158-183 | the wait predicates `_state != writable` / `_state != readable` are the buffered ones with N = 1, and a read (readable→writable, closing→closed, closed reports closed) is the buffered read |
| UnbufferedChannels.WriteRefines | channels.hpp:185-208 | after the write wait, a write (writable→readable storing the value, otherwise `illegal_write`) is the buffered write with N = 1 |
| UnbufferedChannels.CloseRefines | channels.hpp:248-262 | close (readable→closing, writable→closed, else unchanged) is the buffered close |
| UnbufferedChannels.CloseProperties | channels.hpp:248-262 | close is idempotent, never touches the slot, ends closing or closed; afterwards no call blocks and every write is `illegal_write` with no change |
| UnbufferedChannels.Channel.constructor | channels.hpp:217-220 | a new channel is writable |
| UnbufferedChannels.Channel.Close | channels.hpp:248-262 | readable becomes closing, writable becomes closed, closing and closed are kept, the slot is untouched |
| UnbufferedChannels.Channel.ReadChannel | channels.hpp:158-183 | readable: slot with success, now writable; closing: slot with success, now closed; closed: closed, caller's variable untouched, state kept; writable unreachable |
| UnbufferedChannels.Channel.WriteChannel | channels.hpp:185-208 | writable: stores the value, now readable, success; any other state: `illegal_write`, nothing changes |
| UnbufferedChannels.Channel.Read | channels.hpp:277-282 | after the wait until not writable, the read transition |
| UnbufferedChannels.Channel.ReadFor | channels.hpp:300-311 | predicate not held: timeout, nothing changes; held: the read transition |
| UnbufferedChannels.Channel.ReadUntil | channels.hpp:328-339 | as ReadFor with a deadline |
| UnbufferedChannels.Channel.Write | channels.hpp:341-353 | after the wait until not readable, the write transition |
| UnbufferedChannels.Channel.WriteFor | channels.hpp:355-379 | predicate not held: timeout, nothing changes; held: the write transition |
| UnbufferedChannels.Channel.WriteUntil | channels.hpp:381-405 | as WriteFor with a deadline |
| ChannelTraces.Step | channels.hpp:466-534 | one buffered call keeps the queue within capacity; a blocked call changes nothing; a successful write appends its value, a successful read removes and delivers the head, anything else keeps the items; a closed channel stays closed |
| ChannelTraces.Run | channels.hpp:536-633 | a sequence of calls keeps the queue within capacity, yields one event per call, and never reopens a closed channel |
| ChannelTraces.RunAppend | channels.hpp:536-633 | running two call sequences in turn is running their concatenation |
| ChannelTraces.NoLossNoDuplication | channels.hpp:466-510 | initial items followed by all written values equal all delivered values followed by the final items |
| ChannelTraces.DeliveredInWriteOrder | channels.hpp:476-501 | delivered values are a prefix of the initial items followed by the written values (FIFO) |
| ChannelTraces.ClosedRejectsWrites | channels.hpp:505-508 | from a closed buffered channel: it stays closed, no call blocks, every write is `illegal_write`, nothing is written |
| ChannelTraces.DrainAfterClose | channels.hpp:469-481 | reads on a closed buffered channel deliver the queued items oldest first, then report closed |
| ChannelTraces.FillWithoutReader | channels.hpp:490-501 | writes that fit all succeed in order without a reader and queue behind the existing items |
| ChannelTraces.FullBlocksWriter | channels.hpp:427-430 | a full open buffered channel lets no write through |
| ChannelTraces.WriteCloseDrain | channels.hpp:513-534 | on a new buffered channel, k ≤ N writes then close then reads: k successes, one close, then exactly the k values in write order, then closed |
| ChannelTraces.UStep | channels.hpp:158-262 | one unbuffered call: a blocked call changes nothing, and a closing or closed channel stays closing or closed |
| ChannelTraces.URun | channels.hpp:277-405 | a sequence of calls on an unbuffered channel yields one event per call |
| ChannelTraces.StepRefines | channels.hpp:158-262 | one unbuffered call has the event and resulting state of the same call on the one-cell buffered channel |
| ChannelTraces.RunRefines | channels.hpp:158-262 | every unbuffered call sequence has the events and final state of the one-cell buffered channel |
| ChannelTraces.UNoLossNoDuplication | channels.hpp:158-208 | the unbuffered channel never loses or duplicates a value, and delivers in write order |
| ChannelTraces.UWriteThenClose | tests/unit.cpp:46-61 | write(v), close(), then reads: exactly one read yields v with success, every later read reports closed, the channel ends closed |
| ChannelTraces.UClosedRejectsWrites | channels.hpp:186-208 | from closing or closed: no call blocks and every write is `illegal_write` |
| ChannelTraces.UReadWithoutWriter | channels.hpp:300-311 | a read on a new channel with no writer cannot proceed (a timed read times out); a later write and read still hand the value over |

## Left out

- Mutex, condition variables, `notify_one`/`notify_all` and the order of unlocking: concurrency plumbing. A completed wait is a precondition, and fairness among waiters is not modelled.
- `std::chrono` durations and deadlines: real time. They are replaced by the boolean `predicateHeld`, the value the bounded wait returned.
- The copy and move branches of `write_channel` and the moved-from caller variable: C++ object semantics. Both are a plain assignment.
- Destructors: they only call `close`, which is modelled.
- Rendezvous: `RunRefines` shows the unbuffered channel behaves as a buffer of one cell. A `write`
  returns as soon as its value is staged and does not wait for a reader to take it; only the next
  write waits while the value is unread.
- The timed overloads taking `Type &&` (channels.hpp:377, 403, 605, 631) pass the named reference
  `value` to `write_channel<Type &&>` without `std::move`, unlike the blocking ones (352, 580). For a
  non-reference `Type` they do not compile once instantiated. The model has one write per call kind
  and does not model the overloads separately.
- `what()` returns `c_str()` of a local string (channels.hpp:58-64), so the caller receives a
  dangling pointer. Only the error-to-message mapping is modelled.
- `std::size_t` wrap-around: it cannot occur, because positions stay below N and the count stays at most N under the wait predicates.
- tests/integration.cpp, examples/threadpool.cpp and examples/pause.cpp: sockets, threads, futures, file output and POSIX signals built on the channel interface. They have no channel logic of their own.
