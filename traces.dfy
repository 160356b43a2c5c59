/** Sequences of operations run one after another, as the channel's lock serialises them. An operation
    whose wait predicate is false at its turn is recorded as `Blocked` and has no effect: a blocking
    call would wait there for another thread, a timed call would return `timeout`. */
module ChannelTraces {
  import opened ChannelErrors
  import opened BufferedModel
  import U = UnbufferedChannels

  /** A call on a channel; a read passes the caller's variable that `read` may overwrite. */
  datatype Op<T> = WriteOp(v: T) | ReadOp(target: T) | CloseOp

  /** What a call observably did: a write that succeeded with its value, a write that threw
      `illegal_write`, a read that delivered a value, a read that reported closed, a close, or a call
      whose wait predicate did not hold. */
  datatype Event<T> = Wrote(v: T) | WriteRejected | Got(v: T) | SawClosed | DidClose | Blocked

  function Writes<T>(vs: seq<T>): (ops: seq<Op<T>>)
  {
    seq(|vs|, i requires 0 <= i < |vs| => WriteOp(vs[i]))
  }

  function Reads<T>(targets: seq<T>): (ops: seq<Op<T>>)
  {
    seq(|targets|, i requires 0 <= i < |targets| => ReadOp(targets[i]))
  }

  /** The values of the successful writes, in order. */
  function Sent<T>(es: seq<Event<T>>): seq<T>
  {
    if es == [] then [] else (if es[0].Wrote? then [es[0].v] else []) + Sent(es[1..])
  }

  /** The values the successful reads delivered, in order. */
  function Delivered<T>(es: seq<Event<T>>): seq<T>
  {
    if es == [] then [] else (if es[0].Got? then [es[0].v] else []) + Delivered(es[1..])
  }

  /** One call on a buffered channel. */
  function Step<T>(b: BufState<T>, op: Op<T>): (r: (BufState<T>, Event<T>))
    requires Wf(b)
    ensures Wf(r.0) && r.0.capacity == b.capacity
    ensures r.1 == Blocked ==> r.0 == b
    ensures r.1.Wrote? ==> r.0.items == b.items + [r.1.v]
    ensures r.1.Got? ==> b.items == [r.1.v] + r.0.items
    ensures !r.1.Wrote? && !r.1.Got? ==> r.0.items == b.items
    ensures b.open ==> r.1 != SawClosed
    ensures !b.open ==> !r.0.open
  {
    match op
    case WriteOp(v) =>
      if !WriteReady(b) then (b, Blocked)
      else
        var w := WriteStep(b, v);
        (w.0, if w.1.Ok? then Wrote(v) else WriteRejected)
    case ReadOp(target) =>
      if !ReadReady(b) then (b, Blocked)
      else
        var r := ReadStep(b, target);
        (r.0, if r.1 == ReadSuccess then Got(r.2) else SawClosed)
    case CloseOp => (CloseStep(b), DidClose)
  }

  /** A sequence of calls on a buffered channel: the final state and one event per call. */
  function Run<T>(b: BufState<T>, ops: seq<Op<T>>): (r: (BufState<T>, seq<Event<T>>))
    requires Wf(b)
    ensures Wf(r.0) && r.0.capacity == b.capacity
    ensures |r.1| == |ops|
    ensures !b.open ==> !r.0.open
    decreases |ops|
  {
    if ops == [] then (b, [])
    else
      var s := Step(b, ops[0]);
      var rest := Run(s.0, ops[1..]);
      (rest.0, [s.1] + rest.1)
  }

  /** Running two sequences one after the other is running their concatenation. */
  lemma {:induction false} RunAppend<T>(b: BufState<T>, xs: seq<Op<T>>, ys: seq<Op<T>>)
    requires Wf(b)
    ensures Run(b, xs + ys) == (Run(Run(b, xs).0, ys).0, Run(b, xs).1 + Run(Run(b, xs).0, ys).1)
    decreases |xs|
  {
    if xs == [] {
      assert xs + ys == ys;
      assert Run(b, xs) == (b, []);
      assert [] + Run(b, ys).1 == Run(b, ys).1;
    } else {
      var s := Step(b, xs[0]);
      assert (xs + ys)[0] == xs[0];
      assert (xs + ys)[1..] == xs[1..] + ys;
      RunAppend(s.0, xs[1..], ys);
      var mid := Run(s.0, xs[1..]);
      assert Run(b, xs).1 == [s.1] + mid.1;
      assert [s.1] + mid.1 + Run(mid.0, ys).1 == [s.1] + (mid.1 + Run(mid.0, ys).1);
    }
  }

  /** No value is lost or duplicated, and values come out in the order they went in: what was queued
      at the start followed by everything written equals everything delivered followed by what is
      still queued at the end. */
  lemma {:induction false} NoLossNoDuplication<T>(b: BufState<T>, ops: seq<Op<T>>)
    requires Wf(b)
    ensures b.items + Sent(Run(b, ops).1) == Delivered(Run(b, ops).1) + Run(b, ops).0.items
    decreases |ops|
  {
    if ops != [] {
      var s := Step(b, ops[0]);
      var rest := Run(s.0, ops[1..]);
      var es := [s.1] + rest.1;
      assert es[0] == s.1 && es[1..] == rest.1;
      NoLossNoDuplication(s.0, ops[1..]);
      match s.1
      case Wrote(v) =>
        assert s.0.items == b.items + [v];
        assert b.items + Sent(es) == b.items + [v] + Sent(rest.1);
      case Got(v) =>
        assert b.items == [v] + s.0.items;
        assert Delivered(es) + rest.0.items == [v] + (Delivered(rest.1) + rest.0.items);
      case _ =>
        assert Sent(es) == Sent(rest.1) && Delivered(es) == Delivered(rest.1);
    }
  }

  /** Reads deliver values in write order: the delivered values are a prefix of what was queued at the
      start followed by what was written. */
  lemma DeliveredInWriteOrder<T>(b: BufState<T>, ops: seq<Op<T>>)
    requires Wf(b)
    ensures Delivered(Run(b, ops).1) <= b.items + Sent(Run(b, ops).1)
  {
    NoLossNoDuplication(b, ops);
  }

  /** Once a buffered channel is closed it stays closed, no call blocks, and every write throws
      `illegal_write`. */
  lemma {:induction false} ClosedRejectsWrites<T>(b: BufState<T>, ops: seq<Op<T>>)
    requires Wf(b) && !b.open
    ensures !Run(b, ops).0.open
    ensures forall i :: 0 <= i < |ops| ==> Run(b, ops).1[i] != Blocked
    ensures forall i :: 0 <= i < |ops| && ops[i].WriteOp? ==> Run(b, ops).1[i] == WriteRejected
    ensures Sent(Run(b, ops).1) == []
    decreases |ops|
  {
    if ops != [] {
      var s := Step(b, ops[0]);
      var es := Run(b, ops).1;
      ClosedRejectsWrites(s.0, ops[1..]);
      assert es[1..] == Run(s.0, ops[1..]).1;
      forall i | 1 <= i < |ops|
        ensures es[i] == Run(s.0, ops[1..]).1[i - 1] && ops[i] == ops[1..][i - 1]
      {
      }
    }
  }

  /** Reads on a closed buffered channel drain the items still queued, oldest first, and then report
      closed. */
  lemma {:induction false} DrainAfterClose<T>(b: BufState<T>, targets: seq<T>)
    requires Wf(b) && !b.open
    ensures forall i :: 0 <= i < |targets| ==>
      Run(b, Reads(targets)).1[i] == if i < |b.items| then Got(b.items[i]) else SawClosed
    ensures |targets| >= |b.items| ==> Run(b, Reads(targets)).0.items == []
    decreases |targets|
  {
    if targets != [] {
      var ops := Reads(targets);
      var s := Step(b, ops[0]);
      assert ops[1..] == Reads(targets[1..]);
      DrainAfterClose(s.0, targets[1..]);
      var es := Run(b, ops).1;
      assert es[1..] == Run(s.0, ops[1..]).1;
      if |b.items| > 0 {
        assert s == (b.(items := b.items[1..]), Got(b.items[0]));
      } else {
        assert s == (b, SawClosed);
      }
      forall i | 1 <= i < |targets|
        ensures es[i] == if i < |b.items| then Got(b.items[i]) else SawClosed
      {
        assert es[i] == Run(s.0, ops[1..]).1[i - 1];
      }
    }
  }

  /** Writes to an open buffered channel with room for all of them succeed, in order, without a
      reader, and queue their values behind the items already there. */
  lemma {:induction false} FillWithoutReader<T>(b: BufState<T>, vs: seq<T>)
    requires Wf(b) && b.open && |b.items| + |vs| <= b.capacity
    ensures Run(b, Writes(vs)).0 == b.(items := b.items + vs)
    ensures Run(b, Writes(vs)).1 == seq(|vs|, i requires 0 <= i < |vs| => Wrote(vs[i]))
    decreases |vs|
  {
    if vs == [] {
      assert b.items + vs == b.items;
    } else {
      var ops := Writes(vs);
      var s := Step(b, ops[0]);
      assert s.0 == b.(items := b.items + [vs[0]]);
      assert ops[1..] == Writes(vs[1..]);
      FillWithoutReader(s.0, vs[1..]);
      assert b.items + [vs[0]] + vs[1..] == b.items + vs;
    }
  }

  /** An open buffered channel that holds N items does not let the next write through until a read. */
  lemma FullBlocksWriter<T>(b: BufState<T>, v: T)
    requires Wf(b) && b.open && |b.items| == b.capacity
    ensures Step(b, WriteOp(v)) == (b, Blocked)
  {
  }

  /** Writing k <= N values to a new buffered channel and closing it permits exactly k successful reads,
      in write order, after which every read reports closed. */
  lemma WriteCloseDrain<T>(size: nat, vs: seq<T>, targets: seq<T>)
    requires 1 <= size && |vs| <= size
    ensures Run(Initial(size), Writes(vs) + [CloseOp] + Reads(targets)).1 ==
      seq(|vs|, i requires 0 <= i < |vs| => Wrote(vs[i])) + [DidClose] +
      seq(|targets|, i requires 0 <= i < |targets| => if i < |vs| then Got(vs[i]) else SawClosed)
  {
    var b0: BufState<T> := Initial(size);
    var ws := Writes(vs);
    var e1 := seq(|vs|, i requires 0 <= i < |vs| => Wrote(vs[i]));
    var e3 := seq(|targets|, i requires 0 <= i < |targets| => if i < |vs| then Got(vs[i]) else SawClosed);
    FillWithoutReader(b0, vs);
    var w := Run(b0, ws);
    var closed := CloseStep(w.0);
    assert closed.items == vs && !closed.open;
    var one: seq<Op<T>> := [CloseOp];
    assert Run(w.0, one) == (closed, [DidClose]) by {
      assert one[0] == CloseOp && one[1..] == [];
      assert Step(w.0, CloseOp) == (closed, DidClose);
      assert Run(closed, one[1..]) == (closed, []);
      assert [DidClose] + Run(closed, one[1..]).1 == [DidClose];
    }
    RunAppend(b0, ws, one);
    RunAppend(b0, ws + one, Reads(targets));
    DrainAfterClose(closed, targets);
    assert Run(closed, Reads(targets)).1 == e3;
  }

  /** One call on an unbuffered channel, with the same events. */
  function UStep<T>(c: U.Snapshot<T>, op: Op<T>): (r: (U.Snapshot<T>, Event<T>))
    ensures r.1 == Blocked ==> r.0 == c
    ensures c.state in {U.Closing, U.Closed} ==> r.0.state in {U.Closing, U.Closed}
  {
    match op
    case WriteOp(v) =>
      if !U.WriteReady(c.state) then (c, Blocked)
      else
        var w := U.WriteStep(c, v);
        (w.0, if w.1.Ok? then Wrote(v) else WriteRejected)
    case ReadOp(target) =>
      if !U.ReadReady(c.state) then (c, Blocked)
      else
        var r := U.ReadStep(c, target);
        (r.0, if r.1 == ReadSuccess then Got(r.2) else SawClosed)
    case CloseOp => (U.CloseStep(c), DidClose)
  }

  /** A sequence of calls on an unbuffered channel. */
  function URun<T>(c: U.Snapshot<T>, ops: seq<Op<T>>): (r: (U.Snapshot<T>, seq<Event<T>>))
    ensures |r.1| == |ops|
    decreases |ops|
  {
    if ops == [] then (c, [])
    else
      var s := UStep(c, ops[0]);
      var rest := URun(s.0, ops[1..]);
      (rest.0, [s.1] + rest.1)
  }

  lemma StepRefines<T>(c: U.Snapshot<T>, op: Op<T>)
    ensures Step(U.Abs(c), op).1 == UStep(c, op).1
    ensures Step(U.Abs(c), op).0 == U.Abs(UStep(c, op).0)
  {
  }

  /** Every sequence of calls on an unbuffered channel produces the same events as on a buffered
      channel of capacity 1, and ends in the corresponding state. */
  lemma {:induction false} RunRefines<T>(c: U.Snapshot<T>, ops: seq<Op<T>>)
    ensures Run(U.Abs(c), ops).1 == URun(c, ops).1
    ensures Run(U.Abs(c), ops).0 == U.Abs(URun(c, ops).0)
    decreases |ops|
  {
    if ops != [] {
      StepRefines(c, ops[0]);
      RunRefines(UStep(c, ops[0]).0, ops[1..]);
    }
  }

  /** An unbuffered channel never loses or duplicates a value: the pending value at the start (if any)
      followed by everything written equals everything read followed by the pending value at the end
      (if any). */
  lemma UNoLossNoDuplication<T>(c: U.Snapshot<T>, ops: seq<Op<T>>)
    ensures U.Abs(c).items + Sent(URun(c, ops).1) == Delivered(URun(c, ops).1) + U.Abs(URun(c, ops).0).items
  {
    RunRefines(c, ops);
    NoLossNoDuplication(U.Abs(c), ops);
  }

  /** On an unbuffered channel, write(v) then close() lets exactly one read return v with success;
      every later read reports closed, and the channel ends closed. */
  lemma UWriteThenClose<T>(slot: T, v: T, targets: seq<T>)
    requires |targets| >= 1
    ensures URun(U.Snapshot(U.Writable, slot), [WriteOp(v), CloseOp] + Reads(targets)).1 ==
      [Wrote(v), DidClose] + seq(|targets|, i requires 0 <= i < |targets| => if i == 0 then Got(v) else SawClosed)
    ensures URun(U.Snapshot(U.Writable, slot), [WriteOp(v), CloseOp] + Reads(targets)).0.state == U.Closed
  {
    var c := U.Snapshot(U.Writable, slot);
    var ops := [WriteOp(v), CloseOp] + Reads(targets);
    assert U.Abs(c) == Initial(1);
    assert Writes([v]) + [CloseOp] == [WriteOp(v), CloseOp];
    WriteCloseDrain(1, [v], targets);
    RunRefines(c, ops);
    var e1 := seq(|[v]|, i requires 0 <= i < |[v]| => Wrote([v][i]));
    assert e1 == [Wrote(v)];
    var e2 := seq(|targets|, i requires 0 <= i < |targets| => if i < |[v]| then Got([v][i]) else SawClosed);
    var e3 := seq(|targets|, i requires 0 <= i < |targets| => if i == 0 then Got(v) else SawClosed);
    assert e2 == e3;
    var fin := URun(c, ops).0;
    RunAppend(Initial(1), [WriteOp(v), CloseOp], Reads(targets));
    DrainAfterClose(Run(Initial(1), [WriteOp(v), CloseOp]).0, targets);
    assert U.Abs(fin).items == [] && !U.Abs(fin).open;
  }

  /** Once an unbuffered channel is closing or closed, no call blocks and every write throws
      `illegal_write`. */
  lemma UClosedRejectsWrites<T>(c: U.Snapshot<T>, ops: seq<Op<T>>)
    requires c.state in {U.Closing, U.Closed}
    ensures forall i :: 0 <= i < |ops| ==> URun(c, ops).1[i] != Blocked
    ensures forall i :: 0 <= i < |ops| && ops[i].WriteOp? ==> URun(c, ops).1[i] == WriteRejected
  {
    RunRefines(c, ops);
    ClosedRejectsWrites(U.Abs(c), ops);
  }

  /** A read on a new unbuffered channel with no writer cannot proceed (a timed read times out), and
      leaves the channel usable: a later write and read still hand the value over. */
  lemma UReadWithoutWriter<T>(slot: T, target: T, v: T)
    ensures URun(U.Snapshot(U.Writable, slot), [ReadOp(target), WriteOp(v), ReadOp(target)]).1 ==
      [Blocked, Wrote(v), Got(v)]
  {
    var c := U.Snapshot(U.Writable, slot);
    var ops := [ReadOp(target), WriteOp(v), ReadOp(target)];
    assert UStep(c, ops[0]) == (c, Blocked);
    var c1 := U.Snapshot(U.Readable, v);
    assert UStep(c, ops[1]) == (c1, Wrote(v));
    var c2 := U.Snapshot(U.Writable, v);
    assert UStep(c1, ops[2]) == (c2, Got(v));
    var last := ops[2..];
    assert last[0] == ops[2] && last[1..] == [];
    assert URun(c2, last[1..]) == (c2, []);
    assert URun(c1, last).0 == c2;
    assert URun(c1, last).1 == [Got(v)] + [] == [Got(v)];
    var tail := ops[1..];
    assert tail[0] == ops[1] && tail[1..] == last;
    assert URun(c, tail).1 == [Wrote(v)] + [Got(v)] == [Wrote(v), Got(v)];
    assert URun(c, ops).1 == [Blocked] + [Wrote(v), Got(v)] == [Blocked, Wrote(v), Got(v)];
  }
}
