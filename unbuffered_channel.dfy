/** `channel<Type>`: the unbuffered (rendezvous) channel, a single value slot and a four-valued state. */
module UnbufferedChannels {
  import opened ChannelErrors
  import BufferedModel

  /** `channel_state` */
  datatype ChannelState = Writable | Readable | Closing | Closed

  /** The channel's protected fields: `_state` and the slot `_value`. */
  datatype Snapshot<T> = Snapshot(state: ChannelState, slot: T)

  /** The predicate `read` waits for: `_state != writable`. */
  predicate ReadReady(s: ChannelState)
  {
    s != Writable
  }

  /** The predicate `write` waits for: `_state != readable`. */
  predicate WriteReady(s: ChannelState)
  {
    s != Readable
  }

  /** `close`: readable becomes closing (the staged value can still be read once), writable becomes
      closed; closing and closed are kept. The slot is never touched. */
  function CloseStep<T>(c: Snapshot<T>): (r: Snapshot<T>)
    ensures r.slot == c.slot
    ensures r.state in {Closing, Closed}
  {
    match c.state
    case Readable => c.(state := Closing)
    case Writable => c.(state := Closed)
    case Closing => c
    case Closed => c
  }

  /** `read_channel`, entered once the read wait is over. Readable and closing deliver the slot with
      success and move to writable and closed respectively; closed reports closed and leaves the
      caller's variable `target` as it was. The writable branch, which throws in the source, cannot be
      reached once the wait predicate holds. */
  function ReadStep<T>(c: Snapshot<T>, target: T): (r: (Snapshot<T>, ReadStatus, T))
    requires ReadReady(c.state)
    ensures r.0.slot == c.slot
    ensures r.0.state in {Writable, Closed}
    ensures r.1 != ReadTimeout
    ensures r.1 == ReadSuccess ==> r.2 == c.slot
  {
    match c.state
    case Readable => (c.(state := Writable), ReadSuccess, c.slot)
    case Closing => (c.(state := Closed), ReadSuccess, c.slot)
    case Closed => (c, ReadClosed, target)
    case Writable => assert false; (c, ReadClosed, target)
  }

  /** `write_channel`: from writable, stages the value and moves to readable; from any other state,
      throws `illegal_write` and changes nothing. */
  function WriteStep<T>(c: Snapshot<T>, v: T): (r: (Snapshot<T>, Result<WriteStatus>))
    ensures r.1 != Ok(WriteTimeout)
    ensures r.1.Err? ==> r.0 == c && r.1.error == IllegalWrite
  {
    match c.state
    case Writable => (Snapshot(Readable, v), Ok(WriteSuccess))
    case _ => (c, Err(IllegalWrite))
  }

  /** The unbuffered channel seen as a buffered one with a single cell: the slot is a pending item
      exactly in the readable and closing states, and the channel is open exactly in the writable and
      readable states. */
  function Abs<T>(c: Snapshot<T>): (b: BufferedModel.BufState<T>)
    ensures BufferedModel.Wf(b) && b.capacity == 1
    ensures |b.items| == 1 <==> c.state in {Readable, Closing}
    ensures b.open <==> c.state in {Writable, Readable}
  {
    BufferedModel.BufState(
      if c.state == Readable || c.state == Closing then [c.slot] else [],
      1,
      c.state == Writable || c.state == Readable)
  }

  /** The state is recovered from the queue view, so the state alone decides whether the slot holds a
      value awaiting a reader. */
  lemma AbsDeterminesState<T>(c1: Snapshot<T>, c2: Snapshot<T>)
    requires Abs(c1) == Abs(c2)
    ensures c1.state == c2.state
    ensures c1.state in {Readable, Closing} ==> c1.slot == c2.slot
  {
  }

  /** Both wait predicates are the buffered ones with one cell, and a read is the buffered read. */
  lemma ReadRefines<T>(c: Snapshot<T>, target: T)
    ensures ReadReady(c.state) <==> BufferedModel.ReadReady(Abs(c))
    ensures WriteReady(c.state) <==> BufferedModel.WriteReady(Abs(c))
    ensures ReadReady(c.state) ==>
      var u := ReadStep(c, target);
      var b := BufferedModel.ReadStep(Abs(c), target);
      Abs(u.0) == b.0 && u.1 == b.1 && u.2 == b.2
  {
  }

  /** Once the write wait is over, a write is the buffered write with one cell. */
  lemma WriteRefines<T>(c: Snapshot<T>, v: T)
    requires WriteReady(c.state)
    ensures var u := WriteStep(c, v);
      var b := BufferedModel.WriteStep(Abs(c), v);
      Abs(u.0) == b.0 && u.1 == b.1
  {
  }

  /** Close is the buffered close. */
  lemma CloseRefines<T>(c: Snapshot<T>)
    ensures Abs(CloseStep(c)) == BufferedModel.CloseStep(Abs(c))
  {
  }

  /** Close is idempotent and leaves the slot alone; after it, nothing blocks and every write is an
      illegal write. */
  lemma CloseProperties<T>(c: Snapshot<T>, v: T)
    ensures CloseStep(CloseStep(c)) == CloseStep(c)
    ensures CloseStep(c).slot == c.slot
    ensures CloseStep(c).state in {Closing, Closed}
    ensures ReadReady(CloseStep(c).state) && WriteReady(CloseStep(c).state)
    ensures WriteStep(CloseStep(c), v) == (CloseStep(c), Err(IllegalWrite))
  {
  }

  class Channel<T(0)> {
    /** `_value` */
    var slot: T
    /** `_state` */
    var state: ChannelState

    /** The fields as a value, for the transition functions above. */
    function Snap(): Snapshot<T>
      reads this
    {
      Snapshot(state, slot)
    }

    /** A new channel is writable with no pending value. */
    constructor ()
      ensures state == Writable
    {
      state := Writable;
    }

    /** `close` */
    method Close()
      modifies this
      ensures Snap() == CloseStep(old(Snap()))
      ensures slot == old(slot)
      ensures old(state) == Readable ==> state == Closing
      ensures old(state) == Writable ==> state == Closed
      ensures old(state) in {Closing, Closed} ==> state == old(state)
    {
      if state == Readable {
        state := Closing;
      } else if state == Writable {
        state := Closed;
      }
    }

    /** `read_channel`, entered with `_state != writable`. */
    method ReadChannel(value: T) returns (status: ReadStatus, value': T)
      requires ReadReady(state)
      modifies this
      ensures (Snap(), status, value') == ReadStep(old(Snap()), value)
      ensures slot == old(slot)
      ensures old(state) == Readable ==> status == ReadSuccess && value' == slot && state == Writable
      ensures old(state) == Closing ==> status == ReadSuccess && value' == slot && state == Closed
      ensures old(state) == Closed ==> status == ReadClosed && value' == value && state == Closed
    {
      match state
      case Readable =>
        value' := slot;
        state := Writable;
        status := ReadSuccess;
      case Closing =>
        value' := slot;
        state := Closed;
        status := ReadSuccess;
      case Closed =>
        status, value' := ReadClosed, value;
      case Writable =>
        assert false;
    }

    /** `write_channel`: the copy and the move branch are the same assignment here. */
    method WriteChannel(value: T) returns (r: Result<WriteStatus>)
      modifies this
      ensures (Snap(), r) == WriteStep(old(Snap()), value)
      ensures old(state) == Writable ==> r == Ok(WriteSuccess) && slot == value && state == Readable
      ensures old(state) != Writable ==> r == Err(IllegalWrite) && unchanged(this)
    {
      if state == Writable {
        slot := value;
        state := Readable;
        r := Ok(WriteSuccess);
      } else {
        r := Err(IllegalWrite);
      }
    }

    /** `read`: the wait until the state is no longer writable has completed. */
    method Read(value: T) returns (status: ReadStatus, value': T)
      requires ReadReady(state)
      modifies this
      ensures (Snap(), status, value') == ReadStep(old(Snap()), value)
    {
      status, value' := ReadChannel(value);
    }

    /** `read_for`: `predicateHeld` is what the bounded wait returned, i.e. whether the state was no
        longer writable when it returned. If not, the read times out and nothing changes. */
    method ReadFor(value: T, predicateHeld: bool) returns (status: ReadStatus, value': T)
      requires predicateHeld == ReadReady(state)
      modifies this
      ensures !predicateHeld ==> status == ReadTimeout && value' == value && unchanged(this)
      ensures predicateHeld ==> (Snap(), status, value') == ReadStep(old(Snap()), value)
    {
      if predicateHeld {
        status, value' := ReadChannel(value);
      } else {
        status, value' := ReadTimeout, value;
      }
    }

    /** `read_until`: as `read_for`, with a deadline in place of a duration. */
    method ReadUntil(value: T, predicateHeld: bool) returns (status: ReadStatus, value': T)
      requires predicateHeld == ReadReady(state)
      modifies this
      ensures !predicateHeld ==> status == ReadTimeout && value' == value && unchanged(this)
      ensures predicateHeld ==> (Snap(), status, value') == ReadStep(old(Snap()), value)
    {
      if predicateHeld {
        status, value' := ReadChannel(value);
      } else {
        status, value' := ReadTimeout, value;
      }
    }

    /** `write` (both the copying and the moving overload): the wait until the state is no longer
        readable has completed. */
    method Write(value: T) returns (r: Result<WriteStatus>)
      requires WriteReady(state)
      modifies this
      ensures (Snap(), r) == WriteStep(old(Snap()), value)
    {
      r := WriteChannel(value);
    }

    /** `write_for`: if the state was still readable when the bounded wait returned,
        the write times out and nothing changes. */
    method WriteFor(value: T, predicateHeld: bool) returns (r: Result<WriteStatus>)
      requires predicateHeld == WriteReady(state)
      modifies this
      ensures !predicateHeld ==> r == Ok(WriteTimeout) && unchanged(this)
      ensures predicateHeld ==> (Snap(), r) == WriteStep(old(Snap()), value)
    {
      if predicateHeld {
        r := WriteChannel(value);
      } else {
        r := Ok(WriteTimeout);
      }
    }

    /** `write_until`: as `write_for`, with a deadline in place of a duration. */
    method WriteUntil(value: T, predicateHeld: bool) returns (r: Result<WriteStatus>)
      requires predicateHeld == WriteReady(state)
      modifies this
      ensures !predicateHeld ==> r == Ok(WriteTimeout) && unchanged(this)
      ensures predicateHeld ==> (Snap(), r) == WriteStep(old(Snap()), value)
    {
      if predicateHeld {
        r := WriteChannel(value);
      } else {
        r := Ok(WriteTimeout);
      }
    }
  }
}
