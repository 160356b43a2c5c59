/** The abstract behaviour of `buffered_channel<Type>`: a bounded FIFO queue with an open flag.
    The class in BufferedChannels is proved to follow these steps exactly; the unbuffered channel
    is proved to follow them with capacity 1. */
module BufferedModel {
  import opened ChannelErrors

  /** The unread items, oldest first, the capacity N and whether the channel is still open. */
  datatype BufState<T> = BufState(items: seq<T>, capacity: nat, open: bool)

  /** A channel has at least one cell and never holds more items than cells. */
  predicate Wf<T>(b: BufState<T>)
  {
    1 <= b.capacity && |b.items| <= b.capacity
  }

  /** The state right after construction with `size` cells. */
  function Initial<T>(size: nat): (b: BufState<T>)
    ensures 1 <= size ==> Wf(b) && WriteReady(b)
    ensures !ReadReady(b)
  {
    BufState([], size, true)
  }

  /** `is_readable`: the predicate a read waits for. */
  predicate ReadReady<T>(b: BufState<T>)
  {
    !b.open || |b.items| > 0
  }

  /** `is_writable`: the predicate a write waits for. */
  predicate WriteReady<T>(b: BufState<T>)
  {
    !b.open || |b.items| < b.capacity
  }

  /** `read_channel` once the wait is over: closed and empty reports closed and leaves the caller's
      variable `target` as it was; otherwise the oldest item is taken out and delivered. */
  function ReadStep<T>(b: BufState<T>, target: T): (r: (BufState<T>, ReadStatus, T))
    requires ReadReady(b)
    ensures Wf(b) ==> Wf(r.0)
    ensures r.1 != ReadTimeout
  {
    if !b.open && |b.items| == 0 then (b, ReadClosed, target)
    else (b.(items := b.items[1..]), ReadSuccess, b.items[0])
  }

  /** `write_channel` once the wait is over: an open channel appends the value; a closed one throws
      `illegal_write` whatever its occupancy. */
  function WriteStep<T>(b: BufState<T>, v: T): (r: (BufState<T>, Result<WriteStatus>))
    requires WriteReady(b)
    ensures Wf(b) ==> Wf(r.0)
    ensures r.1 != Ok(WriteTimeout)
  {
    if b.open then (b.(items := b.items + [v]), Ok(WriteSuccess))
    else (b, Err(IllegalWrite))
  }

  /** `close`: clears the open flag and nothing else. */
  function CloseStep<T>(b: BufState<T>): (r: BufState<T>)
    ensures !r.open && r.items == b.items && r.capacity == b.capacity
  {
    b.(open := false)
  }

  /** Close is idempotent, keeps the items for draining, and after it every write is illegal and every
      read can proceed. */
  lemma CloseProperties<T>(b: BufState<T>, v: T)
    ensures CloseStep(CloseStep(b)) == CloseStep(b)
    ensures CloseStep(b).items == b.items && CloseStep(b).capacity == b.capacity
    ensures ReadReady(CloseStep(b)) && WriteReady(CloseStep(b))
    ensures WriteStep(CloseStep(b), v) == (CloseStep(b), Err(IllegalWrite))
  {
  }

  /** A read of a channel that is open or still holds items delivers the oldest item, i.e. the
      closed status is reported only once the buffer has drained. */
  lemma ReadDeliversOldest<T>(b: BufState<T>, target: T)
    requires ReadReady(b) && |b.items| > 0
    ensures ReadStep(b, target) == (b.(items := b.items[1..]), ReadSuccess, b.items[0])
  {
  }
}
