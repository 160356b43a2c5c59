/** `buffered_channel<Type>`: a fixed-capacity ring buffer whose fields the operations update in place. */
module BufferedChannels {
  import opened ChannelErrors
  import opened BufferedModel

  /** Reduction modulo n of a number below 2n, which is all the ring positions ever need. */
  lemma ModBelowTwice(x: int, n: int)
    requires 0 < n && 0 <= x < 2 * n
    ensures x % n == if x < n then x else x - n
  {
    if x < n {
      assert x == n * 0 + x;
    } else {
      assert x == n * 1 + (x - n);
    }
  }

  class BufferedChannel<T(0)> {
    /** `_values`: the N cells of the ring. */
    var values: array<T>
    /** `_read_position`, `_write_position`, `_count`, `_open`. */
    var readPosition: nat
    var writePosition: nat
    var count: nat
    var open: bool
    /** The unread items, oldest first. */
    ghost var contents: seq<T>

    /** The ring invariant: positions inside the buffer, at most N items, the write position `count`
        cells after the read position, and `contents` being the `count` cells from the read position on,
        counted modulo N. */
    ghost predicate Valid()
      reads this, values
    {
      1 <= values.Length &&
      readPosition < values.Length && writePosition < values.Length &&
      count <= values.Length &&
      writePosition == (readPosition + count) % values.Length &&
      |contents| == count &&
      forall i :: 0 <= i < count ==> contents[i] == values[(readPosition + i) % values.Length]
    }

    /** The channel as a bounded FIFO queue. */
    ghost function Abstract(): (b: BufState<T>)
      reads this
    {
      BufState(contents, values.Length, open)
    }

    /** A valid ring is a well-formed queue: at least one cell, never more items than cells. */
    lemma ValidIsWellFormed()
      requires Valid()
      ensures Wf(Abstract())
    {
    }

    /** `is_readable`: closed, or holding at least one item. */
    predicate IsReadable()
      reads this
    {
      !open || count > 0
    }

    /** `is_writable`: closed, or holding fewer items than cells. */
    predicate IsWritable()
      reads this
    {
      !open || count < values.Length
    }

    /** The class's wait predicates are the queue's. */
    lemma WaitPredicatesAgree()
      requires Valid()
      ensures IsReadable() == ReadReady(Abstract())
      ensures IsWritable() == WriteReady(Abstract())
    {
    }

    /** The constructor once `size` has been checked: N default-constructed cells, both positions at 0,
        no items, open. */
    constructor (size: nat)
      requires size > 0
      ensures Valid() && fresh(values)
      ensures values.Length == size && readPosition == 0 && writePosition == 0 && count == 0 && open
      ensures Abstract() == Initial(size)
    {
      values := new T[size];
      readPosition, writePosition, count, open := 0, 0, 0, true;
      contents := [];
    }

    /** `read_channel`, entered with the read predicate holding. Closed and empty: reports closed and
        changes nothing. Otherwise: delivers the cell at the read position, advances the read position
        modulo N and decrements the count; in terms of the queue, pops its head. */
    method ReadChannel(value: T) returns (status: ReadStatus, value': T)
      requires Valid() && IsReadable()
      modifies this
      ensures Valid() && values == old(values)
      ensures (Abstract(), status, value') == ReadStep(old(Abstract()), value)
      ensures status == ReadClosed <==> !old(open) && old(count) == 0
      ensures status == ReadClosed ==> value' == value && unchanged(this)
      ensures status == ReadSuccess ==>
        value' == old(values[readPosition]) && value' == old(contents)[0] && contents == old(contents)[1..] &&
        readPosition == (old(readPosition) + 1) % values.Length && count == old(count) - 1 &&
        writePosition == old(writePosition) && open == old(open)
    {
      if !open && count == 0 {
        status, value' := ReadClosed, value;
      } else {
        var n := values.Length;
        value' := values[readPosition];
        assert value' == contents[0] by {
          ModBelowTwice(readPosition, n);
        }
        ghost var oldRead, oldContents := readPosition, contents;
        readPosition := (readPosition + 1) % n;
        count := count - 1;
        contents := contents[1..];
        status := ReadSuccess;
        ModBelowTwice(oldRead + 1, n);
        forall i | 0 <= i < count
          ensures contents[i] == values[(readPosition + i) % n]
        {
          ModBelowTwice(oldRead + 1 + i, n);
          ModBelowTwice(readPosition + i, n);
          assert contents[i] == oldContents[i + 1];
        }
        ModBelowTwice(oldRead + count + 1, n);
        ModBelowTwice(readPosition + count, n);
      }
    }

    /** `write_channel`, entered with the write predicate holding. Open: stores the value at the write
        position, increments the count and advances the write position modulo N; in terms of the queue,
        appends the value. Closed: throws `illegal_write` and changes nothing, whatever the occupancy. */
    method WriteChannel(value: T) returns (r: Result<WriteStatus>)
      requires Valid() && IsWritable()
      modifies this, values
      ensures Valid() && values == old(values)
      ensures (Abstract(), r) == WriteStep(old(Abstract()), value)
      ensures r.Ok? <==> old(open)
      ensures !old(open) ==> r == Err(IllegalWrite) && unchanged(this) && unchanged(values)
      ensures old(open) ==>
        r == Ok(WriteSuccess) && contents == old(contents) + [value] &&
        values[..] == old(values[..])[old(writePosition) := value] &&
        count == old(count) + 1 && count <= values.Length &&
        writePosition == (old(writePosition) + 1) % values.Length &&
        readPosition == old(readPosition) && open
    {
      if open {
        var n := values.Length;
        ghost var oldWrite, oldContents := writePosition, contents;
        ModBelowTwice(readPosition + count, n);
        values[writePosition] := value;
        count := count + 1;
        writePosition := (writePosition + 1) % n;
        contents := contents + [value];
        r := Ok(WriteSuccess);
        ModBelowTwice(oldWrite + 1, n);
        ModBelowTwice(readPosition + count, n);
        forall i | 0 <= i < count
          ensures contents[i] == values[(readPosition + i) % n]
        {
          if i < count - 1 {
            ModBelowTwice(readPosition + i, n);
            assert contents[i] == oldContents[i];
          }
        }
      } else {
        r := Err(IllegalWrite);
      }
    }

    /** `close`: clears the open flag and nothing else, so the flag only ever goes from true to false
        and the items already written stay readable. */
    method Close()
      requires Valid()
      modifies this
      ensures Valid() && values == old(values)
      ensures Abstract() == CloseStep(old(Abstract()))
      ensures !open && contents == old(contents) && count == old(count)
      ensures readPosition == old(readPosition) && writePosition == old(writePosition)
    {
      open := false;
    }

    /** `read`: the wait on `is_readable` has completed. */
    method Read(value: T) returns (status: ReadStatus, value': T)
      requires Valid() && IsReadable()
      modifies this
      ensures Valid() && values == old(values)
      ensures (Abstract(), status, value') == ReadStep(old(Abstract()), value)
    {
      status, value' := ReadChannel(value);
    }

    /** `read_for`: `predicateHeld` is what the bounded wait returned, i.e. whether `is_readable` held
        when it returned. If it did not, the read times out and nothing changes. */
    method ReadFor(value: T, predicateHeld: bool) returns (status: ReadStatus, value': T)
      requires Valid() && predicateHeld == IsReadable()
      modifies this
      ensures Valid() && values == old(values)
      ensures !predicateHeld ==> status == ReadTimeout && value' == value && unchanged(this)
      ensures predicateHeld ==> (Abstract(), status, value') == ReadStep(old(Abstract()), value)
    {
      if predicateHeld {
        status, value' := ReadChannel(value);
      } else {
        status, value' := ReadTimeout, value;
      }
    }

    /** `read_until`: as `read_for`, with a deadline in place of a duration. */
    method ReadUntil(value: T, predicateHeld: bool) returns (status: ReadStatus, value': T)
      requires Valid() && predicateHeld == IsReadable()
      modifies this
      ensures Valid() && values == old(values)
      ensures !predicateHeld ==> status == ReadTimeout && value' == value && unchanged(this)
      ensures predicateHeld ==> (Abstract(), status, value') == ReadStep(old(Abstract()), value)
    {
      if predicateHeld {
        status, value' := ReadChannel(value);
      } else {
        status, value' := ReadTimeout, value;
      }
    }

    /** `write`: the wait on `is_writable` has completed. */
    method Write(value: T) returns (r: Result<WriteStatus>)
      requires Valid() && IsWritable()
      modifies this, values
      ensures Valid() && values == old(values)
      ensures (Abstract(), r) == WriteStep(old(Abstract()), value)
    {
      r := WriteChannel(value);
    }

    /** `write_for`: if `is_writable` did not hold when the bounded wait returned, the write times out
        and nothing changes. */
    method WriteFor(value: T, predicateHeld: bool) returns (r: Result<WriteStatus>)
      requires Valid() && predicateHeld == IsWritable()
      modifies this, values
      ensures Valid() && values == old(values)
      ensures !predicateHeld ==> r == Ok(WriteTimeout) && unchanged(this) && unchanged(values)
      ensures predicateHeld ==> (Abstract(), r) == WriteStep(old(Abstract()), value)
    {
      if predicateHeld {
        r := WriteChannel(value);
      } else {
        r := Ok(WriteTimeout);
      }
    }

    /** `write_until`: as `write_for`, with a deadline in place of a duration. */
    method WriteUntil(value: T, predicateHeld: bool) returns (r: Result<WriteStatus>)
      requires Valid() && predicateHeld == IsWritable()
      modifies this, values
      ensures Valid() && values == old(values)
      ensures !predicateHeld ==> r == Ok(WriteTimeout) && unchanged(this) && unchanged(values)
      ensures predicateHeld ==> (Abstract(), r) == WriteStep(old(Abstract()), value)
    {
      if predicateHeld {
        r := WriteChannel(value);
      } else {
        r := Ok(WriteTimeout);
      }
    }
  }

  /** The `buffered_channel(size)` constructor with its check: size 0 throws `invalid_size` and yields
      no channel; otherwise the channel starts open, empty, with both positions at 0 over `size` cells. */
  method NewBufferedChannel<T(0)>(size: nat) returns (r: Result<BufferedChannel<T>>)
    ensures r.Err? <==> size == 0
    ensures r.Err? ==> r.error == InvalidSize
    ensures r.Ok? ==>
      fresh(r.value) && fresh(r.value.values) && r.value.Valid() &&
      r.value.values.Length == size && r.value.readPosition == 0 && r.value.writePosition == 0 &&
      r.value.count == 0 && r.value.open && r.value.Abstract() == Initial(size)
  {
    if size == 0 {
      r := Err(InvalidSize);
    } else {
      var c := new BufferedChannel<T>(size);
      r := Ok(c);
    }
  }
}
