/**
 * The fixed-capacity circular buffer CircularBuffer<T, N>: an array of N
 * slots, the next write index `head` and the next read index `tail`.  Push
 * and Pop update the array and the indices in place; Empty, Full and
 * BufferSize only read them.  The mutex that guards push and pop is not
 * part of this sequential model.
 */
module CircularBuffers {
  import RingModel

  class CircularBuffer<T(0)> {
    const buffer: array<T>
    var head: nat  // current write position
    var tail: nat  // current read position

    /** Both indices stay inside the array, which has at least one slot. */
    ghost predicate Valid()
      reads this
    {
      0 < buffer.Length && head < buffer.Length && tail < buffer.Length
    }

    /** The buffer as a value: its slots and its two indices. */
    ghost function State(): (r: RingModel.Ring<T>)
      reads this, buffer
      ensures Valid() ==> RingModel.WellFormed(r) && |r.slots| == buffer.Length
    {
      RingModel.Ring(buffer[..], head, tail)
    }

    /** The queued items, oldest first. */
    ghost function Contents(): seq<T>
      reads this, buffer
      requires Valid()
    {
      RingModel.Contents(State())
    }

    /** A new buffer of n slots (n > 0) starts with both indices at 0, so it is empty. */
    constructor (n: nat)
      requires 0 < n
      ensures Valid() && fresh(buffer) && buffer.Length == n
      ensures head == 0 && tail == 0
      ensures Empty() && Contents() == []
    {
      buffer := new T[n];
      head, tail := 0, 0;
      new;
      RingModel.EmptyIffNoContents(State());
    }

    /**
     * Store item at head and advance head modulo N.  There is no full check:
     * on a full buffer head catches up with tail and all queued items are lost.
     */
    method Push(item: T)
      requires Valid()
      modifies this, buffer
      ensures Valid()
      ensures buffer[..] == old(buffer[..])[old(head) := item]
      ensures head == (old(head) + 1) % buffer.Length && tail == old(tail)
      ensures State() == RingModel.Push(old(State()), item)
      ensures Contents() == if old(Full()) then [] else old(Contents()) + [item]
    {
      ghost var before := State();
      RingModel.FullIffOneSlotFree(before);
      RingModel.PushAppends(before, item);
      buffer[head] := item;
      head := (head + 1) % buffer.Length;
    }

    /**
     * Return the slot at tail and advance tail modulo N.  There is no empty
     * check: on a non-empty buffer the result is the oldest item; on an empty
     * one it is a stale slot and the buffer then looks as if it held N - 1 items.
     */
    method Pop() returns (item: T)
      requires Valid()
      modifies this
      ensures Valid()
      ensures item == buffer[old(tail)]
      ensures tail == (old(tail) + 1) % buffer.Length && head == old(head)
      ensures (item, State()) == RingModel.Pop(old(State()))
      ensures !old(Empty()) ==> item == old(Contents())[0] && Contents() == old(Contents())[1..]
      ensures old(Empty()) ==> |Contents()| == buffer.Length - 1
    {
      ghost var before := State();
      RingModel.EmptyIffNoContents(before);
      if before.head != before.tail {
        RingModel.PopTakesOldest(before);
      } else {
        RingModel.PopOnEmptyExposesStale(before);
      }
      item := buffer[tail];
      tail := (tail + 1) % buffer.Length;
    }

    /** head == tail: exactly when nothing is queued. */
    predicate Empty()
      reads this, buffer
      requires Valid()
      ensures Empty() <==> Contents() == []
    {
      RingModel.EmptyIffNoContents(State());
      head == tail
    }

    /** (head + 1) mod N == tail: exactly when N - 1 items are queued, the most it can hold. */
    predicate Full()
      reads this, buffer
      requires Valid()
      ensures Full() <==> |Contents()| == buffer.Length - 1
    {
      RingModel.FullIffOneSlotFree(State());
      (head + 1) % buffer.Length == tail
    }

    /**
     * The number of queued items, computed in two branches (head - tail when
     * head is not behind tail, N - tail + head otherwise); it is
     * (head - tail) mod N, below N, and 0 exactly when the buffer is empty.
     */
    method BufferSize() returns (queuedItems: nat)
      requires Valid()
      ensures queuedItems == RingModel.Occupied(State())
      ensures queuedItems == |Contents()| && queuedItems < buffer.Length
      ensures queuedItems == 0 <==> Empty()
    {
      RingModel.ContentsCount(State());
      queuedItems := 0;
      if head >= tail {
        queuedItems := head - tail;
      } else {
        queuedItems := buffer.Length - tail + head;
      }
    }
  }

  /** For N >= 2 a buffer is never both empty and full; for N = 1 it always is both. */
  lemma EmptyAndFullIffSingleSlot<T(0)>(b: CircularBuffer<T>)
    requires b.Valid()
    ensures (b.Empty() && b.Full()) <==> b.buffer.Length == 1
  {
    RingModel.EmptyAndFullIffSingleSlot(b.State());
  }
}
