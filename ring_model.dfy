/**
 * The value-level view of a fixed-capacity circular buffer: its N slots, the
 * next write index `head` and the next read index `tail`.  The class in
 * circular_buffer.dfy updates exactly these three components in place; the
 * functions here say what each of its operations does to them, and the
 * lemmas say what that means for the queued items.
 */
module RingModel {

  datatype Ring<T> = Ring(slots: seq<T>, head: nat, tail: nat)

  /** At least one slot, and both indices point at a slot. */
  predicate WellFormed<T>(r: Ring<T>) {
    0 < |r.slots| && r.head < |r.slots| && r.tail < |r.slots|
  }

  /** The number of queued items as modular arithmetic: (head - tail) mod N. */
  function Occupied<T>(r: Ring<T>): nat
    requires WellFormed(r)
  {
    (r.head - r.tail) % |r.slots|
  }

  /**
   * The queued items, oldest first: the slots from tail up to (not including)
   * head, wrapping around the end of the array when head is behind tail.
   */
  function Contents<T>(r: Ring<T>): seq<T>
    requires WellFormed(r)
  {
    if r.tail <= r.head then r.slots[r.tail..r.head]
    else r.slots[r.tail..] + r.slots[..r.head]
  }

  /** Store x at head, then advance head by one modulo N; tail is untouched. */
  function Push<T>(r: Ring<T>, x: T): (r': Ring<T>)
    requires WellFormed(r)
    ensures WellFormed(r') && |r'.slots| == |r.slots|
  {
    Ring(r.slots[r.head := x], (r.head + 1) % |r.slots|, r.tail)
  }

  /**
   * Read the slot at tail, then advance tail by one modulo N; head and the
   * slots are untouched.  There is no emptiness check.
   */
  function Pop<T>(r: Ring<T>): (res: (T, Ring<T>))
    requires WellFormed(r)
    ensures WellFormed(res.1) && res.1.slots == r.slots && res.1.head == r.head
  {
    (r.slots[r.tail], Ring(r.slots, r.head, (r.tail + 1) % |r.slots|))
  }

  /** Push every item of `items`, first to last, with no pop in between. */
  function PushAll<T>(r: Ring<T>, items: seq<T>): (r': Ring<T>)
    requires WellFormed(r)
    ensures WellFormed(r') && |r'.slots| == |r.slots|
    decreases |items|
  {
    if items == [] then r
    else Push(PushAll(r, items[..|items| - 1]), items[|items| - 1])
  }

  /** Pop k times; the popped items in the order they were returned, and the final state. */
  function PopMany<T>(r: Ring<T>, k: nat): (res: (seq<T>, Ring<T>))
    requires WellFormed(r)
    ensures WellFormed(res.1) && |res.1.slots| == |r.slots| && |res.0| == k
    decreases k
  {
    if k == 0 then ([], r)
    else
      var (x, r1) := Pop(r);
      var (xs, r2) := PopMany(r1, k - 1);
      ([x] + xs, r2)
  }

  // ---------------------------------------------------------------------
  // Arithmetic helper

  /** Reducing a value that lies within one period of [0, n) modulo n. */
  lemma ModWrap(a: int, n: int)
    requires 0 < n && -n <= a < 2 * n
    ensures a % n == if a < 0 then a + n else if a < n then a else a - n
  {}

  /** Euclidean division of a natural number. */
  lemma DivMod(a: nat, n: nat)
    requires 0 < n
    ensures a == (a / n) * n + a % n
  {}

  // ---------------------------------------------------------------------
  // The queued items

  /**
   * The two-branch count (head - tail when head is not behind tail, and
   * N - tail + head otherwise) is (head - tail) mod N, so at most N - 1
   * items are ever queued.
   */
  lemma ContentsCount<T>(r: Ring<T>)
    requires WellFormed(r)
    ensures |Contents(r)| == Occupied(r) < |r.slots|
    ensures |Contents(r)| == if r.head >= r.tail then r.head - r.tail else |r.slots| - r.tail + r.head
  {
    ModWrap(r.head - r.tail, |r.slots|);
  }

  /** The i-th oldest queued item sits in slot (tail + i) mod N. */
  lemma ContentsAt<T>(r: Ring<T>, i: nat)
    requires WellFormed(r) && i < |Contents(r)|
    ensures Contents(r)[i] == r.slots[(r.tail + i) % |r.slots|]
  {
    ModWrap(r.tail + i, |r.slots|);
  }

  /** head is always tail advanced by the number of queued items. */
  lemma HeadFollowsContents<T>(r: Ring<T>)
    requires WellFormed(r)
    ensures r.head == (r.tail + |Contents(r)|) % |r.slots|
  {
    ContentsCount(r);
    ModWrap(r.tail + |Contents(r)|, |r.slots|);
  }

  /** The buffer is empty, head == tail, exactly when nothing is queued. */
  lemma EmptyIffNoContents<T>(r: Ring<T>)
    requires WellFormed(r)
    ensures r.head == r.tail <==> Contents(r) == []
  {
    ContentsCount(r);
  }

  /** The buffer is full, (head + 1) mod N == tail, exactly when N - 1 items are queued. */
  lemma FullIffOneSlotFree<T>(r: Ring<T>)
    requires WellFormed(r)
    ensures (r.head + 1) % |r.slots| == r.tail <==> |Contents(r)| == |r.slots| - 1
  {
    ContentsCount(r);
    ModWrap(r.head + 1, |r.slots|);
  }

  /** For N >= 2 empty and full exclude each other; for N = 1 both always hold. */
  lemma EmptyAndFullIffSingleSlot<T>(r: Ring<T>)
    requires WellFormed(r)
    ensures (r.head == r.tail && (r.head + 1) % |r.slots| == r.tail) <==> |r.slots| == 1
  {
    ModWrap(r.head + 1, |r.slots|);
  }

  // ---------------------------------------------------------------------
  // One push, one pop

  /**
   * A push appends x behind the queued items, unless the buffer was full:
   * then head catches up with tail and the buffer looks empty, so every
   * queued item is lost (there is no overwrite-oldest handling).
   */
  lemma {:induction false} PushAppends<T>(r: Ring<T>, x: T)
    requires WellFormed(r)
    ensures Contents(Push(r, x)) ==
              if |Contents(r)| == |r.slots| - 1 then [] else Contents(r) + [x]
  {
    var n, r' := |r.slots|, Push(r, x);
    var s := |Contents(r)|;
    ContentsCount(r);
    HeadFollowsContents(r);
    ModWrap(r.tail + s, n);
    ModWrap(r.head + 1, n);
    ContentsCount(r');
    if s == n - 1 {
      assert r'.head == r'.tail;
    } else {
      assert |Contents(r')| == s + 1;
      forall i | 0 <= i < s + 1
        ensures Contents(r')[i] == (Contents(r) + [x])[i]
      {
        ContentsAt(r', i);
        ModWrap(r.tail + i, n);
        if i < s {
          ContentsAt(r, i);
        }
      }
    }
  }

  /** On a non-empty buffer, pop returns the oldest item and leaves the rest queued in order. */
  lemma {:induction false} PopTakesOldest<T>(r: Ring<T>)
    requires WellFormed(r) && Contents(r) != []
    ensures Pop(r).0 == Contents(r)[0]
    ensures Contents(Pop(r).1) == Contents(r)[1..]
  {
    var n, r' := |r.slots|, Pop(r).1;
    var s := |Contents(r)|;
    ContentsCount(r);
    ContentsAt(r, 0);
    ModWrap(r.tail + 1, n);
    ContentsCount(r');
    assert |Contents(r')| == s - 1;
    forall i | 0 <= i < s - 1
      ensures Contents(r')[i] == Contents(r)[1..][i]
    {
      ContentsAt(r', i);
      ContentsAt(r, i + 1);
      ModWrap(r.tail + 1 + i, n);
      ModWrap(r'.tail + i, n);
    }
  }

  /**
   * A pop on an empty buffer is not refused: it returns the stale slot at
   * tail and leaves the buffer looking as if it held N - 1 items.
   */
  lemma PopOnEmptyExposesStale<T>(r: Ring<T>)
    requires WellFormed(r) && Contents(r) == []
    ensures Pop(r).0 == r.slots[r.tail]
    ensures |Contents(Pop(r).1)| == |r.slots| - 1
  {
    EmptyIffNoContents(r);
    ContentsCount(Pop(r).1);
    ModWrap(r.tail + 1, |r.slots|);
  }

  // ---------------------------------------------------------------------
  // Sequences of operations

  /** Pushing without wrapping appends the items in order. */
  lemma {:induction false} PushAllAppends<T>(r: Ring<T>, items: seq<T>)
    requires WellFormed(r) && |Contents(r)| + |items| < |r.slots|
    ensures Contents(PushAll(r, items)) == Contents(r) + items
    decreases |items|
  {
    if items != [] {
      var front, last := items[..|items| - 1], items[|items| - 1];
      PushAllAppends(r, front);
      PushAppends(PushAll(r, front), last);
      assert front + [last] == items;
    }
  }

  /** Popping k <= |Contents| times returns the k oldest items and leaves the others queued. */
  lemma {:induction false} PopManyTakesOldest<T>(r: Ring<T>, k: nat)
    requires WellFormed(r) && k <= |Contents(r)|
    ensures PopMany(r, k).0 == Contents(r)[..k]
    ensures Contents(PopMany(r, k).1) == Contents(r)[k..]
    decreases k
  {
    if k > 0 {
      PopTakesOldest(r);
      var r1 := Pop(r).1;
      PopManyTakesOldest(r1, k - 1);
      assert Contents(r1)[..k - 1] == Contents(r)[1..k];
      assert Contents(r1)[k - 1..] == Contents(r)[k..];
    }
  }

  /**
   * FIFO: from an empty buffer, pushing k <= N - 1 items and then popping k
   * times returns them in push order and leaves the buffer empty.
   */
  lemma Fifo<T>(r: Ring<T>, items: seq<T>)
    requires WellFormed(r) && Contents(r) == [] && |items| <= |r.slots| - 1
    ensures PopMany(PushAll(r, items), |items|).0 == items
    ensures Contents(PopMany(PushAll(r, items), |items|).1) == []
  {
    PushAllAppends(r, items);
    PopManyTakesOldest(PushAll(r, items), |items|);
  }

  /**
   * With no pops, pushing k * N + j items (j < N) into an empty buffer keeps
   * only the last j of them: every N-th push makes the buffer look empty.
   * The count is written Times(k, N), k * N as repeated addition, so that
   * the induction stays linear; PushAllFromEmpty restates the result with
   * the remainder |items| mod N.
   */
  lemma {:induction false} PushAllKeepsSinceLastWrap<T>(r: Ring<T>, items: seq<T>, k: nat, j: nat)
    requires WellFormed(r) && Contents(r) == []
    requires j < |r.slots| && |items| == Times(k, |r.slots|) + j
    ensures Contents(PushAll(r, items)) == items[Times(k, |r.slots|)..]
    decreases |items|
  {
    var n := |r.slots|;
    if items != [] {
      var front, last := items[..|items| - 1], items[|items| - 1];
      assert items == front + [last];
      if j > 0 {
        PushAllKeepsSinceLastWrap(r, front, k, j - 1);
        PushAfterDrop(PushAll(r, front), front, last, Times(k, n));
      } else {
        PushAllKeepsSinceLastWrap(r, front, k - 1, n - 1);
        PushAppends(PushAll(r, front), last);
      }
    }
  }

  /** If the queue is front with its first b items dropped and has room, a push extends it by one. */
  lemma PushAfterDrop<T>(p: Ring<T>, front: seq<T>, last: T, b: nat)
    requires WellFormed(p) && b <= |front| && Contents(p) == front[b..]
    requires |front| - b < |p.slots| - 1
    ensures Contents(Push(p, last)) == (front + [last])[b..]
  {
    PushAppends(p, last);
    assert (front + [last])[b..] == front[b..] + [last];
  }

  /** k * n as repeated addition, which keeps the wrap-around argument linear. */
  function Times(k: nat, n: nat): nat {
    if k == 0 then 0 else Times(k - 1, n) + n
  }

  /** a is Times(k, n) plus the remainder j = a mod n. */
  lemma {:induction false} SplitByCapacity(a: nat, n: nat) returns (k: nat, j: nat)
    requires 0 < n
    ensures j == a % n && j < n && Times(k, n) + j == a
  {
    DivMod(a, n);
    k, j := a / n, a % n;
    TimesIsProduct(k, n);
  }

  /** Repeated addition is multiplication. */
  lemma {:induction false} TimesIsProduct(k: nat, n: nat)
    ensures Times(k, n) == k * n
  {
    if k > 0 {
      TimesIsProduct(k - 1, n);
    }
  }

  /** The same fact with the quotient and remainder computed: only the last |items| mod N pushes survive. */
  lemma PushAllFromEmpty<T>(r: Ring<T>, items: seq<T>)
    requires WellFormed(r) && Contents(r) == []
    ensures Contents(PushAll(r, items)) == items[|items| - |items| % |r.slots|..]
  {
    var n := |r.slots|;
    var k, j := SplitByCapacity(|items|, n);
    PushAllKeepsSinceLastWrap(r, items, k, j);
  }

  /**
   * The scenario "capacity 4, push A, B, C, D, E, no pops": the code keeps
   * only E (the fourth push made the buffer look empty), not B, C, D, E.
   */
  lemma FourSlotsFivePushes<T>(r: Ring<T>, a: T, b: T, c: T, d: T, e: T)
    requires WellFormed(r) && Contents(r) == [] && |r.slots| == 4
    ensures Contents(PushAll(r, [a, b, c, d, e])) == [e]
  {
    PushAllFromEmpty(r, [a, b, c, d, e]);
  }
}
