/**
 * The Logger of async_logger: a queue of capacity 1000 holding formatted
 * messages, and a consumer that pops them one at a time and writes each to
 * the console.  Threads are removed: the consumer loop runs for a given
 * number of iterations (the point at which it would observe the shutdown
 * flag), and the console is a sequence of written lines.
 */
module AsyncLogger {
  import RingModel
  import CircularBuffers

  /** The capacity of the Logger's message queue. */
  const QueueCapacity: nat := 1000

  /**
   * One iteration of the consumer loop on a queue state and the console
   * output so far: an empty queue is left alone (the loop only signals and
   * yields); otherwise one item is popped and written.
   */
  function ConsumerStep(q: RingModel.Ring<string>, console: seq<string>): (res: (RingModel.Ring<string>, seq<string>))
    requires RingModel.WellFormed(q)
    ensures RingModel.WellFormed(res.0) && |res.0.slots| == |q.slots|
    ensures RingModel.Contents(q) == [] ==> res == (q, console)
    ensures RingModel.Contents(q) != [] ==>
              res.1 == console + [RingModel.Contents(q)[0]] &&
              RingModel.Contents(res.0) == RingModel.Contents(q)[1..]
  {
    RingModel.EmptyIffNoContents(q);
    if q.head == q.tail then (q, console)
    else
      RingModel.PopTakesOldest(q);
      var (message, q') := RingModel.Pop(q);
      (q', console + [message])
  }

  /** The smaller of two counts. */
  function Min(a: nat, b: nat): nat {
    if a < b then a else b
  }

  /**
   * k iterations of the consumer loop with no producer pushing in between:
   * they write the min(k, |queue|) oldest items to the console, in queue
   * order, and leave the remaining ones queued.
   */
  function ConsumerSteps(q: RingModel.Ring<string>, console: seq<string>, k: nat): (res: (RingModel.Ring<string>, seq<string>))
    requires RingModel.WellFormed(q)
    ensures RingModel.WellFormed(res.0) && |res.0.slots| == |q.slots|
    ensures res.1 == console + RingModel.Contents(q)[..Min(k, |RingModel.Contents(q)|)]
    ensures RingModel.Contents(res.0) == RingModel.Contents(q)[Min(k, |RingModel.Contents(q)|)..]
    decreases k
  {
    if k == 0 then
      var s := RingModel.Contents(q);
      assert s[..0] == [] && s[0..] == s;
      (q, console)
    else
      var prev := ConsumerSteps(q, console, k - 1);
      ConsumerStepExtends(prev.0, prev.1, console, RingModel.Contents(q), Min(k - 1, |RingModel.Contents(q)|));
      ConsumerStep(prev.0, prev.1)
  }

  /** One more iteration moves the next queued item, if any, from the queue to the console. */
  lemma ConsumerStepExtends(q: RingModel.Ring<string>, c: seq<string>, console: seq<string>, s: seq<string>, m: nat)
    requires RingModel.WellFormed(q) && m <= |s|
    requires c == console + s[..m] && RingModel.Contents(q) == s[m..]
    ensures var m' := if m < |s| then m + 1 else m;
            ConsumerStep(q, c).1 == console + s[..m'] &&
            RingModel.Contents(ConsumerStep(q, c).0) == s[m'..]
  {
    if m < |s| {
      assert s[m..][0] == s[m];
      assert s[..m] + [s[m]] == s[..m + 1];
      assert s[m..][1..] == s[m + 1..];
    }
  }

  /**
   * Draining: with no intervening pushes the consumer writes every queued
   * item in FIFO order, and the queue becomes empty exactly after as many
   * iterations as there were queued items.
   */
  lemma DrainEmitsAllInOrder(q: RingModel.Ring<string>, console: seq<string>, k: nat)
    requires RingModel.WellFormed(q)
    ensures k == |RingModel.Contents(q)| ==>
              ConsumerSteps(q, console, k).1 == console + RingModel.Contents(q)
    ensures RingModel.Contents(ConsumerSteps(q, console, k).0) == [] <==> k >= |RingModel.Contents(q)|
  {
    var s := RingModel.Contents(q);
    assert s[..|s|] == s;
  }

  /** A queue of capacity 1000 holds at most 999 pending messages. */
  lemma QueueHoldsAtMost999(q: RingModel.Ring<string>)
    requires RingModel.WellFormed(q) && |q.slots| == QueueCapacity
    ensures |RingModel.Contents(q)| <= 999
  {
    RingModel.ContentsCount(q);
  }

  class Logger {
    const queue: CircularBuffers.CircularBuffer<string>
    var console: seq<string>  // the lines written to standard output

    ghost predicate Valid()
      reads this, queue
    {
      queue.Valid() && queue.buffer.Length == QueueCapacity
    }

    /** A new logger has an empty queue of 1000 slots and has written nothing. */
    constructor ()
      ensures Valid() && fresh(queue) && fresh(queue.buffer)
      ensures queue.Contents() == [] && console == []
    {
      queue := new CircularBuffers.CircularBuffer<string>(QueueCapacity);
      console := [];
    }

    /**
     * Push an already formatted message onto the queue (the formatting
     * itself is a parameter of the model).
     */
    method Log(message: string)
      requires Valid()
      modifies queue, queue.buffer
      ensures Valid() && console == old(console)
      ensures queue.State() == RingModel.Push(old(queue.State()), message)
    {
      queue.Push(message);
    }

    /** One iteration of the consumer loop's body. */
    method ConsumerIteration()
      requires Valid()
      modifies this, queue
      ensures Valid()
      ensures (queue.State(), console) == ConsumerStep(old(queue.State()), old(console))
    {
      if !queue.Empty() {
        var message := queue.Pop();
        console := console + [message];
      }
    }

    /**
     * The consumer loop, run for `polls` iterations before it observes the
     * shutdown flag, with no producer pushing meanwhile.
     */
    method ConsumerThread(polls: nat)
      requires Valid()
      modifies this, queue
      ensures Valid()
      ensures (queue.State(), console) == ConsumerSteps(old(queue.State()), old(console), polls)
    {
      ghost var q0, c0 := queue.State(), console;
      var i := 0;
      while i < polls
        invariant 0 <= i <= polls
        invariant Valid()
        invariant (queue.State(), console) == ConsumerSteps(q0, c0, i)
      {
        ConsumerIteration();
        i := i + 1;
      }
    }
  }
}
