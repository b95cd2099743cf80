# async_log: the circular message buffer, modelled in Dafny

async_log is a small asynchronous logger. Producer threads format a message
and push it onto a fixed-capacity circular buffer. One consumer thread pops
the messages and writes each one to standard output. This project models the
sequential behaviour of that buffer and of one consumer, and proves what it
means for the queued messages.

- `ring_model.dfy` (module `RingModel`) is the buffer as a value: N slots,
  `head` (next write index) and `tail` (next read index). It defines the
  queued items (`Contents`) and the effect of push and pop, and proves the
  index facts, FIFO order and what happens to a full buffer.
- `circular_buffer.dfy` (module `CircularBuffers`) is the class
  `CircularBuffer<T, N>`: an `array` of slots and the two indices, updated in
  place. Each method's contract gives the new array and indices, ties the new
  state to the matching `RingModel` function, and says what happens to the
  queued items. The source has two copies of this class
  (`src/circular_buffer.h:16-121` and `src/async_logger.h:39-100`). In
  the first, `push` moves its argument into the slot and `pop` moves the
  item out of it (`std::move(buffer[tail])`, line 70); in the second,
  `push` takes its argument by value and `pop` copies the slot
  (`src/async_logger.h:67`). Otherwise they are the same, so one Dafny
  class models both, with slots as plain values that a pop leaves in place.
  That is exact for the copying version; for the moving version the slot a
  pop leaves behind holds a moved-from value, so what a pop on an empty
  buffer returns there is not what `Pop` states (see "Move semantics"
  under "## Left out").
- `async_logger.dfy` (module `AsyncLogger`) is the `Logger`. It holds a queue
  of 1000 slots and a `console` sequence that stands for standard output.
  `ConsumerIteration` is one pass of the consumer loop's body.
  `ConsumerThread(polls)` runs that body `polls` times with no producer
  active; `polls` is the point at which the loop would see the shutdown flag.

A push into a full buffer does not overwrite the oldest unread item, as an
overwrite-on-full ring buffer would. `push` writes `buffer[head]` and
advances `head` with no full check (`src/circular_buffer.h:51-52`). A full
buffer holds N - 1 items, so that push makes `head == tail` and the buffer
then looks empty: every queued item is lost, not just the oldest one.
`RingModel.PushAppends` and `RingModel.PushAllFromEmpty` prove this. From
empty, 4 slots and pushes A..E with no pops keep only E
(`RingModel.FourSlotsFivePushes`), where an overwrite-oldest buffer would
keep B, C, D, E.

`pop` has no emptiness check either (`src/circular_buffer.h:70-71`). The
model does not add one as a precondition. Instead, `Pop` states both cases:
on a non-empty buffer it returns the oldest item; on an empty one it returns
the stale slot at `tail` and the buffer then looks as if it held N - 1
items. The logger's consumer only pops after seeing the queue non-empty.

The indices are `size_t` in the source. Both stay below N, and N is a
positive `int` template parameter, so `head + 1`, `head - tail` (on its
branch) and `N - tail + head` never wrap around. The model uses unbounded
`nat` with no wrap-around.

## Model

| member | source | states |
|---|---|---|
| RingModel.Push | src/circular_buffer.h:47-53 | the push transition: slot `head` gets the item, `head` advances modulo N, `tail` is kept; the result is again a well-formed buffer with the same capacity |
| RingModel.Pop | src/circular_buffer.h:66-73 | the pop transition: the result is slot `tail`, `tail` advances modulo N, `head` and the slots are kept, and the buffer stays well formed |
| RingModel.ContentsCount | src/circular_buffer.h:103-120 | the number of queued items equals both `buffer_size`'s two-branch count and (head - tail) mod N, and is below N |
| RingModel.ContentsAt | src/circular_buffer.h:23-27 | the i-th oldest queued item sits in slot (tail + i) mod N |
| RingModel.HeadFollowsContents | src/circular_buffer.h:26-27 | `head` is always `tail` advanced by the number of queued items, modulo N |
| RingModel.EmptyIffNoContents | src/circular_buffer.h:78-81 | `head == tail` holds exactly when no item is queued |
| RingModel.FullIffOneSlotFree | src/circular_buffer.h:86-89 | `(head + 1) % N == tail` holds exactly when N - 1 items are queued |
| RingModel.EmptyAndFullIffSingleSlot | src/async_logger.h:72-80 | the empty and full tests both hold exactly when N = 1; for N >= 2 they never hold together |
| RingModel.PushAppends | src/circular_buffer.h:47-53 | a push adds the item behind the queued ones, unless N - 1 items were queued: then nothing is queued afterwards |
| RingModel.PopTakesOldest | src/circular_buffer.h:66-73 | on a non-empty buffer a pop returns the oldest item and leaves the others queued in order |
| RingModel.PopOnEmptyExposesStale | src/circular_buffer.h:66-73 | a pop on an empty buffer returns the stale slot at `tail` and the buffer then shows N - 1 items |
| RingModel.PushAllAppends | src/circular_buffer.h:47-53 | pushes with no pops, while fewer than N items would be queued, append the items in push order |
| RingModel.PopManyTakesOldest | src/circular_buffer.h:66-73 | k pops, k at most the queue length, return the k oldest items in order and leave the rest queued |
| RingModel.Fifo | src/circular_buffer.h:47-73 | from empty, pushing k <= N - 1 items and popping k times returns them in push order and leaves the buffer empty |
| RingModel.PushAllKeepsSinceLastWrap | src/circular_buffer.h:47-53 | from empty, Times(k, N) + j pushes (j < N, Times(k, N) being k * N as repeated addition) with no pops leave exactly the last j items queued |
| RingModel.PushAllFromEmpty | src/circular_buffer.h:47-53 | from empty, pushes with no pops leave exactly the last (count mod N) items queued |
| RingModel.FourSlotsFivePushes | src/circular_buffer.h:47-53 | with 4 slots, pushing A, B, C, D, E from empty leaves only E queued |
| CircularBuffers.CircularBuffer.constructor | src/circular_buffer.h:33-34 | a new buffer of N > 0 slots has `head == tail == 0`; it is empty and holds no items |
| CircularBuffers.CircularBuffer.Push | src/circular_buffer.h:47-53 | the array gets the item at the old `head` and no other slot changes; `head` advances modulo N and `tail` is kept; the items are the old ones plus the new one, or none if the buffer was full |
| CircularBuffers.CircularBuffer.Pop | src/circular_buffer.h:66-73 | returns the slot at the old `tail`; `tail` advances modulo N, `head` and the array are kept; on a non-empty buffer that slot is the oldest item and the rest stay queued in order, on an empty one N - 1 stale items appear |
| CircularBuffers.CircularBuffer.Empty | src/circular_buffer.h:78-81 | true exactly when no item is queued |
| CircularBuffers.CircularBuffer.Full | src/circular_buffer.h:86-89 | true exactly when N - 1 items, the most the buffer can hold, are queued |
| CircularBuffers.CircularBuffer.BufferSize | src/circular_buffer.h:103-120 | the two-branch count equals (head - tail) mod N and the number of queued items; it is below N and is 0 exactly when the buffer is empty |
| CircularBuffers.EmptyAndFullIffSingleSlot | src/circular_buffer.h:78-89 | `empty()` and `full()` both hold exactly when N = 1 |
| AsyncLogger.QueueHoldsAtMost999 | src/async_logger.h:110 | the Logger's 1000-slot queue never holds more than 999 pending messages |
| AsyncLogger.ConsumerStep | src/async_logger.h:150-161 | one consumer iteration leaves an empty queue and the console unchanged; on a non-empty queue it removes exactly the oldest item and appends it to the console |
| AsyncLogger.ConsumerSteps | src/async_logger.h:148-162 | k consumer iterations with no pushes write the min(k, queue length) oldest items to the console in queue order and leave the remaining ones queued |
| AsyncLogger.DrainEmitsAllInOrder | src/async_logger.h:148-162 | as many iterations as there are queued items write all of them in FIFO order; the queue is empty after k iterations exactly when k is at least that many |
| AsyncLogger.Logger.constructor | src/async_logger.h:110-114 | a new Logger has an empty 1000-slot queue and has written nothing |
| AsyncLogger.Logger.Log | src/async_logger.h:131-145 | pushes the formatted message onto the queue, as `CircularBuffer.Push` does, and writes nothing |
| AsyncLogger.Logger.ConsumerIteration | src/async_logger.h:150-161 | changes the queue and the console exactly as `ConsumerStep` says |
| AsyncLogger.Logger.ConsumerThread | src/async_logger.h:148-162 | running the loop body `polls` times changes the queue and the console exactly as `ConsumerSteps` says |

## Left out

- The mutex in `push` and `pop` is not modelled. The model is sequential. The data race of `empty`, `full` and `buffer_size`, which read the indices without the lock, is left out too.
- `Event` (`fired`, `wait`) is not modelled. It only wakes threads. In the consumer's empty branch, `queueEmpty.fired()` and `std::this_thread::yield()` have no sequential effect, so that branch changes nothing in the model.
- `start_logger`, `stop_logger`, `consumer.join` and the `shutdown` flag are not modelled; they are thread lifecycle. The loop condition `!shutdown` is replaced by the parameter `polls` of `ConsumerThread`. `stop_logger`'s two extra log lines are ordinary `Log` calls.
- `Logger::log` takes the formatted message as a parameter. The `snprintf` formatting and the `std::chrono` timestamp are foreign library calls. The timestamp is computed but never used.
- `std::cout` is modelled as the `console` sequence of written lines.
- `src/async_logger.cpp` is not part of this model. It is a draft of the same consumer loop, with a 4096-byte array payload and a `log` signature that the header does not declare.
- Move semantics of `push(T&&)` and `pop` are not modelled: a slot keeps its value after a pop. In `src/circular_buffer.h` a popped slot holds a moved-from value, so a later pop of that slot on an empty buffer returns that value rather than the item `Pop` states. The slots of a new buffer hold unconstrained values of `T`, standing in for the default-constructed `std::array` elements.
- RingModel.Push: its own contract states only well-formedness and capacity. What a push does to the queued items is proved in `RingModel.PushAppends`.
- RingModel.Pop: its own contract states only the index and slot effects. What a pop returns and leaves queued is proved in `RingModel.PopTakesOldest` and `RingModel.PopOnEmptyExposesStale`.
