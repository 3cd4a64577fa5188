# spsc-queue in Dafny

A model of the two single-producer/single-consumer FIFO containers of the
spsc-queue repository, with proofs about how they behave when one thread
uses them.

- `circular_buffer.dfy` (module `CircularBufferModel`) models
  `CircularBuffer<NodeType, Size>`. This is a bounded ring of `Size + 1`
  array slots with a consumer index `head` and a producer index `tail`. One
  slot is always left free: the buffer is full when `tail + 1 == head`
  modulo the capacity, and empty when `head == tail`. The class keeps the
  C++ fields as an `array` and two index fields. The ghost function
  `Contents()` gives the values held, in dequeue order. It is defined by the
  pure function `Occupied`, the wrapping window of slots from `head` up to
  `tail`. The lemmas `OccupiedPush` and `OccupiedPop` say what writing a
  slot and advancing an index do to that window.
- `readerwriter_queue.dfy` (module `ReaderWriterQueue`) models
  `Node<T>` and `NonBlockingQueue<T>`. This is an unbounded linked queue
  after Michael and Scott. `head` is a dummy or already consumed node, the
  front value is in `head->next`, and the producer appends behind `tail`.
  Nodes are heap objects. The queue carries three ghost fields: the chain
  `nodes` from `head` to `tail`, the abstract `contents` (the values of
  every node after `head`), and the footprint `Repr`. `Valid()` states the
  invariant:
  - the chain runs from `head` to `tail` without repeating a node;
  - each node's `next` is the following node, and `tail.next` is null;
  - each node's `modification_counter` is its predecessor's plus one;
  - `contents` holds the values of the chain after `head`.
- `optional.dfy` holds the `Option` type that stands for a nullable
  pointer.

The model is sequential. Atomic loads and stores become plain reads and
writes. Each compare-and-swap succeeds on the first try: the body of
`enqueue`'s retry loop never runs, `try_dequeue`'s loop body runs once, and
every operation is one atomic step. A C++ reference out-parameter (`T& result`) becomes an
in-parameter `init` plus an out-parameter `result`. On failure, `result` is
`init`: the caller's variable is left as it was. `peek` returns a pointer.
For the ring buffer the model returns the index of the slot
(`Option<nat>`). For the queue it returns the node whose `value` the
pointer addresses (`Node?<T>`).

The counter assignment of `try_dequeue` (readerwriter_queue.h:134) writes
the value the node already holds. `enqueue` gave the node its counter, the
old tail's plus one, and the invariant keeps it that way.

The helping branch of `try_dequeue`, which advances a lagging tail
(readerwriter_queue.h:123-126), cannot be reached. Under `Valid()`,
`head == tail` implies `head->next == null` (lemma `EmptyIffNoSuccessor`).
`TryDequeue` checks this with an assertion at the point where the source
branches.

## Model

| member | source | states |
|---|---|---|
| `CircularBufferModel.Increment` | circular_buffer.h:69 | The next index always lies in `[0, Capacity)`; for an index in range it is one more, wrapping from `Capacity - 1` to 0 |
| `CircularBufferModel.Count` | circular_buffer.h:61-66 | The number of values between `head` and `tail` is `(tail - head) mod Capacity`, is below `Capacity`, and is 0 exactly when `head == tail` |
| `CircularBufferModel.Occupied` | circular_buffer.h:71-73 | The values held by the slots from `head` up to `tail`, going round; there are `Count(head, tail)` of them |
| `CircularBufferModel.OccupiedAt` | circular_buffer.h:38 | The `i`-th value held is the one in slot `(head + i) mod Capacity` |
| `CircularBufferModel.FullIffAtCount` | circular_buffer.h:62-66 | `increment(tail) == head` exactly when the buffer holds `Capacity - 1 = Size` values |
| `CircularBufferModel.OccupiedPush` | circular_buffer.h:26-27 | When not full, writing `value` at `tail` and advancing `tail` appends `value` to the values held |
| `CircularBufferModel.OccupiedPop` | circular_buffer.h:38-39 | When not empty, the first value held is the one in slot `head`, and advancing `head` removes exactly that value |
| `CircularBufferModel.CircularBuffer.Capacity` | circular_buffer.h:11 | The ring has `Size + 1` slots, one more than it can hold |
| `CircularBufferModel.CircularBuffer.Valid` | circular_buffer.h:69-73 | The class invariant: the array has `Capacity = Size + 1` slots (the enum at circular_buffer.h:11), and `head` and `tail` are indices into it |
| `CircularBufferModel.CircularBuffer.Contents` | circular_buffer.h:71-73 | The abstract contents of the buffer never hold more than `Size` values |
| `CircularBufferModel.CircularBuffer.constructor` | circular_buffer.h:13 | A fresh buffer has `head == tail == 0`, `Size + 1` slots and empty contents |
| `CircularBufferModel.CircularBuffer.Enqueue` | circular_buffer.h:17-29 | Succeeds exactly when fewer than `Size` values are held. On success, `value` is in the old tail slot, `tail` has advanced, nothing else changed, and the contents are `old + [value]`. When full, it returns false and array, head and tail are unchanged |
| `CircularBufferModel.CircularBuffer.Dequeue` | circular_buffer.h:32-41 | Succeeds exactly when the buffer is not empty. On success, it returns the first value of the contents (the slot at the old `head`), advances `head`, and the contents become `old[1..]`. When empty, it returns false, leaves the caller's value alone and changes nothing |
| `CircularBufferModel.CircularBuffer.Pop` | circular_buffer.h:44-48 | Same effect and result as `Dequeue`, with the value discarded |
| `CircularBufferModel.CircularBuffer.Peek` | circular_buffer.h:51-58 | Returns nothing exactly when the buffer is empty; otherwise returns slot `head`, which holds the front value; changes nothing |
| `CircularBufferModel.CircularBuffer.IsEmpty` | circular_buffer.h:61 | `head == tail` exactly when the contents are empty |
| `CircularBufferModel.CircularBuffer.IsFull` | circular_buffer.h:62-66 | `increment(tail) == head` exactly when the contents hold `Size` values |
| `CircularBufferModel.Fill` | unittests/circular_buffer.cc:35-43 | Of `Size + 1` enqueues of 0..Size into a fresh buffer, all but the last succeed; then the buffer is full and holds 0..Size-1 |
| `CircularBufferModel.FillAndDrain` | unittests/circular_buffer.cc:21-87 | After filling, `Size` rounds of peek then dequeue see 0..Size-1 in FIFO order; the next dequeue fails and the buffer is empty |
| `ReaderWriterQueue.Node.Dummy` | readerwriter_queue.h:14 | The dummy node has a null `next` and counter 0 |
| `ReaderWriterQueue.Node.constructor` | readerwriter_queue.h:21-24 | A node with the given value and counter and a null `next` (the corrected constructor; see Findings) |
| `ReaderWriterQueue.Node.WithoutLink` | readerwriter_queue.h:21-24 | The constructor as written: `next` keeps whatever the memory held |
| `ReaderWriterQueue.NonBlockingQueue.constructor` | readerwriter_queue.h:50-56 | A fresh queue has `head == tail ==` a single dummy node with null `next`, and it is empty |
| `ReaderWriterQueue.NonBlockingQueue.Valid` | readerwriter_queue.h:44-45 | The queue invariant: the chain runs from `head` to `tail` without repeating a node, each `next` is the following node, `tail.next` is null, counters rise by one per link, and the contents are the values after `head` |
| `ReaderWriterQueue.NonBlockingQueue.IsEmpty` | readerwriter_queue.h:70-73 | `tail == head` exactly when the abstract contents are empty |
| `ReaderWriterQueue.NonBlockingQueue.Enqueue` | readerwriter_queue.h:78-91 | Always succeeds and keeps the invariant. Contents become `old + [value]`. The new tail is a fresh node holding `value` with counter `old tail + 1` and null `next`, and the old tail's `next` is the new node while its value stays as it was. `head` is unchanged |
| `ReaderWriterQueue.NonBlockingQueue.EnqueueAsWritten` | readerwriter_queue.h:78-91 | With the node built as written, the value is still appended, but the new tail's `next` is the leftover value, and the old tail keeps its value. The queue invariant holds exactly when that value is null |
| `ReaderWriterQueue.ExcessDequeueAsWritten` | readerwriter_queue.h:117-126 | Enqueue with the as-written node, then one successful dequeue, leaves `head == tail` with `head.next` the leftover value. When it is non-null, `try_dequeue` takes the helping branch instead of returning false; when it is null the queue is valid and empty |
| `ReaderWriterQueue.NonBlockingQueue.Peek` | readerwriter_queue.h:97-105 | Returns null exactly when the queue is empty; otherwise returns `head->next`, whose value is the front of the contents; changes nothing |
| `ReaderWriterQueue.NonBlockingQueue.TryDequeue` | readerwriter_queue.h:107-145 | Keeps the invariant and succeeds exactly when the contents are non-empty. On success, it returns the front value, and `head` becomes the old `head->next`, whose counter is the old head's plus one and whose value and `next` are unchanged. Contents become `old[1..]` and the old head leaves the footprint. On failure, it returns false, leaves the caller's value alone and changes neither the queue nor any node. `tail` never changes |
| `ReaderWriterQueue.NonBlockingQueue.Dequeue` | readerwriter_queue.h:151-154 | The same contract as `TryDequeue` |
| `ReaderWriterQueue.NonBlockingQueue.Pop` | readerwriter_queue.h:160-165 | The effect of `TryDequeue`, with the value discarded: keeps the invariant, succeeds exactly when the contents are non-empty, and on success `head` becomes the old `head->next` with counter the old head's plus one and the contents become `old[1..]`; on failure nothing changes |
| `ReaderWriterQueue.FollowChain` | readerwriter_queue.h:44-45 | Following `next` `i` times from `head` reaches the `i`-th node of the chain; `|nodes| - 1` steps reach `tail`, and one more step reaches null |
| `ReaderWriterQueue.CounterAlongChain` | readerwriter_queue.h:81-86 | The counter of the `i`-th node of the chain is the head's counter plus `i` |
| `ReaderWriterQueue.CountersRise` | readerwriter_queue.h:39-42 | Two nodes `i < j` of the chain have counters that differ by `j - i`, so no two nodes of the chain carry the same counter |
| `ReaderWriterQueue.EmptyIffNoSuccessor` | readerwriter_queue.h:117-121 | `head == tail` exactly when `head->next` is null, and exactly when the contents are empty; so the tail-helping branch is unreachable |
| `ReaderWriterQueue.EnqueueThenDrain` | unittests/readerwriter_queue.cc:22-61 | After enqueuing 0..n-1, `n` rounds of peek then dequeue see 0..n-1 in FIFO order; the next dequeue fails and the queue is empty |

## Left out

- Concurrency: atomicity, memory ordering (`memory_order_relaxed`, `acquire`, `release`), interleavings of the two threads and the ABA argument. Each operation is one sequential step.
- Spurious failure of `compare_exchange_weak` at readerwriter_queue.h:82 and readerwriter_queue.h:135. Each compare-and-swap is an assignment that succeeds, so the retry loops of `enqueue` and `try_dequeue` are not written as loops.
- The tail-helping branch at readerwriter_queue.h:123-126 and the node it allocates. It is proved unreachable, not modelled.
- Memory reclamation: the `delete` at readerwriter_queue.h:139 and the destructor at readerwriter_queue.h:58-68. The unlinked old head just leaves the ghost footprint.
- `Node(T val)` and `Node(T val, Node<T>* next, int counter)` at readerwriter_queue.h:16-19 and readerwriter_queue.h:26-30. The first is never called, and the second appears only in the unreachable helping branch.
- Fixed-width integers. `size_t` indices never wrap, because they stay below `Capacity`; `Size + 1` is taken without overflow. `modification_counter` is an `int` in C++ and would overflow after 2^31 - 1 swings; the model's counters are unbounded.
- Allocation failure of `new`, which the source does not handle.
- The benchmark drivers, the timing helpers and the gtest suites. The two test scenarios `Fill`/`FillAndDrain` and `EnqueueThenDrain` restate their single-thread parts as verified client methods. Both `TestThreading` cases join the writer thread before starting the reader, so they run as 100 enqueues, then 100 pops, then `is_empty`. The same scenarios and the `Pop` contracts cover that sequence, so no separate model is needed.

## Findings

| source | as written | input that shows it | evidently intended | confidence | as-written member | corrected member |
|---|---|---|---|---|---|---|
| readerwriter_queue.h:21-24 | `Node(T val, int counter)` never initialises `next`, and `enqueue` builds every new node with it (readerwriter_queue.h:81) | `enqueue(5)`, then `dequeue` twice: on the second call `head == tail` is the node built for 5, and its `next` is whatever the memory held. If that is non-null, `try_dequeue` takes the helping branch instead of returning false | `next` starts as null, as in `Node()` and `Node(T val)` (readerwriter_queue.h:14, 16-19), so that `tail->next == null` holds | not executed; the value of an uninitialised pointer is indeterminate | `ReaderWriterQueue.ExcessDequeueAsWritten` | `ReaderWriterQueue.NonBlockingQueue.Enqueue` |
