/**
 * An unbounded single-producer/single-consumer queue of heap nodes, after
 * Michael and Scott: `head` points at a dummy (or already consumed) node,
 * the front value lives in `head.next`, and the producer appends behind
 * `tail`. Every node carries a modification counter that grows by one on
 * each swing of `tail` or `head`.
 *
 * The model is sequential: atomic loads and stores are plain reads and
 * writes, and each compare-and-swap succeeds on the first try: the body of
 * `enqueue`'s retry loop never runs, and `try_dequeue`'s loop body runs once.
 */
module ReaderWriterQueue {

  class Node<T(0)> {
    var value: T
    var next: Node?<T>
    var counter: int

    /** The dummy node a fresh queue starts with: no successor, counter 0. */
    constructor Dummy()
      ensures next == null && counter == 0
    {
      next := null;
      counter := 0;
    }

    /**
     * A node built the way the two-argument constructor of the source builds
     * it: `next` is never set, so it holds whatever `indeterminate` is.
     */
    constructor WithoutLink(value: T, counter: int, indeterminate: Node?<T>)
      ensures this.value == value && this.counter == counter && next == indeterminate
    {
      this.value := value;
      this.counter := counter;
      next := indeterminate;
    }

    /** A node for `value` with the given counter and, as yet, no successor. */
    constructor (value: T, counter: int)
      ensures this.value == value && this.counter == counter && next == null
    {
      this.value := value;
      this.counter := counter;
      next := null;
    }
  }

  class NonBlockingQueue<T(0)> {
    var head: Node<T>
    var tail: Node<T>

    /** The chain of nodes from `head` to `tail`. */
    ghost var nodes: seq<Node<T>>
    /** The values in the queue, front first: those of every node after `head`. */
    ghost var contents: seq<T>
    ghost var Repr: set<object>

    ghost predicate Valid()
      reads this, Repr
      ensures Valid() ==> this in Repr
    {
      this in Repr &&
      |nodes| >= 1 &&
      (forall i :: 0 <= i < |nodes| ==> nodes[i] in Repr) &&
      nodes[0] == head && nodes[|nodes| - 1] == tail &&
      (forall i, j :: 0 <= i < j < |nodes| ==> nodes[i] != nodes[j]) &&
      (forall i :: 0 <= i < |nodes| - 1 ==> nodes[i].next == nodes[i + 1]) &&
      tail.next == null &&
      (forall i :: 0 <= i < |nodes| - 1 ==> nodes[i + 1].counter == nodes[i].counter + 1) &&
      |contents| == |nodes| - 1 &&
      (forall i :: 0 <= i < |contents| ==> contents[i] == nodes[i + 1].value)
    }

    /** A fresh queue: `head` and `tail` are one dummy node with no successor. */
    constructor ()
      ensures Valid() && fresh(Repr)
      ensures head == tail && head.next == null && head.counter == 0
      ensures nodes == [head] && contents == []
    {
      var dummy := new Node<T>.Dummy();
      head, tail := dummy, dummy;
      nodes, contents := [dummy], [];
      Repr := {this, dummy};
    }

    /** Whether `head` and `tail` are the same node; true exactly when the queue is empty. */
    method IsEmpty() returns (r: bool)
      requires Valid()
      ensures r <==> contents == []
    {
      r := tail == head;
    }

    /**
     * Producer step: allocates a node for `value` whose counter is one more
     * than the tail's, swings `tail` to it and links the old tail to it.
     */
    method Enqueue(value: T)
      requires Valid()
      modifies this, tail
      ensures Valid() && fresh(tail)
      ensures contents == old(contents) + [value]
      ensures nodes == old(nodes) + [tail] && Repr == old(Repr) + {tail}
      ensures head == old(head) && old(tail).next == tail && old(tail).value == old(tail.value)
      ensures tail.value == value && tail.next == null && tail.counter == old(tail.counter) + 1
    {
      var currentTail := tail;
      var p := new Node(value, currentTail.counter + 1);
      tail := p;
      currentTail.next := p;
      nodes, contents, Repr := nodes + [p], contents + [value], Repr + {p};
    }

    /**
     * `Enqueue` with the new node built by `WithoutLink`. The value is
     * appended all the same, but the invariant survives exactly when the
     * memory happened to leave a null `next` in the new node: otherwise the
     * new tail has a successor and the chain no longer ends at `tail`.
     */
    method EnqueueAsWritten(value: T, indeterminate: Node?<T>)
      requires Valid()
      modifies this, tail
      ensures fresh(tail) && head == old(head) && old(tail).next == tail && old(tail).value == old(tail.value)
      ensures contents == old(contents) + [value]
      ensures nodes == old(nodes) + [tail] && Repr == old(Repr) + {tail}
      ensures tail.value == value && tail.counter == old(tail.counter) + 1
      ensures tail.next == indeterminate
      ensures Valid() <==> indeterminate == null
    {
      var currentTail := tail;
      var p := new Node.WithoutLink(value, currentTail.counter + 1, indeterminate);
      tail := p;
      currentTail.next := p;
      nodes, contents, Repr := nodes + [p], contents + [value], Repr + {p};
    }

    /**
     * The node holding the front value (the one after `head`), or null when
     * the queue is empty; changes nothing.
     */
    method Peek() returns (p: Node?<T>)
      requires Valid()
      ensures p == null <==> contents == []
      ensures p != null ==> p == head.next && p == nodes[1] && p.value == contents[0]
    {
      var currentHead := head;
      var nextNode := currentHead.next;
      EmptyIffNoSuccessor(this);
      if currentHead == tail || nextNode == null {
        return null;
      }
      return nextNode;
    }

    /**
     * Consumer step: when the queue holds something, returns its front value
     * and makes the node that held it the new `head` (with a counter one
     * more than the old head's); otherwise returns false and changes
     * nothing, leaving `init`, the caller's variable, as it was.
     */
    method TryDequeue(init: T) returns (ok: bool, result: T)
      requires Valid()
      modifies this, head.next
      ensures Valid()
      ensures ok <==> old(contents) != []
      ensures ok ==> result == old(contents)[0] && contents == old(contents)[1..]
      ensures ok ==> head == old(head.next) && head.counter == old(head.counter) + 1
      ensures ok ==> head.value == old(head.next.value) && head.next == old(head.next.next)
      ensures ok ==> nodes == old(nodes)[1..] && Repr == old(Repr) - {old(head)}
      ensures !ok ==> result == init && unchanged(this) && unchanged(Repr)
      ensures tail == old(tail)
    {
      var currentHead := head;
      var currentTail := tail;
      var nextNode := currentHead.next;
      EmptyIffNoSuccessor(this);
      if currentHead == currentTail {
        // With head == tail the dummy has no successor, so the branch that
        // helps a lagging tail along is never taken in a sequential run.
        assert nextNode == null;
        return false, init;
      }
      var value := nextNode.value;
      nextNode.counter := currentHead.counter + 1;
      head := nextNode;
      nodes, contents, Repr := nodes[1..], contents[1..], Repr - {currentHead};
      return true, value;
    }

    /** Same as `TryDequeue`. */
    method Dequeue(init: T) returns (ok: bool, result: T)
      requires Valid()
      modifies this, head.next
      ensures Valid()
      ensures ok <==> old(contents) != []
      ensures ok ==> result == old(contents)[0] && contents == old(contents)[1..]
      ensures ok ==> head == old(head.next) && head.counter == old(head.counter) + 1
      ensures ok ==> head.value == old(head.next.value) && head.next == old(head.next.next)
      ensures ok ==> nodes == old(nodes)[1..] && Repr == old(Repr) - {old(head)}
      ensures !ok ==> result == init && unchanged(this) && unchanged(Repr)
      ensures tail == old(tail)
    {
      ok, result := TryDequeue(init);
    }

    /** Dequeues and discards the front value. */
    method Pop() returns (ok: bool)
      requires Valid()
      modifies this, head.next
      ensures Valid()
      ensures ok <==> old(contents) != []
      ensures contents == if ok then old(contents)[1..] else old(contents)
      ensures ok ==> head == old(head.next) && head.counter == old(head.counter) + 1
      ensures ok ==> head.value == old(head.next.value) && head.next == old(head.next.next)
      ensures ok ==> nodes == old(nodes)[1..] && Repr == old(Repr) - {old(head)}
      ensures !ok ==> unchanged(this) && unchanged(Repr)
      ensures tail == old(tail)
    {
      var result: T := *;
      ok, result := TryDequeue(result);
    }
  }

  /** The node reached from `n` by following `next` `k` times (null once the chain ends). */
  ghost function Follow<T(0)>(n: Node?<T>, k: nat): (r: Node?<T>)
    reads *
    decreases k
  {
    if n == null || k == 0 then n else Follow(n.next, k - 1)
  }

  /**
   * Following `next` from `head` visits the chain in order: `i` steps reach
   * `nodes[i]`, so `|nodes| - 1` steps reach `tail`, and one step more
   * reaches null.
   */
  lemma {:induction false} FollowChain<T(0)>(q: NonBlockingQueue<T>, i: nat)
    requires q.Valid() && i < |q.nodes|
    ensures Follow(q.head, i) == q.nodes[i]
    ensures i == |q.nodes| - 1 ==> Follow(q.head, i) == q.tail && Follow(q.head, i + 1) == null
  {
    if i > 0 {
      FollowChain(q, i - 1);
      FollowStep(q.head, i - 1);
    }
    if i == |q.nodes| - 1 {
      FollowStep(q.head, i);
    }
  }

  /** One step more along the chain is one `next` more. */
  lemma {:induction false} FollowStep<T(0)>(n: Node<T>, k: nat)
    requires Follow(n, k) != null
    ensures Follow(n, k + 1) == Follow(n, k).next
    decreases k
  {
    if k > 0 {
      FollowStep(n.next, k - 1);
    }
  }

  /** The counter of the `i`-th node of the chain is the head's plus `i`. */
  lemma {:induction false} CounterAlongChain<T(0)>(q: NonBlockingQueue<T>, i: nat)
    requires q.Valid() && i < |q.nodes|
    ensures q.nodes[i].counter == q.head.counter + i
  {
    if i > 0 {
      CounterAlongChain(q, i - 1);
    }
  }

  /**
   * Counters strictly rise along the chain, so no two nodes of a queue
   * carry the same counter.
   */
  lemma CountersRise<T(0)>(q: NonBlockingQueue<T>, i: nat, j: nat)
    requires q.Valid() && i < j < |q.nodes|
    ensures q.nodes[j].counter - q.nodes[i].counter == j - i
  {
    CounterAlongChain(q, i);
    CounterAlongChain(q, j);
  }

  /**
   * `head == tail` holds exactly when the dummy has no successor, and
   * exactly when the queue holds nothing.
   */
  lemma EmptyIffNoSuccessor<T(0)>(q: NonBlockingQueue<T>)
    requires q.Valid()
    ensures q.head == q.tail <==> q.head.next == null
    ensures q.head == q.tail <==> q.contents == []
  {
    if |q.nodes| > 1 {
      assert q.nodes[0] != q.nodes[|q.nodes| - 1];
      assert q.nodes[0].next == q.nodes[1];
    }
  }

  /**
   * The unit-test scenarios on one queue: enqueue 0, 1, ..., `n - 1`; then
   * `n` rounds of peek and dequeue both see those values in order; one
   * dequeue more is refused and the queue is left empty.
   */
  method EnqueueThenDrain(n: nat) returns (peeked: seq<int>, drained: seq<int>, refused: bool, empty: bool)
    ensures peeked == seq(n, i => i) && drained == seq(n, i => i)
    ensures refused && empty
  {
    var q := new NonBlockingQueue<int>();
    for i := 0 to n
      invariant q.Valid() && fresh(q.Repr)
      invariant q.contents == seq(i, j => j)
    {
      assert seq(i, j => j) + [i] == seq(i + 1, j => j);
      q.Enqueue(i);
    }
    ghost var whole := q.contents;
    peeked, drained := [], [];
    for i := 0 to n
      invariant q.Valid() && fresh(q.Repr)
      invariant q.contents == whole[i..]
      invariant peeked == whole[..i] && drained == whole[..i]
    {
      assert whole[..i] + [whole[i]] == whole[..i + 1];
      var p := q.Peek();
      assert p != null;
      peeked := peeked + [p.value];
      var ok, item := q.Dequeue(-1);
      assert whole[i..][1..] == whole[i + 1..];
      drained := drained + [item];
    }
    assert whole[..n] == whole;
    var ok, _ := q.Dequeue(-1);
    refused := !ok;
    empty := q.IsEmpty();
  }

  /**
   * The excess-dequeue test with the node built as written: enqueue `v` on a
   * fresh queue, then take the first dequeue's successful path (the front
   * node becomes `head` with the old head's counter plus one). Now `head ==
   * tail` and `head.next` is the leftover `indeterminate`: when that is
   * non-null, the next `try_dequeue` goes into the tail-helping branch
   * instead of reporting an empty queue. When it is null the queue is valid
   * and empty, as intended.
   */
  method ExcessDequeueAsWritten<T(0)>(v: T, indeterminate: Node?<T>) returns (q: NonBlockingQueue<T>)
    ensures q.head == q.tail && q.head.next == indeterminate
    ensures indeterminate == null ==> q.Valid() && q.contents == []
  {
    q := new NonBlockingQueue<T>();
    q.EnqueueAsWritten(v, indeterminate);
    // The success path of `TryDequeue` (its last four assignments), written
    // out here because `TryDequeue` requires `Valid()`, which may not hold.
    var currentHead := q.head;
    var nextNode := currentHead.next;
    nextNode.counter := currentHead.counter + 1;
    q.head := nextNode;
    q.nodes, q.contents, q.Repr := q.nodes[1..], q.contents[1..], q.Repr - {currentHead};
  }
}
