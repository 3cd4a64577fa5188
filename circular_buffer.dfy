/**
 * A bounded single-producer/single-consumer ring buffer.
 *
 * The buffer declared with `size` usable slots owns an array of
 * `size + 1` slots and two indices: the consumer advances `head`, the
 * producer advances `tail`. One slot is always left free so that a full
 * buffer (`tail + 1 == head` modulo the capacity) can be told apart from
 * an empty one (`head == tail`). Atomic loads and stores become plain
 * reads and writes: each operation is one sequential step.
 */
module CircularBufferModel {

  import opened Optional

  /** The index after `idx` in a ring of `capacity` slots. */
  function Increment(idx: nat, capacity: nat): (r: nat)
    requires capacity > 0
    ensures r < capacity
    ensures idx < capacity ==> r == if idx == capacity - 1 then 0 else idx + 1
  {
    (idx + 1) % capacity
  }

  /** How many slots lie from `head` (included) up to `tail` (excluded), going round. */
  function Count(head: nat, tail: nat, capacity: nat): (r: nat)
    requires head < capacity && tail < capacity
    ensures r < capacity
    ensures r == (tail - head) % capacity
    ensures r == 0 <==> head == tail
  {
    RemainderOnceRound(tail - head, capacity);
    if head <= tail then tail - head else tail + capacity - head
  }

  /** The remainder of a difference of two indices of the ring. */
  lemma RemainderOnceRound(x: int, n: int)
    requires n > 0 && -n < x < n
    ensures x % n == if x >= 0 then x else x + n
  {
  }

  /**
   * The values held by a ring whose slots are `slots`: from `head` up to,
   * and not including, `tail`, wrapping round the end of the array.
   */
  function Occupied<T>(slots: seq<T>, head: nat, tail: nat): (r: seq<T>)
    requires head < |slots| && tail < |slots|
    ensures |r| == Count(head, tail, |slots|)
  {
    if head <= tail then slots[head..tail] else slots[head..] + slots[..tail]
  }

  /** The `i`-th value held is the one in slot `head + i`, taken round the ring. */
  lemma OccupiedAt<T>(slots: seq<T>, head: nat, tail: nat, i: nat)
    requires head < |slots| && tail < |slots|
    requires i < Count(head, tail, |slots|)
    ensures Occupied(slots, head, tail)[i] == slots[(head + i) % |slots|]
  {
    ModBelowTwice(|slots|);
    if head > tail && head + i >= |slots| {
      assert Occupied(slots, head, tail)[i] == slots[..tail][head + i - |slots|];
    }
  }

  /** Remainders of the indices that can arise when one walks once round the ring. */
  lemma ModBelowTwice(n: nat)
    requires n > 0
    ensures forall x: int :: 0 <= x < 2 * n ==> x % n == if x < n then x else x - n
  {
  }

  /** The ring is full exactly when it holds one value fewer than it has slots. */
  lemma FullIffAtCount(head: nat, tail: nat, capacity: nat)
    requires head < capacity && tail < capacity
    ensures Increment(tail, capacity) == head <==> Count(head, tail, capacity) == capacity - 1
  {
  }

  /**
   * Writing `v` into the free slot at `tail` and advancing `tail` appends
   * `v` to the values held, when the ring is not full.
   */
  lemma OccupiedPush<T>(slots: seq<T>, head: nat, tail: nat, v: T)
    requires head < |slots| && tail < |slots|
    requires Increment(tail, |slots|) != head
    ensures Occupied(slots[tail := v], head, Increment(tail, |slots|)) == Occupied(slots, head, tail) + [v]
  {
  }

  /**
   * Advancing `head` over a non-empty ring removes the value at `head`,
   * which is the first value held.
   */
  lemma OccupiedPop<T>(slots: seq<T>, head: nat, tail: nat)
    requires head < |slots| && tail < |slots|
    requires head != tail
    ensures Occupied(slots, head, tail) != []
    ensures Occupied(slots, head, tail)[0] == slots[head]
    ensures Occupied(slots, Increment(head, |slots|), tail) == Occupied(slots, head, tail)[1..]
  {
  }

  class CircularBuffer<T(0)> {
    /** The number of values the buffer can hold. */
    const size: nat
    /** The slots; one more than `size`. */
    const slots: array<T>
    var head: nat
    var tail: nat

    /** The number of slots, one of which is always free. */
    function Capacity(): nat
    {
      size + 1
    }

    ghost predicate Valid()
      reads this
    {
      slots.Length == Capacity() && head < Capacity() && tail < Capacity()
    }

    /** The values in the buffer, in the order they will be dequeued. */
    ghost function Contents(): (s: seq<T>)
      reads this, slots
      requires Valid()
      ensures |s| <= size
    {
      Occupied(slots[..], head, tail)
    }

    /** A fresh buffer: both indices at slot 0, nothing held. */
    constructor (size: nat)
      ensures Valid() && fresh(slots)
      ensures this.size == size && head == 0 && tail == 0
      ensures Contents() == []
    {
      this.size := size;
      slots := new T[size + 1];
      head, tail := 0, 0;
    }

    /**
     * Producer step: stores `value` at the slot `tail` names and advances
     * `tail`; refuses, changing nothing, when the buffer is full.
     */
    method Enqueue(value: T) returns (ok: bool)
      requires Valid()
      modifies this, slots
      ensures Valid()
      ensures ok <==> |old(Contents())| < size
      ensures Contents() == if ok then old(Contents()) + [value] else old(Contents())
      ensures head == old(head)
      ensures ok ==> tail == Increment(old(tail), Capacity()) && slots[..] == old(slots[..])[old(tail) := value]
      ensures !ok ==> unchanged(this, slots)
    {
      var currentTail := tail;
      var nextTail := Increment(currentTail, Capacity());
      FullIffAtCount(head, tail, Capacity());
      if nextTail == head {
        return false;
      }
      OccupiedPush(slots[..], head, currentTail, value);
      slots[currentTail] := value;
      tail := nextTail;
      ok := true;
    }

    /**
     * Consumer step: when the buffer holds something, returns the value at
     * `head` and advances `head`; otherwise returns false and leaves
     * `init`, the caller's variable, as it was.
     */
    method Dequeue(init: T) returns (ok: bool, value: T)
      requires Valid()
      modifies this
      ensures Valid()
      ensures ok <==> old(Contents()) != []
      ensures ok ==> value == old(Contents())[0] && value == slots[old(head)]
      ensures ok ==> Contents() == old(Contents())[1..] && head == Increment(old(head), Capacity())
      ensures !ok ==> value == init && unchanged(this)
      ensures tail == old(tail)
    {
      var currentHead := head;
      if currentHead == tail {
        return false, init;
      }
      OccupiedPop(slots[..], currentHead, tail);
      value := slots[currentHead];
      head := Increment(currentHead, Capacity());
      ok := true;
    }

    /** Dequeues and discards the front value. */
    method Pop() returns (ok: bool)
      requires Valid()
      modifies this
      ensures Valid()
      ensures ok <==> old(Contents()) != []
      ensures Contents() == if ok then old(Contents())[1..] else old(Contents())
      ensures ok ==> head == Increment(old(head), Capacity())
      ensures !ok ==> unchanged(this)
      ensures tail == old(tail)
    {
      var value: T := *;
      ok, value := Dequeue(value);
    }

    /**
     * The slot holding the front value, or nothing when the buffer is
     * empty; changes nothing.
     */
    method Peek() returns (p: Option<nat>)
      requires Valid()
      ensures p == None <==> Contents() == []
      ensures p.Some? ==> p.value == head && slots[p.value] == Contents()[0]
    {
      var currentHead := head;
      var empty := IsEmpty();
      if empty {
        return None;
      }
      OccupiedPop(slots[..], currentHead, tail);
      return Some(currentHead);
    }

    /** Whether the buffer holds nothing. */
    method IsEmpty() returns (r: bool)
      requires Valid()
      ensures r <==> Contents() == []
    {
      r := head == tail;
    }

    /** Whether the buffer holds `size` values, so that a further enqueue is refused. */
    method IsFull() returns (r: bool)
      requires Valid()
      ensures r <==> |Contents()| == size
    {
      var nextTail := Increment(tail, Capacity());
      FullIffAtCount(head, tail, Capacity());
      r := nextTail == head;
    }
  }

  /**
   * Enqueues 0, 1, ..., `size` into a fresh buffer of `size` slots: every
   * enqueue but the last is accepted, and the buffer is then full and holds
   * 0, 1, ..., `size - 1`.
   */
  method Fill(size: nat) returns (b: CircularBuffer<int>, accepted: seq<bool>, full: bool)
    ensures b.Valid() && fresh(b) && fresh(b.slots) && b.size == size
    ensures b.Contents() == seq(size, j => j)
    ensures accepted == seq(size + 1, i => i < size)
    ensures full
  {
    b := new CircularBuffer<int>(size);
    accepted := [];
    for i := 0 to size + 1
      invariant b.Valid() && fresh(b) && fresh(b.slots) && b.size == size
      invariant b.Contents() == seq(if i < size then i else size, j => j)
      invariant accepted == seq(i, j => j < size)
    {
      var ok := b.Enqueue(i);
      if i < size {
        assert seq(i, j => j) + [i] == seq(i + 1, j => j);
      }
      assert accepted + [ok] == seq(i + 1, j => j < size);
      accepted := accepted + [ok];
    }
    full := b.IsFull();
  }

  /**
   * After `Fill`, `size` rounds of peek then dequeue both see 0, 1, ...,
   * `size - 1` in order; one dequeue more is refused, and the buffer is
   * left empty.
   */
  method FillAndDrain(size: nat) returns (peeked: seq<int>, drained: seq<int>, refused: bool, empty: bool)
    ensures peeked == seq(size, i => i) && drained == seq(size, i => i)
    ensures refused && empty
  {
    var b, _, _ := Fill(size);
    ghost var whole := b.Contents();
    peeked, drained := [], [];
    for i := 0 to size
      invariant b.Valid() && fresh(b) && fresh(b.slots) && b.size == size
      invariant b.Contents() == whole[i..]
      invariant peeked == whole[..i] && drained == whole[..i]
    {
      assert whole[..i] + [whole[i]] == whole[..i + 1];
      var p := b.Peek();
      assert p.Some? && p.value < b.slots.Length;
      peeked := peeked + [b.slots[p.value]];
      var ok, item := b.Dequeue(-1);
      assert whole[i..][1..] == whole[i + 1..];
      drained := drained + [item];
    }
    assert whole[..size] == whole;
    var ok, _ := b.Dequeue(-1);
    refused := !ok;
    empty := b.IsEmpty();
  }
}
