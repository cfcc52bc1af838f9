/** The ring queue as an object: `CmdQueue` of src/core/ControlLoop.cpp, which steps its
    indices with `%`, and `SpscQueue` of src/utils/SpscQueue.cpp, which masks them. The C
    queue of src/spsc_queue.h is the first one with head and tail exchanged. */
module CommandQueue {
  import opened Words

  datatype Indexing = Modulo | Mask

  predicate PowerOfTwo(n: nat) {
    exists k: nat | k <= n :: n == Pow2(k)
  }

  function Advance(indexing: Indexing, i: nat, capacity: nat): (next: nat)
    requires capacity > 0
  {
    if indexing.Modulo? then (i + 1) % capacity else And(i + 1, capacity - 1)
  }

  /** For a power of two, masking and the remainder are the same step around the ring. */
  lemma AdvanceIsStep(indexing: Indexing, i: nat, capacity: nat)
    requires i < capacity && (indexing.Mask? ==> PowerOfTwo(capacity))
    ensures Advance(indexing, i, capacity) == if i + 1 == capacity then 0 else i + 1
  {
    if indexing.Mask? {
      var k: nat :| k <= capacity && capacity == Pow2(k);
      MaskIsRemainder(i + 1, k);
    }
    if i + 1 == capacity {
      RemainderUnique(capacity, 1, 0);
    } else {
      RemainderUnique(capacity, 0, i + 1);
    }
  }

  class SpscQueue<T(0)> {
    const indexing: Indexing
    const capacity: nat
    const items: array<T>
    var head: nat
    var tail: nat

    ghost predicate Valid()
      reads this
    {
      && 0 < capacity == items.Length
      && head < capacity && tail < capacity
      && (indexing.Mask? ==> PowerOfTwo(capacity))
    }

    ghost function Contents(): seq<T>
      requires Valid()
      reads this, items
    {
      if head <= tail then items[head..tail] else items[head..] + items[..tail]
    }

    constructor (indexing: Indexing, capacity: nat)
      requires 0 < capacity && (indexing.Mask? ==> PowerOfTwo(capacity))
      ensures Valid() && fresh(items) && Contents() == []
      ensures this.capacity == capacity && this.indexing == indexing
    {
      this.indexing, this.capacity := indexing, capacity;
      items := new T[capacity];
      head, tail := 0, 0;
    }

    method Push(item: T) returns (ok: bool)
      requires Valid()
      modifies this, items
      ensures Valid()
      ensures ok <==> |old(Contents())| < capacity - 1
      ensures Contents() == if ok then old(Contents()) + [item] else old(Contents())
    {
      AdvanceIsStep(indexing, tail, capacity);
      var nextTail := Advance(indexing, tail, capacity);
      if nextTail == head {
        return false;
      }
      items[tail] := item;
      tail := nextTail;
      ok := true;
    }

    /** `item` stays as it was when there is nothing to pop. */
    method Pop(into: T) returns (ok: bool, item: T)
      requires Valid()
      modifies this
      ensures Valid()
      ensures ok <==> old(Contents()) != []
      ensures if ok then [item] + Contents() == old(Contents()) else item == into && Contents() == old(Contents())
    {
      item := into;
      if head == tail {
        return false, item;
      }
      AdvanceIsStep(indexing, head, capacity);
      item := items[head];
      head := Advance(indexing, head, capacity);
      ok := true;
    }

    method Empty() returns (empty: bool)
      requires Valid()
      ensures empty <==> Contents() == []
    {
      empty := head == tail;
    }

    method Full() returns (full: bool)
      requires Valid()
      ensures full <==> |Contents()| == capacity - 1
    {
      AdvanceIsStep(indexing, tail, capacity);
      var nextTail := Advance(indexing, tail, capacity);
      full := nextTail == head;
    }

    method Clear()
      requires Valid()
      modifies this
      ensures Valid() && Contents() == []
    {
      head := 0;
      tail := 0;
    }
  }
}
