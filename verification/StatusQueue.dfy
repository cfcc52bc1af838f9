/** The overwriting status ring of src/core/ControlLoop.cpp, called from one thread. */
module StatusQueue {
  import opened Wrappers
  import opened Words

  const CAPACITY := 32
  const U32 := 0x1_0000_0000

  datatype Ring<T> = Ring(slots: seq<T>, head: nat, tail: nat, writeIndex: nat)

  predicate Typed<T>(r: Ring<T>) {
    |r.slots| == CAPACITY && r.head < U32 && r.tail < U32 && r.writeIndex < U32
  }

  function Pushed<T>(r: Ring<T>, item: T): (r': Ring<T>)
    requires Typed(r)
    ensures Typed(r')
  {
    var tail := (r.writeIndex + 1) % U32;
    var lag := (tail + U32 - r.head) % U32;
    Ring(r.slots[r.writeIndex % CAPACITY := item],
         if lag > CAPACITY - 1 then (tail + U32 - (CAPACITY - 1)) % U32 else r.head,
         tail, tail)
  }

  function Popped<T>(r: Ring<T>): (Ring<T>, Option<T>)
    requires Typed(r)
  {
    if r.head >= r.tail then (r, None)
    else (r.(head := r.head + 1), Some(r.slots[r.head % CAPACITY]))
  }

  function Latest<T>(r: Ring<T>): Option<T>
    requires Typed(r)
  {
    if r.head >= r.tail then None else Some(r.slots[(r.tail - 1) % CAPACITY])
  }

  class StatusQueue<T(0)> {
    const slots: array<T>
    var head: nat
    var tail: nat
    var writeIndex: nat

    ghost predicate Valid()
      reads this, slots
    {
      slots.Length == CAPACITY && head < U32 && tail < U32 && writeIndex < U32
    }

    ghost function State(): (r: Ring<T>)
      requires Valid()
      reads this, slots
      ensures Typed(r)
    {
      Ring(slots[..], head, tail, writeIndex)
    }

    constructor ()
      ensures Valid() && fresh(slots) && InStep(State(), 0)
    {
      slots := new T[CAPACITY];
      head, tail, writeIndex := 0, 0, 0;
    }

    method Push(item: T)
      requires Valid()
      modifies this, slots
      ensures Valid() && State() == Pushed(old(State()), item)
    {
      var index := writeIndex;
      writeIndex := (writeIndex + 1) % U32;
      slots[index % CAPACITY] := item;
      tail := (index + 1) % U32;
      var currentHead := head;
      var currentTail := (index + 1) % U32;
      if (currentTail + U32 - currentHead) % U32 > CAPACITY - 1 {
        head := (currentTail + U32 - (CAPACITY - 1)) % U32;
      }
    }

    method Pop() returns (item: Option<T>)
      requires Valid()
      modifies this
      ensures Valid() && (State(), item) == Popped(old(State()))
    {
      if head >= tail {
        return None;
      }
      item := Some(slots[head % CAPACITY]);
      head := (head + 1) % U32;
    }

    method GetLatest() returns (item: Option<T>)
      requires Valid()
      ensures item == Latest(State())
    {
      if head >= tail {
        return None;
      }
      item := Some(slots[(tail - 1) % CAPACITY]);
    }
  }

  // ---- Refinement of a bounded deque ----

  /** No counter has wrapped: `pushes` counts all pushes so far. */
  ghost predicate InStep<T>(r: Ring<T>, pushes: nat) {
    Typed(r) && r.writeIndex == r.tail == pushes && r.head <= r.tail <= r.head + CAPACITY - 1
  }

  ghost function View<T>(r: Ring<T>): seq<T>
    requires Typed(r) && r.head <= r.tail
  {
    seq(r.tail - r.head, i requires 0 <= i => r.slots[(r.head + i) % CAPACITY])
  }

  /** The newest 31 snapshots are kept; the oldest gives way only when there are 31 already. */
  function Append<T>(d: seq<T>, item: T): seq<T> {
    (if |d| == CAPACITY - 1 then d[1..] else d) + [item]
  }

  lemma PushedCounters<T>(r: Ring<T>, pushes: nat, item: T)
    requires InStep(r, pushes) && pushes + 1 < U32
    ensures var r' := Pushed(r, item);
            && r'.tail == r'.writeIndex == pushes + 1
            && r'.head == (if r.tail - r.head == CAPACITY - 1 then r.head + 1 else r.head)
            && r'.slots == r.slots[pushes % CAPACITY := item]
  {
    assert (pushes + 1 + U32 - r.head) % U32 == pushes + 1 - r.head;
  }

  lemma PushRefines<T>(r: Ring<T>, pushes: nat, item: T)
    requires InStep(r, pushes) && pushes + 1 < U32
    ensures InStep(Pushed(r, item), pushes + 1)
    ensures View(Pushed(r, item)) == Append(View(r), item)
  {
    PushedCounters(r, pushes, item);
    var r' := Pushed(r, item);
    forall i: nat | r'.head <= i < pushes
      ensures r'.slots[i % CAPACITY] == r.slots[i % CAPACITY]
    {
      RingDistinct(i, pushes, CAPACITY);
    }
    ViewIs(r', Append(View(r), item));
  }

  lemma ViewIs<T>(r: Ring<T>, d: seq<T>)
    requires Typed(r) && r.head <= r.tail && |d| == r.tail - r.head
    requires forall i: nat :: r.head <= i < r.tail ==> d[i - r.head] == r.slots[i % CAPACITY]
    ensures View(r) == d
  {}

  lemma PopRefines<T>(r: Ring<T>, pushes: nat)
    requires InStep(r, pushes)
    ensures InStep(Popped(r).0, pushes)
    ensures var d := View(r);
            if d == [] then Popped(r) == (r, None)
            else Popped(r).1 == Some(d[0]) && View(Popped(r).0) == d[1..]
  {
    if r.head < r.tail {
      var d, d' := View(r), View(Popped(r).0);
      forall i | 0 <= i < |d'| ensures d'[i] == d[1..][i] {}
    }
  }

  lemma LatestRefines<T>(r: Ring<T>, pushes: nat)
    requires InStep(r, pushes)
    ensures Latest(r) == if View(r) == [] then None else Some(View(r)[|View(r)| - 1])
  {}

  datatype Call<T> = CallPush(item: T) | CallPop | CallLatest

  function PushCount<T>(calls: seq<Call<T>>): nat {
    if calls == [] then 0 else (if calls[0].CallPush? then 1 else 0) + PushCount(calls[1..])
  }

  /** The answers of a run of calls on the ring. */
  function RingAnswers<T>(r: Ring<T>, calls: seq<Call<T>>): seq<Option<T>>
    requires Typed(r)
    decreases |calls|
  {
    if calls == [] then []
    else match calls[0]
      case CallPush(item) => [None] + RingAnswers(Pushed(r, item), calls[1..])
      case CallPop => [Popped(r).1] + RingAnswers(Popped(r).0, calls[1..])
      case CallLatest => [Latest(r)] + RingAnswers(r, calls[1..])
  }

  /** The answers of the same calls on a deque that keeps the newest 31. */
  function DequeAnswers<T>(d: seq<T>, calls: seq<Call<T>>): seq<Option<T>>
    decreases |calls|
  {
    if calls == [] then []
    else match calls[0]
      case CallPush(item) => [None] + DequeAnswers(Append(d, item), calls[1..])
      case CallPop =>
        if d == [] then [None] + DequeAnswers(d, calls[1..]) else [Some(d[0])] + DequeAnswers(d[1..], calls[1..])
      case CallLatest =>
        [if d == [] then None else Some(d[|d| - 1])] + DequeAnswers(d, calls[1..])
  }

  /** Over every run with fewer than 2^32 pushes in all, the ring answers like the deque. */
  lemma {:induction false} RunRefines<T>(r: Ring<T>, pushes: nat, calls: seq<Call<T>>)
    requires InStep(r, pushes) && pushes + PushCount(calls) < U32
    ensures RingAnswers(r, calls) == DequeAnswers(View(r), calls)
    decreases |calls|
  {
    if calls != [] {
      match calls[0]
      case CallPush(item) =>
        PushRefines(r, pushes, item);
        RunRefines(Pushed(r, item), pushes + 1, calls[1..]);
      case CallPop =>
        PopRefines(r, pushes);
        RunRefines(Popped(r).0, pushes, calls[1..]);
      case CallLatest =>
        LatestRefines(r, pushes);
        RunRefines(r, pushes, calls[1..]);
    }
  }

  /** The bound is exact: a push can be seen again if and only if it is not the 2^32nd, which
      wraps the tail to zero and makes the ring look empty. */
  lemma WrapHidesPush<T>(r: Ring<T>, pushes: nat, item: T)
    requires InStep(r, pushes)
    ensures Latest(Pushed(r, item)) == Some(item) <==> pushes + 1 < U32
  {
    if pushes + 1 < U32 {
      PushRefines(r, pushes, item);
      LatestRefines(Pushed(r, item), pushes + 1);
    }
  }

  // ---- Pushes without end ----

  function AllPushed<T>(r: Ring<T>, items: seq<T>): (r': Ring<T>)
    requires Typed(r)
    ensures Typed(r')
    decreases |items|
  {
    if items == [] then r else Pushed(AllPushed(r, items[..|items| - 1]), items[|items| - 1])
  }

  function HeadCount(n: nat): nat { if n <= CAPACITY - 1 then 0 else (n - (CAPACITY - 1)) % U32 }

  /** The counters after `n` pushes and no pops, wrapped as often as it takes. */
  predicate Counted<T>(r: Ring<T>, n: nat) {
    Typed(r) && r.writeIndex == r.tail == n % U32 && r.head == HeadCount(n)
  }

  /** The head once it follows the tail: the tail is 32 steps ahead of it, so it takes one step. */
  lemma Lag(head: nat, tail: nat)
    requires head < U32 && tail == (if head + CAPACITY < U32 then head + CAPACITY else head + CAPACITY - U32)
    ensures (tail + U32 - head) % U32 == CAPACITY
    ensures (tail + U32 - (CAPACITY - 1)) % U32 == (head + 1) % U32
  {}

  lemma Around(i: nat, d: nat)
    requires d < U32
    ensures (i + d) % U32 == (var r := i % U32; if r + d < U32 then r + d else r + d - U32)
  {
    RingOffset(i, d, U32);
    var r := i % U32;
    if r + d < U32 { RemainderUnique(U32, 0, r + d); } else { RemainderUnique(U32, 1, r + d - U32); }
  }

  lemma PushCounts<T>(r: Ring<T>, n: nat, item: T)
    requires Counted(r, n)
    ensures var r' := Pushed(r, item); Counted(r', n + 1) && r'.slots[n % CAPACITY] == item
  {
    RingSuccessor(n, U32);
    SlotOfCounter(n);
    HeadMoves(n);
  }

  lemma HeadMoves(n: nat)
    ensures var head, tail := HeadCount(n), (n + 1) % U32;
            HeadCount(n + 1) ==
            if (tail + U32 - head) % U32 > CAPACITY - 1 then (tail + U32 - (CAPACITY - 1)) % U32 else head
  {
    if n >= CAPACITY - 1 {
      var k := n - (CAPACITY - 1);
      Around(k, CAPACITY);
      Lag(k % U32, (n + 1) % U32);
      RingSuccessor(k, U32);
      HeadStarts(k);
    } else {
      RemainderUnique(U32, 0, n + 1);
      RemainderUnique(U32, 1, n + 1);
    }
  }

  lemma HeadStarts(k: nat)
    ensures HeadCount(k + (CAPACITY - 1)) == k % U32
  {}

  /** The ring's size divides the counter's range, so wrapping never moves a slot. */
  lemma SlotOfCounter(n: nat)
    ensures (n % U32) % CAPACITY == n % CAPACITY
  {
    var q, r := n / U32, n % U32;
    assert n == CAPACITY * (q * (U32 / CAPACITY)) + r;
    RemainderUnique(CAPACITY, q * (U32 / CAPACITY) + r / CAPACITY, r % CAPACITY);
  }

  lemma {:induction false} PushesCount<T>(r: Ring<T>, items: seq<T>)
    requires Counted(r, 0)
    ensures Counted(AllPushed(r, items), |items|)
    ensures items != [] ==> AllPushed(r, items).slots[(|items| - 1) % CAPACITY] == items[|items| - 1]
    decreases |items|
  {
    if items != [] {
      var n := |items| - 1;
      PushesCount(r, items[..n]);
      PushCounts(AllPushed(r, items[..n]), n, items[n]);
    }
  }

  /** What `latest` shows after any number of pushes: always the newest snapshot, except before the
      first push and during the first 31 values of the tail after each wrap of the counters. */
  lemma LatestOfPushes<T>(r: Ring<T>, items: seq<T>)
    requires Counted(r, 0)
    ensures var n := |items|;
            Latest(AllPushed(r, items)) ==
            if n == 0 || (n >= U32 && n % U32 < CAPACITY - 1) then None else Some(items[n - 1])
  {
    var n := |items|;
    hide Pushed, HeadCount;
    PushesCount(r, items);
    HeadBehindTail(n);
    if n % U32 > 0 { SlotBefore(n); }
  }

  /** When the counters show something. */
  lemma HeadBehindTail(n: nat)
    ensures HeadCount(n) < n % U32 <==> n > 0 && (n < U32 || n % U32 >= CAPACITY - 1)
  {
    if n >= CAPACITY - 1 {
      Around(n - (CAPACITY - 1), CAPACITY - 1);
    }
    if n < U32 { RemainderUnique(U32, 0, n); }
  }

  lemma SlotBefore(n: nat)
    requires n % U32 > 0
    ensures (n % U32 - 1) % CAPACITY == (n - 1) % CAPACITY
  {
    assert (n - 1) % U32 == n % U32 - 1;
    SlotOfCounter(n - 1);
  }
}
