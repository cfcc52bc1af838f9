/** The single-producer single-consumer ring under every interleaving of its two threads.

    One machine serves the command queue of src/core/ControlLoop.cpp and the generic
    queue of src/utils/SpscQueue.cpp: each load, store and slot access of `push` and
    `pop` is a step of its own, and copying an item takes two steps, between which the
    slot holds no value at all. Steps are sequentially consistent. */
module SpscRing {
  import opened Wrappers
  import opened Words

  datatype Producer<T> =
    | Resting
    | TailLoaded(item: T, tail: nat)
    | Admitted(item: T, tail: nat, next: nat)
    | Writing(item: T, tail: nat, next: nat)
    | Written(item: T, tail: nat, next: nat)

  datatype Consumer<T> =
    | Waiting
    | HeadLoaded(head: nat)
    | NonEmpty(head: nat)
    | Reading(head: nat, first: Slot<T>)
    | Copied(head: nat, got: Slot<T>)

  /** `pushed` and `popped` are the histories of completed calls that returned true. */
  datatype State<T> = State(
    head: nat, tail: nat, slots: seq<Slot<T>>,
    producer: Producer<T>, consumer: Consumer<T>,
    pushed: seq<T>, popped: seq<Slot<T>>)

  /** Who moves next; a call to `push` brings its item along. */
  datatype Action<T> = Push(item: T) | ProducerStep | Pop | ConsumerStep

  ghost predicate IsInitial<T>(s: State<T>) {
    && s.head == 0 && s.tail == 0 && |s.slots| > 0
    && s.producer == Resting && s.consumer == Waiting
    && s.pushed == [] && s.popped == []
  }

  ghost predicate InRange<T>(s: State<T>) {
    && s.head < |s.slots| && s.tail < |s.slots|
    && (!s.producer.Resting? ==> s.producer.tail < |s.slots|)
    && (!s.consumer.Waiting? ==> s.consumer.head < |s.slots|)
  }

  ghost function ProducerStepped<T>(s: State<T>): (s': State<T>)
    requires InRange(s)
  {
    var n := |s.slots|;
    match s.producer
    case Resting => s
    case TailLoaded(item, tail) =>
      var next := (tail + 1) % n;
      if next == s.head then s.(producer := Resting) else s.(producer := Admitted(item, tail, next))
    case Admitted(item, tail, next) =>
      s.(producer := Writing(item, tail, next), slots := s.slots[tail := Torn])
    case Writing(item, tail, next) =>
      s.(producer := Written(item, tail, next), slots := s.slots[tail := Whole(item)])
    case Written(item, tail, next) =>
      s.(producer := Resting, tail := next, pushed := s.pushed + [item])
  }

  ghost function ConsumerStepped<T>(s: State<T>): (s': State<T>)
    requires InRange(s)
  {
    var n := |s.slots|;
    match s.consumer
    case Waiting => s
    case HeadLoaded(head) =>
      if head == s.tail then s.(consumer := Waiting) else s.(consumer := NonEmpty(head))
    case NonEmpty(head) =>
      s.(consumer := Reading(head, s.slots[head]))
    case Reading(head, first) =>
      s.(consumer := Copied(head, if s.slots[head] == first then first else Torn))
    case Copied(head, got) =>
      s.(consumer := Waiting, head := (head + 1) % n, popped := s.popped + [got])
  }

  ghost function Step<T>(s: State<T>, a: Action<T>): State<T>
    requires InRange(s)
  {
    match a
    case Push(item) => if s.producer.Resting? then s.(producer := TailLoaded(item, s.tail)) else s
    case ProducerStep => ProducerStepped(s)
    case Pop => if s.consumer.Waiting? then s.(consumer := HeadLoaded(s.head)) else s
    case ConsumerStep => ConsumerStepped(s)
  }

  // ---- The invariant ----

  ghost predicate ProducerHolds<T>(s: State<T>)
    requires InRange(s)
  {
    match s.producer
    case Resting => true
    case TailLoaded(_, tail) => tail == s.tail
    case Admitted(_, tail, next) => HasRoom(s, tail, next)
    case Writing(_, tail, next) => HasRoom(s, tail, next)
    case Written(item, tail, next) => HasRoom(s, tail, next) && s.slots[tail] == Whole(item)
  }

  ghost predicate HasRoom<T>(s: State<T>, tail: nat, next: nat)
    requires InRange(s)
  {
    tail == s.tail && next == (tail + 1) % |s.slots| && |s.pushed| - |s.popped| < |s.slots| - 1
  }

  ghost predicate ConsumerHolds<T>(s: State<T>)
    requires InRange(s)
  {
    match s.consumer
    case Waiting => true
    case HeadLoaded(head) => head == s.head
    case NonEmpty(head) => head == s.head && |s.popped| < |s.pushed|
    case Reading(head, first) => head == s.head && |s.popped| < |s.pushed| && first == Whole(s.pushed[|s.popped|])
    case Copied(head, got) => head == s.head && |s.popped| < |s.pushed| && got == Whole(s.pushed[|s.popped|])
  }

  ghost predicate LiveHolds<T>(s: State<T>)
    requires |s.slots| > 0
  {
    forall i :: |s.popped| <= i < |s.pushed| ==> s.slots[i % |s.slots|] == Whole(s.pushed[i])
  }

  ghost predicate Inv<T>(s: State<T>) {
    && InRange(s)
    && s.head == |s.popped| % |s.slots| && s.tail == |s.pushed| % |s.slots|
    && |s.popped| <= |s.pushed| < |s.popped| + |s.slots|
    && (forall i :: 0 <= i < |s.popped| ==> s.popped[i] == Whole(s.pushed[i]))
    && LiveHolds(s)
    && ProducerHolds(s)
    && ConsumerHolds(s)
  }

  lemma ProducerStepKeeps<T>(s: State<T>)
    requires Inv(s)
    ensures Inv(ProducerStepped(s))
    ensures |ProducerStepped(s).slots| == |s.slots|
  {
    var n := |s.slots|;
    var s' := ProducerStepped(s);
    if s.producer.TailLoaded? {
      RingSuccessor(|s.pushed|, n);
      if |s.pushed| - |s.popped| == n - 1 {
        RingFull(|s.popped|, n);
      }
    } else if s.producer.Admitted? || s.producer.Writing? {
      forall i | |s.popped| <= i < |s.pushed| ensures i % n != s.tail {
        RingDistinct(i, |s.pushed|, n);
      }
    } else if s.producer.Written? {
      RingSuccessor(|s.pushed|, n);
    }
  }

  lemma RingFull(i: nat, n: nat)
    requires n > 0
    ensures (i + n) % n == i % n
  {
    RemainderUnique(n, i / n + 1, i % n);
    assert n * (i / n + 1) + i % n == i + n;
  }

  lemma ConsumerStepKeeps<T>(s: State<T>)
    requires Inv(s)
    ensures Inv(ConsumerStepped(s))
    ensures |ConsumerStepped(s).slots| == |s.slots|
  {
    var n := |s.slots|;
    if s.consumer.HeadLoaded? && |s.popped| < |s.pushed| {
      RingDistinct(|s.popped|, |s.pushed|, n);
    } else if s.consumer.Copied? {
      RingSuccessor(|s.popped|, n);
    }
  }

  lemma StepKeeps<T>(s: State<T>, a: Action<T>)
    requires Inv(s)
    ensures Inv(Step(s, a)) && |Step(s, a).slots| == |s.slots|
  {
    match a
    case Push(_) =>
    case ProducerStep => ProducerStepKeeps(s);
    case Pop =>
    case ConsumerStep => ConsumerStepKeeps(s);
  }

  /** Running any schedule from a state of the invariant. */
  ghost function Run<T>(s: State<T>, schedule: seq<Action<T>>): (r: State<T>)
    requires Inv(s)
    ensures Inv(r) && |r.slots| == |s.slots|
    decreases |schedule|
  {
    if schedule == [] then s
    else
      StepKeeps(s, schedule[0]);
      Run(Step(s, schedule[0]), schedule[1..])
  }

  // ---- What every schedule guarantees ----

  /** What lies in the ring between head and tail. */
  ghost function Live<T>(s: State<T>): seq<Slot<T>>
    requires InRange(s)
  {
    var n := |s.slots|;
    seq((s.tail + n - s.head) % n, i requires 0 <= i => s.slots[(s.head + i) % n])
  }

  ghost function Wholes<T>(items: seq<T>): seq<Slot<T>> {
    seq(|items|, i requires 0 <= i < |items| => Whole(items[i]))
  }

  lemma LiveLength<T>(s: State<T>)
    requires Inv(s)
    ensures |Live(s)| == |s.pushed| - |s.popped|
  {
    var n, d := |s.slots|, |s.pushed| - |s.popped|;
    RingOffset(|s.popped|, d, n);
    var h := |s.popped| % n;
    if h + d < n {
      RemainderUnique(n, 0, h + d);
      RemainderUnique(n, 1, d);
    } else {
      RemainderUnique(n, 1, h + d - n);
      RemainderUnique(n, 0, d);
    }
  }

  /** First in, first out, nothing lost, duplicated or torn, for every schedule and every ring
      size: the items pushed are the items popped followed by what still lies in the ring,
      which never exceeds the capacity less one. */
  lemma Fifo<T>(initial: State<T>, schedule: seq<Action<T>>)
    requires IsInitial(initial)
    ensures Inv(initial)
    ensures var s := Run(initial, schedule);
            Wholes(s.pushed) == s.popped + Live(s) && |Live(s)| <= |initial.slots| - 1
  {
    RemainderUnique(|initial.slots|, 0, 0);
    var s := Run(initial, schedule);
    var n := |s.slots|;
    LiveLength(s);
    forall i | 0 <= i < |Live(s)| ensures Live(s)[i] == Whole(s.pushed[|s.popped| + i]) {
      RingOffset(|s.popped|, i, n);
    }
  }

  /** The producer never touches a slot that is live or that the consumer is reading. */
  lemma NoInterference<T>(s: State<T>, i: nat)
    requires Inv(s) && (s.producer.Admitted? || s.producer.Writing? || s.producer.Written?)
    ensures |s.popped| <= i < |s.pushed| ==> i % |s.slots| != s.producer.tail
    ensures s.consumer.NonEmpty? || s.consumer.Reading? || s.consumer.Copied? ==> s.consumer.head != s.producer.tail
  {
    if |s.popped| <= i < |s.pushed| {
      RingDistinct(i, |s.pushed|, |s.slots|);
    }
    if |s.popped| < |s.pushed| {
      RingDistinct(|s.popped|, |s.pushed|, |s.slots|);
    }
  }

  /** A push is refused exactly when the ring is full at the moment it looks at the head,
      and a pop reports nothing exactly when the ring is empty as it looks at the tail. */
  lemma Refusals<T>(s: State<T>)
    requires Inv(s)
    ensures s.producer.TailLoaded? ==>
              (ProducerStepped(s).producer.Resting? <==> |Live(s)| == |s.slots| - 1)
    ensures s.consumer.HeadLoaded? ==>
              (ConsumerStepped(s).consumer.Waiting? <==> Live(s) == [])
  {
    var n := |s.slots|;
    LiveLength(s);
    RingSuccessor(|s.pushed|, n);
    RingFull(|s.popped|, n);
    if |s.pushed| + 1 < |s.popped| + n {
      RingDistinct(|s.popped|, |s.pushed| + 1, n);
    }
    if |s.popped| < |s.pushed| {
      RingDistinct(|s.popped|, |s.pushed|, n);
    }
  }

  // ---- Undisturbed calls ----

  /** A push that nobody interrupts is the sequential push: it appends unless the ring is full. */
  lemma UndisturbedPush<T>(s: State<T>, item: T)
    requires Inv(s) && s.producer.Resting?
    ensures var r := ProducerStepped(ProducerStepped(ProducerStepped(ProducerStepped(Step(s, Push(item))))));
            && r.producer == Resting && r.popped == s.popped && r.head == s.head
            && r.pushed == if |s.pushed| - |s.popped| < |s.slots| - 1 then s.pushed + [item] else s.pushed
  {
    var s1 := Step(s, Push(item));
    StepKeeps(s, Push(item));
    LiveLength(s1);
    Refusals(s1);
    ProducerStepKeeps(s1);
    var s2 := ProducerStepped(s1);
    ProducerStepKeeps(s2);
    var s3 := ProducerStepped(s2);
    ProducerStepKeeps(s3);
  }

  /** A pop that nobody interrupts is the sequential pop: it takes the oldest item, if any. */
  lemma UndisturbedPop<T>(s: State<T>)
    requires Inv(s) && s.consumer.Waiting?
    ensures var r := ConsumerStepped(ConsumerStepped(ConsumerStepped(ConsumerStepped(Step(s, Pop)))));
            && r.consumer == Waiting && r.pushed == s.pushed && r.tail == s.tail
            && r.popped == if |s.popped| < |s.pushed| then s.popped + [Whole(s.pushed[|s.popped|])] else s.popped
  {
    var s1 := Step(s, Pop);
    StepKeeps(s, Pop);
    LiveLength(s1);
    Refusals(s1);
    ConsumerStepKeeps(s1);
    var s2 := ConsumerStepped(s1);
    ConsumerStepKeeps(s2);
    var s3 := ConsumerStepped(s2);
    ConsumerStepKeeps(s3);
  }
}
