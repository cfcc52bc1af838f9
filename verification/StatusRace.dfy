/** `StatusQueue::latest` against a concurrent `push`, step by step.

    The web server only ever calls `latest`, the control loop only `push`; every load,
    store and slot access is a step of its own, and a snapshot is copied in two steps,
    between which its slot holds nothing readable. Steps are sequentially consistent. */
module StatusRace {
  import opened Wrappers
  import opened Words
  import StatusQueue

  const CAPACITY := StatusQueue.CAPACITY
  const U32 := StatusQueue.U32

  datatype Writer<T> =
    | Resting
    | Claimed(item: T, index: nat)
    | Filling(item: T, index: nat)
    | Filled(index: nat)
    | Published(index: nat)
    | HeadSeen(index: nat, head: nat)

  /** `begun`, `looked` and `ended` are how many pushes had completed when the call loaded the
      tail, loaded the head and answered; `filled` is how many had begun to fill their slot when
      it answered. */
  datatype Reader<T> =
    | Idle
    | TailSeen(tail: nat, begun: nat)
    | Checked(tail: nat, begun: nat, looked: nat)
    | Copying(tail: nat, begun: nat, looked: nat, first: Slot<T>)
    | Answered(tail: nat, begun: nat, looked: nat, ended: nat, filled: nat, answer: Option<Slot<T>>)

  /** `items` are the snapshots pushed, in order; `completed` of those pushes have returned. */
  datatype State<T> = State(
    slots: seq<Slot<T>>, head: nat, tail: nat, writeIndex: nat,
    writer: Writer<T>, reader: Reader<T>, items: seq<T>, completed: nat)

  datatype Action<T> = Push(item: T) | WriterStep | Look | ReaderStep

  ghost predicate IsInitial<T>(s: State<T>) {
    && |s.slots| == CAPACITY && s.head == 0 && s.tail == 0 && s.writeIndex == 0
    && s.writer == Resting && s.reader == Idle && s.items == [] && s.completed == 0
  }

  ghost function Call<T>(s: State<T>, item: T): State<T> {
    if s.writer.Resting? then
      s.(writer := Claimed(item, s.writeIndex), writeIndex := (s.writeIndex + 1) % U32, items := s.items + [item])
    else s
  }

  ghost function WriterStepped<T>(s: State<T>): State<T>
    requires |s.slots| == CAPACITY
  {
    match s.writer
    case Resting => s
    case Claimed(item, index) =>
      s.(writer := Filling(item, index), slots := s.slots[index % CAPACITY := Torn])
    case Filling(item, index) =>
      s.(writer := Filled(index), slots := s.slots[index % CAPACITY := Whole(item)])
    case Filled(index) =>
      s.(writer := Published(index), tail := (index + 1) % U32)
    case Published(index) =>
      s.(writer := HeadSeen(index, s.head))
    case HeadSeen(index, head) =>
      var tail := (index + 1) % U32;
      var lag := (tail + U32 - head) % U32;
      s.(writer := Resting, completed := s.completed + 1,
         head := if lag > CAPACITY - 1 then (tail + U32 - (CAPACITY - 1)) % U32 else s.head)
  }

  /** How many pushes have begun to fill their slot. */
  ghost function FillCount<T>(s: State<T>): nat {
    if s.writer.Claimed? && |s.items| > 0 then |s.items| - 1 else |s.items|
  }

  ghost function ReaderStepped<T>(s: State<T>): State<T>
    requires |s.slots| == CAPACITY
  {
    match s.reader
    case Idle => s
    case TailSeen(tail, begun) =>
      if s.head >= tail then s.(reader := Answered(tail, begun, s.completed, s.completed, FillCount(s), None))
      else s.(reader := Checked(tail, begun, s.completed))
    case Checked(tail, begun, looked) =>
      if tail == 0 then s else s.(reader := Copying(tail, begun, looked, s.slots[(tail - 1) % CAPACITY]))
    case Copying(tail, begun, looked, first) =>
      if tail == 0 then s
      else
        var now := s.slots[(tail - 1) % CAPACITY];
        s.(reader := Answered(tail, begun, looked, s.completed, FillCount(s), Some(if now == first then first else Torn)))
    case Answered(_, _, _, _, _, _) => s
  }

  ghost function Step<T>(s: State<T>, a: Action<T>): State<T>
    requires |s.slots| == CAPACITY
  {
    match a
    case Push(item) => Call(s, item)
    case WriterStep => WriterStepped(s)
    case Look => if s.reader.Idle? || s.reader.Answered? then s.(reader := TailSeen(s.tail, s.completed)) else s
    case ReaderStep => ReaderStepped(s)
  }

  ghost function Run<T>(s: State<T>, schedule: seq<Action<T>>): (r: State<T>)
    requires |s.slots| == CAPACITY
    ensures |r.slots| == CAPACITY && |s.items| <= |r.items|
    decreases |schedule|
  {
    if schedule == [] then s else Run(Step(s, schedule[0]), schedule[1..])
  }

  // ---- The invariant ----

  function HeadAfter(completed: nat): nat {
    if completed <= CAPACITY - 1 then 0 else completed - (CAPACITY - 1)
  }

  ghost predicate WriterHolds<T>(s: State<T>)
    requires |s.slots| == CAPACITY
  {
    if s.writer.Resting? then s.completed == |s.items| && s.tail == s.completed
    else
      && s.completed + 1 == |s.items| && s.writer.index == s.completed
      && s.tail == (if s.writer.Published? || s.writer.HeadSeen? then s.completed + 1 else s.completed)
      && (s.writer.HeadSeen? ==> s.writer.head == s.head)
      && (s.writer.Claimed? || s.writer.Filling? ==> s.writer.item == s.items[s.completed])
      && (!s.writer.Claimed? && !s.writer.Filling? ==> s.slots[s.completed % CAPACITY] == Whole(s.items[s.completed]))
  }

  /** What every slot holds: the newest item that has begun to be filled into it, or nothing
      readable while that is going on. */
  ghost predicate SlotsHold<T>(s: State<T>)
    requires |s.slots| == CAPACITY
  {
    forall i :: 0 <= i < FillCount(s) <= i + CAPACITY ==>
      s.slots[i % CAPACITY] == if s.writer.Filling? && i == s.completed then Torn else Whole(s.items[i])
  }

  /** When the head load of a call makes it answer that there is nothing. */
  predicate LooksEmpty(tail: nat, looked: nat) { tail == 0 || looked >= tail + 31 }

  /** The slot of the tail-th snapshot has been taken over by a later one. */
  ghost predicate Overtaken<T>(s: State<T>, tail: nat, answer: Slot<T>) {
    answer == Torn ||
    exists i :: tail + 31 <= i < |s.items| && i % CAPACITY == (tail + 31) % CAPACITY && answer == Whole(s.items[i])
  }

  /** The guarantee to a reader, as far as its call has come. */
  ghost predicate ReaderHolds<T>(s: State<T>) {
    match s.reader
    case Idle => true
    case TailSeen(tail, begun) => Sighted(s, tail, begun)
    case Checked(tail, begun, looked) =>
      Sighted(s, tail, begun) && !LooksEmpty(tail, looked) && begun <= looked <= s.completed
    case Copying(tail, begun, looked, first) =>
      Sighted(s, tail, begun) && !LooksEmpty(tail, looked) && begun <= looked <= s.completed &&
      (FillCount(s) <= tail + 31 ==> first == Whole(s.items[tail - 1]))
    case Answered(tail, begun, looked, ended, filled, answer) =>
      Sighted(s, tail, begun) && begun <= looked <= ended <= s.completed && filled <= ended + 1 &&
      (answer == None <==> LooksEmpty(tail, looked)) &&
      (answer.Some? && filled <= tail + 31 ==> answer.value == Whole(s.items[tail - 1])) &&
      (answer.Some? && filled >= tail + 32 ==> Overtaken(s, tail, answer.value))
  }

  ghost predicate Sighted<T>(s: State<T>, tail: nat, begun: nat) {
    begun <= tail <= begun + 1 && tail <= s.tail && tail <= |s.items| && begun <= s.completed
  }

  ghost predicate Inv<T>(s: State<T>) {
    && |s.slots| == CAPACITY
    && |s.items| < U32
    && s.writeIndex == |s.items|
    && s.head == HeadAfter(s.completed)
    && WriterHolds(s)
    && SlotsHold(s)
    && ReaderHolds(s)
  }

  lemma FilledSteps<T>(s: State<T>)
    requires Inv(s)
    ensures s.completed <= FillCount(s) <= s.completed + 1
    ensures FillCount(WriterStepped(s)) == FillCount(s) + (if s.writer.Claimed? then 1 else 0)
  {}

  lemma FillKeeps<T>(s: State<T>)
    requires Inv(s) && (s.writer.Claimed? || s.writer.Filling?)
    ensures SlotsHold(WriterStepped(s))
  {
    var s' := WriterStepped(s);
    FilledSteps(s);
    forall i | 0 <= i < FillCount(s') <= i + CAPACITY && i != s.completed
      ensures i % CAPACITY != s.completed % CAPACITY
    {
      RingDistinct(i, s.completed, CAPACITY);
    }
  }

  /** Steps of the writer never take back what a reader was promised. */
  lemma ReaderUndisturbed<T>(s: State<T>)
    requires Inv(s)
    ensures ReaderHolds(WriterStepped(s))
  {
    FilledSteps(s);
  }

  lemma WriterStepKeeps<T>(s: State<T>)
    requires Inv(s)
    ensures Inv(WriterStepped(s))
  {
    ReaderUndisturbed(s);
    if s.writer.HeadSeen? {
      var tail := s.completed + 1;
      assert (tail + U32 - s.head) % U32 == tail - s.head;
      assert WriterStepped(s).head == HeadAfter(tail);
    } else if s.writer.Claimed? || s.writer.Filling? {
      FillKeeps(s);
    }
  }

  /** While at most tail + 31 pushes have begun to fill, the sighted snapshot is whole in its slot. */
  lemma SightedIsWhole<T>(s: State<T>, tail: nat, begun: nat)
    requires Inv(s) && Sighted(s, tail, begun) && 1 <= tail && FillCount(s) <= tail + 31
    ensures s.slots[(tail - 1) % CAPACITY] == Whole(s.items[tail - 1])
  {}

  /** From then on the slot holds a later snapshot, or none. */
  lemma SightedIsOvertaken<T>(s: State<T>, tail: nat, begun: nat)
    requires Inv(s) && Sighted(s, tail, begun) && 1 <= tail && FillCount(s) >= tail + 32
    ensures Overtaken(s, tail, s.slots[(tail - 1) % CAPACITY])
  {
    var i := NewestInSlot(FillCount(s), tail + 31);
    assert (tail - 1) % CAPACITY == (tail + 31) % CAPACITY == i % CAPACITY;
  }

  /** The newest of `n` items that lies in the slot of the a-th. */
  lemma NewestInSlot(n: nat, a: nat) returns (i: nat)
    requires a < n
    ensures a <= i < n <= i + CAPACITY && i % CAPACITY == a % CAPACITY
  {
    var q := (n - 1 - a) / CAPACITY;
    i := a + CAPACITY * q;
    RemainderUnique(CAPACITY, a / CAPACITY + q, a % CAPACITY);
  }

  lemma CopyKeeps<T>(s: State<T>)
    requires Inv(s) && s.reader.Copying?
    ensures ReaderHolds(ReaderStepped(s))
  {
    var tail := s.reader.tail;
    FilledSteps(s);
    if FillCount(s) <= tail + 31 {
      SightedIsWhole(s, tail, s.reader.begun);
    } else {
      SightedIsOvertaken(s, tail, s.reader.begun);
      OvertakenKept(s, ReaderStepped(s), tail, s.slots[(tail - 1) % CAPACITY]);
    }
  }

  lemma OvertakenKept<T>(s: State<T>, s': State<T>, tail: nat, answer: Slot<T>)
    requires Overtaken(s, tail, answer) && s.items <= s'.items
    ensures Overtaken(s', tail, answer)
  {
    if answer != Torn {
      var i :| tail + 31 <= i < |s.items| && i % CAPACITY == (tail + 31) % CAPACITY && answer == Whole(s.items[i]);
      assert answer == Whole(s'.items[i]);
    }
  }

  lemma ReaderStepHolds<T>(s: State<T>)
    requires Inv(s)
    ensures ReaderHolds(ReaderStepped(s))
  {
    if s.reader.Copying? {
      CopyKeeps(s);
    } else if s.reader.Checked? && FillCount(s) <= s.reader.tail + 31 {
      SightedIsWhole(s, s.reader.tail, s.reader.begun);
    } else if s.reader.TailSeen? {
      FilledSteps(s);
    }
  }

  lemma ReaderStepKeeps<T>(s: State<T>)
    requires Inv(s)
    ensures Inv(ReaderStepped(s))
  {
    hide ReaderHolds;
    ReaderStepHolds(s);
    assert ReaderStepped(s) == s.(reader := ReaderStepped(s).reader);
  }

  lemma CallKeeps<T>(s: State<T>, item: T)
    requires Inv(s) && |s.items| + 1 < U32
    ensures Inv(Call(s, item))
  {
    var s' := Call(s, item);
    assert s.items <= s'.items;
    if s.reader.Answered? && s.reader.answer.Some? && s.reader.filled >= s.reader.tail + 32 {
      OvertakenKept(s, s', s.reader.tail, s.reader.answer.value);
    }
  }

  lemma StepKeeps<T>(s: State<T>, a: Action<T>)
    requires Inv(s) && |Step(s, a).items| < U32
    ensures Inv(Step(s, a))
  {
    match a
    case Push(item) => if s.writer.Resting? { CallKeeps(s, item); }
    case WriterStep => WriterStepKeeps(s);
    case Look =>
    case ReaderStep => ReaderStepKeeps(s);
  }

  lemma {:induction false} RunKeeps<T>(s: State<T>, schedule: seq<Action<T>>)
    requires Inv(s) && |Run(s, schedule).items| < U32
    ensures Inv(Run(s, schedule))
    decreases |schedule|
  {
    if schedule != [] {
      assert |Step(s, schedule[0]).items| <= |Run(s, schedule).items|;
      StepKeeps(s, schedule[0]);
      RunKeeps(Step(s, schedule[0]), schedule[1..]);
    }
  }

  /** What a call answers, under every schedule with fewer than 2^32 pushes. It answers that there
      is nothing exactly when the tail it loaded is zero or 31 more pushes than that tail had
      completed as it loaded the head. Otherwise it returns the snapshot before the tail, whole, if
      at most tail + 31 pushes had begun to fill their slots by the end of the copy; from the next
      push on it returns a torn or a later snapshot, never an older one. */
  lemma LatestExactly<T>(initial: State<T>, schedule: seq<Action<T>>)
    requires IsInitial(initial) && |Run(initial, schedule).items| < U32
    ensures var s := Run(initial, schedule);
            s.reader.Answered? ==>
              var tail, answer := s.reader.tail, s.reader.answer;
              && s.reader.begun <= tail <= s.reader.begun + 1 && tail <= |s.items|
              && (answer == None <==> tail == 0 || s.reader.looked >= tail + 31)
              && (answer.Some? && s.reader.filled <= tail + 31 ==> answer.value == Whole(s.items[tail - 1]))
              && (answer.Some? && s.reader.filled >= tail + 32 ==> Overtaken(s, tail, answer.value))
  {
    RunKeeps(initial, schedule);
  }

  /** In terms of completed pushes alone: a call whose tail load saw t >= 1, and during which at
      most 30 pushes completed, returns exactly the t-th snapshot, untorn. It is at least as new as
      the last push completed before the call. */
  lemma LatestIsFresh<T>(initial: State<T>, schedule: seq<Action<T>>)
    requires IsInitial(initial) && |Run(initial, schedule).items| < U32
    ensures var s := Run(initial, schedule);
            s.reader.Answered? ==>
              && s.reader.begun <= s.reader.tail <= |s.items|
              && (s.reader.tail >= 1 && s.reader.ended - s.reader.begun <= 30 ==>
                    s.reader.answer == Some(Whole(s.items[s.reader.tail - 1])))
  {
    RunKeeps(initial, schedule);
  }

  // ---- The bounds are met ----

  /** One undisturbed push. */
  function FullPush<T>(item: T): seq<Action<T>> {
    [Push(item), WriterStep, WriterStep, WriterStep, WriterStep, WriterStep]
  }

  function Pushes<T>(item: T, k: nat): seq<Action<T>> {
    if k == 0 then [] else FullPush(item) + Pushes(item, k - 1)
  }

  lemma {:induction false} RunConcat<T>(s: State<T>, a: seq<Action<T>>, b: seq<Action<T>>)
    requires |s.slots| == CAPACITY
    ensures Run(s, a + b) == Run(Run(s, a), b)
    decreases |a|
  {
    if a == [] {
      assert a + b == b;
    } else {
      assert (a + b)[1..] == a[1..] + b;
      RunConcat(Step(s, a[0]), a[1..], b);
    }
  }

  lemma SoloPush<T>(s: State<T>, item: T)
    requires Inv(s) && s.writer.Resting? && |s.items| + 1 < U32
    ensures var r := Run(s, FullPush(item));
            Inv(r) && r.writer.Resting? && r.completed == s.completed + 1 && r.reader == s.reader
  {
    var s1 := Step(s, Push(item));
    StepKeeps(s, Push(item));
    assert FullPush(item)[1..] == Steps(5);
    SoloSteps(s1, 5);
  }

  function Steps<T>(n: nat): seq<Action<T>> {
    if n == 0 then [] else [WriterStep] + Steps(n - 1)
  }

  function StepsLeft<T>(w: Writer<T>): nat {
    match w
    case Resting => 0
    case Claimed(_, _) => 5
    case Filling(_, _) => 4
    case Filled(_) => 3
    case Published(_) => 2
    case HeadSeen(_, _) => 1
  }

  lemma {:induction false} SoloSteps<T>(s: State<T>, n: nat)
    requires Inv(s) && n == StepsLeft(s.writer)
    ensures var r := Run(s, Steps(n));
            Inv(r) && r.writer.Resting? && r.completed == s.completed + (if n == 0 then 0 else 1) && r.reader == s.reader
    decreases n
  {
    if n > 0 {
      WriterStepKeeps(s);
      assert Steps<T>(n)[1..] == Steps(n - 1);
      SoloSteps(WriterStepped(s), n - 1);
    }
  }

  lemma RunOne<T>(s: State<T>, a: Action<T>)
    requires |s.slots| == CAPACITY
    ensures Run(s, [a]) == Step(s, a)
  {
    assert [a][1..] == [];
  }

  lemma {:induction false} SoloPushes<T>(s: State<T>, item: T, k: nat)
    requires Inv(s) && s.writer.Resting? && |s.items| + k < U32
    ensures var r := Run(s, Pushes(item, k));
            Inv(r) && r.writer.Resting? && r.completed == s.completed + k && r.reader == s.reader
    decreases k
  {
    if k > 0 {
      SoloPush(s, item);
      RunConcat(s, FullPush(item), Pushes(item, k - 1));
      SoloPushes(Run(s, FullPush(item)), item, k - 1);
    }
  }

  /** If 31 pushes complete between the two loads of a call, it answers that there is nothing,
      although at least one snapshot has been there all along. */
  lemma ThirtyOneIsTooMany<T>(s: State<T>, item: T)
    requires Inv(s) && s.writer.Resting? && (s.reader.Idle? || s.reader.Answered?)
    requires 1 <= s.completed && s.completed + 31 < U32
    ensures var r := Run(s, [Look] + Pushes(item, 31) + [ReaderStep]);
            r.reader == Answered(s.completed, s.completed, s.completed + 31, s.completed + 31, s.completed + 31, None)
  {
    var looking := Step(s, Look);
    StepKeeps(s, Look);
    SoloPushes(looking, item, 31);
    RunOne(s, Look);
    RunConcat(s, [Look], Pushes(item, 31));
    RunConcat(s, [Look] + Pushes(item, 31), [ReaderStep]);
    RunOne(Run(looking, Pushes(item, 31)), ReaderStep);
  }

  /** If 32 pushes complete between the head load of a call and its copy, it returns a torn or a
      later snapshot. */
  lemma ThirtyTwoOvertake<T>(s: State<T>, item: T)
    requires Inv(s) && s.writer.Resting? && (s.reader.Idle? || s.reader.Answered?)
    requires 1 <= s.completed && s.completed + 32 < U32
    ensures var r := Run(s, [Look, ReaderStep] + Pushes(item, 32) + [ReaderStep, ReaderStep]);
            && r.reader.Answered? && r.reader.tail == s.completed && r.reader.filled == s.completed + 32
            && r.reader.answer.Some? && Overtaken(r, s.completed, r.reader.answer.value)
  {
    var looking := Step(s, Look);
    var checked := Step(looking, ReaderStep);
    CheckedAt(s);
    SoloPushes(checked, item, 32);
    var pushed := Run(checked, Pushes(item, 32));
    RunTwo(s, Look, ReaderStep);
    RunConcat(s, [Look, ReaderStep], Pushes(item, 32));
    RunConcat(s, [Look, ReaderStep] + Pushes(item, 32), [ReaderStep, ReaderStep]);
    RunTwo(pushed, ReaderStep, ReaderStep);
    CopiesOvertaken(pushed);
  }

  lemma CheckedAt<T>(s: State<T>)
    requires Inv(s) && s.writer.Resting? && (s.reader.Idle? || s.reader.Answered?) && 1 <= s.completed
    ensures var c := Step(Step(s, Look), ReaderStep);
            && Inv(c) && c.writer == s.writer && c.items == s.items && c.completed == s.completed
            && c.reader == Checked(s.completed, s.completed, s.completed)
  {
    StepKeeps(s, Look);
    StepKeeps(Step(s, Look), ReaderStep);
  }

  lemma CopiesOvertaken<T>(s: State<T>)
    requires Inv(s) && s.writer.Resting? && s.reader.Checked? && s.completed >= s.reader.tail + 32
    ensures var r := Step(Step(s, ReaderStep), ReaderStep);
            && r.reader.Answered? && r.reader.tail == s.reader.tail && r.reader.filled == s.completed
            && r.reader.answer.Some? && Overtaken(r, s.reader.tail, r.reader.answer.value)
  {
    StepKeeps(s, ReaderStep);
    StepKeeps(Step(s, ReaderStep), ReaderStep);
  }

  lemma RunTwo<T>(s: State<T>, a: Action<T>, b: Action<T>)
    requires |s.slots| == CAPACITY
    ensures Run(s, [a, b]) == Step(Step(s, a), b)
  {
    assert [a, b][1..] == [b];
    RunOne(Step(s, a), b);
  }
}
