/** Sleeping and waking the control loop: `kick`, `stop` and the waits of `threadFunc`.

    Three threads share the mutex, the kick generation and the condition variable: the
    loop, the web server that pushes a command and then kicks, and the thread that
    requests the stop and then kicks. A sleeping loop may be notified, may time out and
    may wake for no reason; `wait_for` re-tests its predicate each time. */
module WakeUp {

  const QUEUE_LIMIT := 15

  /** The loop sleeps in three places: after a cycle, between attempts to reconnect, and after the
      last of them; in the last two its predicate is the stop request alone. */
  datatype Wait = Main | Reconnect | GivenUp

  /** In the testing states `expired` says that the wait has timed out, so that a false
      predicate ends it, and `notified` that a notification ended the last sleep. */
  datatype Loop =
    | AtTop
    | Connecting
    | Dialing
    | Draining
    | Polling
    | WantsLock(wait: Wait)
    | Observing
    | TestStop(wait: Wait, expired: bool, notified: bool)
    | TestGeneration(expired: bool, notified: bool)
    | TestQueue(expired: bool, notified: bool)
    | Blocking(wait: Wait)
    | Asleep(wait: Wait, notified: bool)
    | Relocking(wait: Wait, expired: bool, notified: bool)
    | Unlocking(wait: Wait)
    | Exited

  datatype Kicker = Calm | Owes | Locked | Bumped | Notified

  datatype Owner = Free | ByLoop | ByProducer | ByStopper

  datatype State = State(
    loop: Loop, producer: Kicker, stopper: Kicker, mutex: Owner,
    generation: nat, observed: nat, queued: nat, stop: bool)

  /** What the loop cannot decide itself: whether it is or gets connected, whether it has tried
      often enough, whether there is time left to sleep, and what ends a sleep. */
  datatype Choice = Go | Retry | GiveUp | TimeOut | Spurious

  datatype Action = LoopStep(choice: Choice) | Push | ProducerStep | RequestStop | StopperStep

  const INITIAL := State(AtTop, Calm, Calm, Free, 0, 0, 0, false)

  /** The predicate came out false: sleep, or give up if the time is over. */
  function PredicateFalse(wait: Wait, expired: bool): Loop {
    if expired then Unlocking(wait) else Blocking(wait)
  }

  function LoopStepped(s: State, choice: Choice): State {
    match s.loop
    case AtTop => s.(loop := if s.stop then Exited else Connecting)
    case Connecting =>
      s.(loop := if choice.Go? then Draining
                 else if choice.GiveUp? then WantsLock(GivenUp)
                 else if s.stop then Draining else Dialing)
    case Dialing => s.(loop := if choice.Go? then Draining else WantsLock(Reconnect))
    case Draining =>
      if s.queued > 0 then s.(queued := s.queued - 1) else s.(loop := Polling)
    case Polling => s.(loop := if choice.Go? then WantsLock(Main) else AtTop)
    case WantsLock(wait) =>
      if s.mutex.Free?
      then s.(mutex := ByLoop, loop := if wait.Main? then Observing else TestStop(wait, false, false))
      else s
    case Observing => s.(observed := s.generation, loop := TestStop(Main, false, false))
    case TestStop(wait, expired, notified) =>
      if s.stop then s.(loop := Unlocking(wait))
      else if wait.Main? then s.(loop := TestGeneration(expired, notified))
      else s.(loop := PredicateFalse(wait, expired))
    case TestGeneration(expired, notified) =>
      s.(loop := if s.generation != s.observed then Unlocking(Main) else TestQueue(expired, notified))
    case TestQueue(expired, _) =>
      s.(loop := if s.queued > 0 then Unlocking(Main) else PredicateFalse(Main, expired))
    case Blocking(wait) => s.(mutex := Free, loop := Asleep(wait, false))
    case Asleep(wait, notified) =>
      if choice.TimeOut? then s.(loop := Relocking(wait, true, notified))
      else if notified || choice.Spurious? then s.(loop := Relocking(wait, false, notified))
      else s
    case Relocking(wait, expired, notified) =>
      if s.mutex.Free? then s.(mutex := ByLoop, loop := TestStop(wait, expired, notified)) else s
    case Unlocking(wait) => s.(mutex := Free, loop := if wait.Reconnect? then Connecting else AtTop)
    case Exited => s
  }

  /** `notify_one` reaches the loop if it is asleep, and nobody otherwise. */
  function Notify(loop: Loop): Loop {
    match loop
    case Asleep(wait, _) => Asleep(wait, true)
    case _ => loop
  }

  function ProducerStepped(s: State): State {
    match s.producer
    case Calm => s
    case Owes => if s.mutex.Free? then s.(mutex := ByProducer, producer := Locked) else s
    case Locked => s.(generation := s.generation + 1, producer := Bumped)
    case Bumped => s.(loop := Notify(s.loop), producer := Notified)
    case Notified => s.(mutex := Free, producer := Calm)
  }

  function StopperStepped(s: State): State {
    match s.stopper
    case Calm => s
    case Owes => if s.mutex.Free? then s.(mutex := ByStopper, stopper := Locked) else s
    case Locked => s.(generation := s.generation + 1, stopper := Bumped)
    case Bumped => s.(loop := Notify(s.loop), stopper := Notified)
    case Notified => s.(mutex := Free, stopper := Calm)
  }

  function Step(s: State, a: Action): State {
    match a
    case LoopStep(choice) => LoopStepped(s, choice)
    case Push =>
      if s.producer.Calm? && s.queued < QUEUE_LIMIT then s.(queued := s.queued + 1, producer := Owes) else s
    case ProducerStep => ProducerStepped(s)
    case RequestStop => if s.stopper.Calm? && !s.stop then s.(stop := true, stopper := Owes) else s
    case StopperStep => StopperStepped(s)
  }

  function Run(s: State, schedule: seq<Action>): State
    decreases |schedule|
  {
    if schedule == [] then s else Run(Step(s, schedule[0]), schedule[1..])
  }

  // ---- The invariant ----

  predicate KickToCome(k: Kicker) { k.Owes? || k.Locked? || k.Bumped? }

  predicate Holds(k: Kicker) { k.Locked? || k.Bumped? || k.Notified? }

  predicate LoopHolds(loop: Loop) {
    loop.Observing? || loop.TestStop? || loop.TestGeneration? || loop.TestQueue? || loop.Blocking? || loop.Unlocking?
  }

  predicate MutexHolds(s: State) {
    && (LoopHolds(s.loop) <==> s.mutex == ByLoop)
    && (Holds(s.producer) <==> s.mutex == ByProducer)
    && (Holds(s.stopper) <==> s.mutex == ByStopper)
  }

  predicate StopAnnounced(s: State) { s.stop ==> KickToCome(s.stopper) }

  predicate CommandAnnounced(s: State) { s.queued > 0 ==> KickToCome(s.producer) }

  predicate SleepHolds(s: State) {
    match s.loop
    case TestGeneration(_, _) => StopAnnounced(s)
    case TestQueue(_, _) => StopAnnounced(s) && s.generation == s.observed
    case Blocking(wait) => StopAnnounced(s) && (wait.Main? ==> CommandAnnounced(s))
    case Asleep(wait, notified) =>
      !notified ==> StopAnnounced(s) && (wait.Main? ==> CommandAnnounced(s))
    case _ => true
  }

  predicate AfterKick(s: State, wait: Wait, notified: bool) {
    wait.Main? && (notified || s.producer.Bumped? || s.stopper.Bumped?) ==> s.generation > s.observed
  }

  /** A kick that is noticed has moved the generation past what the loop observed. */
  predicate GenerationHolds(s: State) {
    && s.observed <= s.generation
    && match s.loop
       case Asleep(wait, notified) => AfterKick(s, wait, notified)
       case Relocking(wait, _, notified) => wait.Main? && notified ==> s.generation > s.observed
       case TestStop(wait, _, notified) => wait.Main? && notified ==> s.generation > s.observed
       case TestGeneration(_, notified) => notified ==> s.generation > s.observed
       case TestQueue(_, notified) => !notified
       case _ => true
  }

  predicate Inv(s: State) {
    MutexHolds(s) && SleepHolds(s) && GenerationHolds(s)
  }

  lemma LoopKeepsMutex(s: State, choice: Choice)
    requires Inv(s)
    ensures MutexHolds(LoopStepped(s, choice))
  {}

  lemma LoopKeepsSleep(s: State, choice: Choice)
    requires Inv(s)
    ensures SleepHolds(LoopStepped(s, choice))
  {}

  lemma LoopKeepsGeneration(s: State, choice: Choice)
    requires Inv(s)
    ensures GenerationHolds(LoopStepped(s, choice))
  {}

  lemma LoopStepKeeps(s: State, choice: Choice)
    requires Inv(s)
    ensures Inv(LoopStepped(s, choice))
  {
    LoopKeepsMutex(s, choice);
    LoopKeepsSleep(s, choice);
    LoopKeepsGeneration(s, choice);
  }

  lemma StepKeeps(s: State, a: Action)
    requires Inv(s)
    ensures Inv(Step(s, a))
  {
    match a
    case LoopStep(choice) => LoopStepKeeps(s, choice);
    case Push =>
    case ProducerStep =>
    case RequestStop =>
    case StopperStep =>
  }

  lemma {:induction false} RunKeeps(s: State, schedule: seq<Action>)
    requires Inv(s)
    ensures Inv(Run(s, schedule))
    decreases |schedule|
  {
    if schedule != [] {
      StepKeeps(s, schedule[0]);
      RunKeeps(Step(s, schedule[0]), schedule[1..]);
    }
  }

  /** No lost wake-up, in every interleaving: while the loop sleeps and no notification is
      pending, a command lies in the queue only if its producer still owes the kick (and the
      loop waits for commands at all), and a stop is requested only if its kick is to come. */
  lemma NoLostWakeUp(schedule: seq<Action>)
    ensures var s := Run(INITIAL, schedule);
            s.loop.Asleep? && !s.loop.notified ==>
              && (s.stop ==> KickToCome(s.stopper))
              && (s.loop.wait.Main? && s.queued > 0 ==> KickToCome(s.producer))
  {
    RunKeeps(INITIAL, schedule);
  }

  /** A notified loop never goes back to sleep in the same wait after a cycle: once its test
      reaches the generation, in whatever order other threads ran, the wait is over. */
  lemma NotificationEndsWait(schedule: seq<Action>, choice: Choice)
    ensures var s := Run(INITIAL, schedule);
            (s.loop.TestGeneration? && s.loop.notified ==> LoopStepped(s, choice).loop == Unlocking(Main)) &&
            (s.loop.TestQueue? ==> !s.loop.notified)
  {
    RunKeeps(INITIAL, schedule);
  }

  // ---- Delivery ----

  /** The loop is in one of its waits, from taking the mutex to giving it back. */
  predicate InWait(loop: Loop) {
    loop.WantsLock? || loop.Asleep? || loop.Relocking? || LoopHolds(loop)
  }

  function WaitOf(loop: Loop): Wait
    requires InWait(loop)
  {
    if loop.Observing? || loop.TestGeneration? || loop.TestQueue? then Main else loop.wait
  }

  /** The sleep has timed out, or the wait is just ending. */
  predicate TimeIsUp(loop: Loop) {
    match loop
    case Relocking(_, expired, _) => expired
    case TestStop(_, expired, _) => expired
    case TestGeneration(expired, _) => expired
    case TestQueue(expired, _) => expired
    case Unlocking(_) => true
    case _ => false
  }

  /** There is a reason to end this wait: a stop request, a command in the wait after a cycle, or
      the time is up. */
  predicate Wanted(s: State)
    requires InWait(s.loop)
  {
    s.stop || (WaitOf(s.loop).Main? && s.queued > 0) || TimeIsUp(s.loop)
  }

  /** The loop cannot block before its wait is over: a stop is seen from the next test of the stop
      request on, a command by every test that is still to come, and a time-out by them all. */
  predicate PastBlocking(s: State)
    requires InWait(s.loop)
  {
    || (WaitOf(s.loop).Main? && s.queued > 0 && !s.loop.Blocking?)
    || (s.stop && !s.loop.TestGeneration? && !s.loop.TestQueue? && !s.loop.Blocking?)
    || TimeIsUp(s.loop)
  }

  function KickerSteps(k: Kicker): nat {
    match k case Owes => 4 case Locked => 3 case Bumped => 2 case Notified => 1 case Calm => 0
  }

  /** How far the loop is from the end of its wait. A stop that comes after its test is only seen
      after one more sleep. */
  function LoopSteps(loop: Loop, stop: bool): nat {
    match loop
    case WantsLock(_) => if stop then 4 else 6
    case Observing => if stop then 3 else 5
    case TestStop(_, _, _) => if stop then 2 else 4
    case TestGeneration(_, _) => if stop then 7 else 3
    case TestQueue(_, _) => if stop then 6 else 2
    case Blocking(_) => if stop then 5 else 7
    case Asleep(_, _) => if stop then 4 else 6
    case Relocking(_, _, _) => if stop then 3 else 5
    case Unlocking(_) => 1
    case _ => 0
  }

  function StepsLeft(s: State): nat {
    KickerSteps(s.producer) + KickerSteps(s.stopper) + LoopSteps(s.loop, s.stop)
  }

  /** A step of a thread that is under way already, as opposed to a new push or stop request. */
  predicate Continues(a: Action) { a.LoopStep? || a.ProducerStep? || a.StopperStep? }

  /** No step of any thread takes back a reason to end the wait, nor lets the loop block again once
      it is past blocking. */
  lemma ReasonStays(s: State, a: Action)
    requires InWait(s.loop)
    ensures var t := Step(s, a);
            InWait(t.loop) ==>
              WaitOf(t.loop) == WaitOf(s.loop) && (Wanted(s) ==> Wanted(t)) && (PastBlocking(s) ==> PastBlocking(t))
  {}

  /** Every effective step of a thread under way brings the end of a wanted wait nearer. */
  lemma EnabledStepsApproach(s: State, a: Action)
    requires InWait(s.loop) && Wanted(s) && Continues(a) && Step(s, a) != s
    ensures StepsLeft(Step(s, a)) < StepsLeft(s)
  {}

  /** And there always is one, without any time-out: somebody can move. */
  lemma SomebodyCanMove(s: State)
    requires Inv(s) && InWait(s.loop) && Wanted(s)
    ensures Step(s, LoopStep(Go)) != s || Step(s, ProducerStep) != s || Step(s, StopperStep) != s
  {}

  /** The wait ends in the course of a schedule. */
  predicate Ends(s: State, schedule: seq<Action>)
    decreases |schedule|
  {
    !InWait(s.loop) || (schedule != [] && Ends(Step(s, schedule[0]), schedule[1..]))
  }

  /** Until the wait is over, each step of a schedule continues a thread and has an effect. */
  predicate Effective(s: State, schedule: seq<Action>)
    decreases |schedule|
  {
    !InWait(s.loop) || schedule == [] ||
    (Continues(schedule[0]) && Step(s, schedule[0]) != s && Effective(Step(s, schedule[0]), schedule[1..]))
  }

  /** Delivery, for every schedule: with a stop requested or the time up in any wait, or a command
      queued in the wait after a cycle, any fifteen effective steps of the threads under way, in any
      order, end the wait. */
  lemma {:induction false} WaitEnds(s: State, schedule: seq<Action>)
    requires InWait(s.loop) && Wanted(s)
    requires Effective(s, schedule) && |schedule| >= StepsLeft(s)
    ensures Ends(s, schedule) && StepsLeft(s) <= 15
    decreases |schedule|
  {
    var t := Step(s, schedule[0]);
    ReasonStays(s, schedule[0]);
    EnabledStepsApproach(s, schedule[0]);
    if InWait(t.loop) {
      WaitEnds(t, schedule[1..]);
    }
  }

  /** Whatever else happens meanwhile, further pushes and stop requests included: once past
      blocking, the loop does not block before its wait is over. */
  lemma {:induction false} NeverBlocksAgain(s: State, schedule: seq<Action>)
    requires InWait(s.loop) && PastBlocking(s)
    ensures Ends(s, schedule) || (InWait(Run(s, schedule).loop) && !Run(s, schedule).loop.Blocking?)
    decreases |schedule|
  {
    if schedule != [] {
      var t := Step(s, schedule[0]);
      ReasonStays(s, schedule[0]);
      if InWait(t.loop) {
        NeverBlocksAgain(t, schedule[1..]);
      }
    }
  }

  /** A stop request that comes between its test and the sleep lets the loop block once more. */
  lemma LateStopBlocksOnce(s: State)
    requires s.loop == TestStop(Main, false, false) && !s.stop && s.stopper.Calm? && s.queued == 0 && s.generation == s.observed
    ensures var late := Run(s, [LoopStep(Go), RequestStop]);
            var t := Run(s, [LoopStep(Go), RequestStop, LoopStep(Go), LoopStep(Go)]);
            InWait(late.loop) && Wanted(late) && !PastBlocking(late) && t.loop.Blocking?
  {
    var a, stop := LoopStep(Go), RequestStop;
    assert [a, stop][1..] == [stop] && [stop][1..] == [];
    assert [a, stop, a, a][1..] == [stop, a, a] && [stop, a, a][1..] == [a, a] && [a, a][1..] == [a] && [a][1..] == [];
    var late := Step(Step(s, a), stop);
    assert Run(late, [a, a]) == Run(Step(late, a), [a]) == Run(Step(Step(late, a), a), []);
  }

  // ---- Time-outs ----

  /** A time-out ends a sleep, and nothing else makes the time be up before the wait is ending. */
  lemma TimeOutEndsSleep(s: State, a: Action)
    requires InWait(s.loop) && !TimeIsUp(s.loop)
    ensures var t := Step(s, a);
            && (s.loop.Asleep? && a == LoopStep(TimeOut) ==> t.loop.Relocking? && TimeIsUp(t.loop))
            && (TimeIsUp(t.loop) && !t.loop.Unlocking? ==> s.loop.Asleep? && a == LoopStep(TimeOut))
  {}

  /** Under every schedule: once a sleep has timed out, in any wait, the loop neither blocks nor
      sleeps again before its wait is over. */
  lemma {:induction false} NoSleepAfterTimeOut(s: State, schedule: seq<Action>)
    requires InWait(s.loop) && TimeIsUp(s.loop)
    ensures Ends(s, schedule) || (InWait(Run(s, schedule).loop) && TimeIsUp(Run(s, schedule).loop))
    decreases |schedule|
  {
    if schedule != [] {
      var t := Step(s, schedule[0]);
      if InWait(t.loop) {
        NoSleepAfterTimeOut(t, schedule[1..]);
      }
    }
  }

  // ---- Sleeping without reason to wake ----

  /** Nobody but the loop does anything, and there is nothing for it to do. */
  predicate Quiet(s: State) {
    s.producer.Calm? && s.stopper.Calm? && !s.stop && s.queued == 0 && Inv(s)
  }

  /** The loop has looked at the generation in this wait, if it is one in which it does. */
  predicate SawGeneration(s: State) {
    InWait(s.loop) && !s.loop.Unlocking? && !TimeIsUp(s.loop) &&
    (WaitOf(s.loop).Main? && !s.loop.WantsLock? && !s.loop.Observing? ==> s.observed == s.generation)
  }

  predicate NoTimeOut(schedule: seq<Action>) {
    forall i :: 0 <= i < |schedule| ==> schedule[i].LoopStep? && !schedule[i].choice.TimeOut?
  }

  /** A quiet wait lasts: however often the loop wakes for no reason, it goes back to sleep and stays
      in its wait until the time is up. */
  lemma {:induction false} QuietWaitLasts(s: State, schedule: seq<Action>)
    requires Quiet(s) && SawGeneration(s) && NoTimeOut(schedule)
    ensures var t := Run(s, schedule); Quiet(t) && SawGeneration(t) && WaitOf(t.loop) == WaitOf(s.loop)
    decreases |schedule|
  {
    if schedule != [] {
      StepKeeps(s, schedule[0]);
      QuietWaitLasts(Step(s, schedule[0]), schedule[1..]);
    }
  }

  /** And it begins with a sleep: six steps from the mutex to the condition variable. */
  lemma QuietWaitSleeps(s: State)
    requires Quiet(s) && s.mutex.Free? && s.loop.WantsLock?
    ensures var t := Run(s, seq(6, _ => LoopStep(Go))); t.loop == Asleep(s.loop.wait, false) && t.mutex.Free? && t.queued == 0
  {
    SixSteps(s, LoopStep(Go));
  }

  lemma SixSteps(s: State, a: Action)
    ensures Run(s, seq(6, _ => a)) == Step(Step(Step(Step(Step(Step(s, a), a), a), a), a), a)
  {
    hide Step;
    RunThree(s, a, [a, a, a]);
    RunThree(Step(Step(Step(s, a), a), a), a, []);
    assert seq(6, _ => a) == [a, a, a] + [a, a, a];
    assert [a, a, a] + [] == [a, a, a];
  }

  lemma RunThree(s: State, a: Action, rest: seq<Action>)
    ensures Run(s, [a, a, a] + rest) == Run(Step(Step(Step(s, a), a), a), rest)
  {
    hide Step;
    var all := [a, a, a] + rest;
    assert all[1..] == [a, a] + rest && ([a, a] + rest)[1..] == [a] + rest && ([a] + rest)[1..] == rest;
    assert Run(Step(s, a), [a, a] + rest) == Run(Step(Step(s, a), a), [a] + rest);
  }

  // ---- Whole rounds ----

  lemma {:induction false} RunConcat(s: State, a: seq<Action>, b: seq<Action>)
    ensures Run(s, a + b) == Run(Run(s, a), b)
    decreases |a|
  {
    hide Step;
    if a == [] {
      assert a + b == b;
    } else {
      assert (a + b)[1..] == a[1..] + b;
      RunConcat(Step(s, a[0]), a[1..], b);
    }
  }

  function Repeated(a: Action, n: nat): seq<Action> {
    if n == 0 then [] else [a] + Repeated(a, n - 1)
  }

  lemma {:induction false} Draws(s: State, n: nat)
    requires s.loop.Draining? && s.queued == n
    ensures Run(s, Repeated(LoopStep(Go), n)) == s.(queued := 0)
    decreases n
  {
    if n > 0 {
      assert Repeated(LoopStep(Go), n)[1..] == Repeated(LoopStep(Go), n - 1);
      Draws(s.(queued := n - 1), n - 1);
    }
  }

  lemma OneStep(s: State, a: Action)
    ensures Run(s, [a]) == Step(s, a)
  {
    hide Step;
    assert [a][1..] == [];
    assert Run(Step(s, a), []) == Step(s, a);
  }

  /** A round with a connection and nobody else about, from top to sleep: it takes every command in
      the queue, one step for each, and then sleeps. */
  lemma RoundDrainsAndSleeps(s: State)
    requires s.loop.AtTop? && Quiet(s.(queued := 0)) && s.mutex.Free?
    ensures var go := LoopStep(Go);
            var t := Run(s, [go] + ([go] + (Repeated(go, s.queued) + ([go] + ([go] + seq(6, _ => go))))));
            t.loop == Asleep(Main, false) && t.mutex.Free? && t.queued == 0
  {
    var go := LoopStep(Go);
    var sleep := seq(6, _ => go);
    var draining := s.(loop := Draining);
    OneStep(s, go);
    OneStep(s.(loop := Connecting), go);
    RunConcat(s, [go], [go] + (Repeated(go, s.queued) + ([go] + ([go] + sleep))));
    RunConcat(s.(loop := Connecting), [go], Repeated(go, s.queued) + ([go] + ([go] + sleep)));
    Draws(draining, s.queued);
    RunConcat(draining, Repeated(go, s.queued), [go] + ([go] + sleep));
    var drained := draining.(queued := 0);
    OneStep(drained, go);
    RunConcat(drained, [go], [go] + sleep);
    OneStep(drained.(loop := Polling), go);
    RunConcat(drained.(loop := Polling), [go], sleep);
    QuietWaitSleeps(drained.(loop := WantsLock(Main)));
  }

  /** A failed attempt to reconnect sleeps until the time is up and comes back for the next attempt. */
  lemma RetrySleepsAndComesBack(s: State)
    requires s.loop.Connecting? && Quiet(s) && s.mutex.Free?
    ensures var asleep := Step(Step(Step(Step(Step(s, LoopStep(Retry)), LoopStep(Retry)), LoopStep(Go)), LoopStep(Go)), LoopStep(Go));
            && asleep == s.(loop := Asleep(Reconnect, false))
            && Step(Step(Step(Step(asleep, LoopStep(TimeOut)), LoopStep(Go)), LoopStep(Go)), LoopStep(Go)) == s
  {}

  // ---- A requested stop ----

  /** How far a loop whose stop is requested is from its exit. */
  function LoopToExit(loop: Loop): nat {
    match loop
    case Exited => 0
    case AtTop => 1
    case Polling => 9
    case Draining => 10
    case Connecting => 11
    case Dialing => 19
    case _ => LoopSteps(loop, true) + (if InWait(loop) && WaitOf(loop).Reconnect? then 11 else 1)
  }

  function StepsToExit(s: State): nat {
    KickerSteps(s.producer) + KickerSteps(s.stopper) + s.queued + LoopToExit(s.loop)
  }

  lemma NotifyKeepsDistance(loop: Loop)
    ensures LoopToExit(Notify(loop)) == LoopToExit(loop)
  {}

  lemma LoopApproachesExit(s: State, choice: Choice)
    requires s.stop && LoopStepped(s, choice) != s
    ensures LoopStepped(s, choice).stop && StepsToExit(LoopStepped(s, choice)) < StepsToExit(s)
  {
    hide KickerSteps;
  }

  lemma KickersApproachExit(s: State)
    requires s.stop
    ensures var t := ProducerStepped(s); t.stop && (t != s ==> StepsToExit(t) < StepsToExit(s))
    ensures var t := StopperStepped(s); t.stop && (t != s ==> StepsToExit(t) < StepsToExit(s))
  {
    hide LoopToExit, Notify;
    NotifyKeepsDistance(s.loop);
  }

  lemma StepsApproachExit(s: State, a: Action)
    requires s.stop && Continues(a) && Step(s, a) != s
    ensures Step(s, a).stop && StepsToExit(Step(s, a)) < StepsToExit(s)
  {
    hide StepsToExit, LoopStepped, ProducerStepped, StopperStepped;
    KickersApproachExit(s);
    if a.LoopStep? { LoopApproachesExit(s, a.choice); }
  }

  lemma SomebodyCanMoveOn(s: State)
    requires Inv(s) && s.stop && !s.loop.Exited?
    ensures Step(s, LoopStep(Go)) != s || Step(s, ProducerStep) != s || Step(s, StopperStep) != s
  {
    if InWait(s.loop) { SomebodyCanMove(s); }
  }

  predicate Exits(s: State, schedule: seq<Action>)
    decreases |schedule|
  {
    s.loop.Exited? || (schedule != [] && Exits(Step(s, schedule[0]), schedule[1..]))
  }

  /** Until the loop has ended, each step of a schedule continues a thread and has an effect. */
  predicate EffectiveToExit(s: State, schedule: seq<Action>)
    decreases |schedule|
  {
    s.loop.Exited? || schedule == [] ||
    (Continues(schedule[0]) && Step(s, schedule[0]) != s && EffectiveToExit(Step(s, schedule[0]), schedule[1..]))
  }

  /** A requested stop ends the loop, for every schedule: any 27 effective steps of the threads under
      way, and one more for each queued command, bring it to its exit from wherever it is. */
  lemma {:induction false} StopEndsLoop(s: State, schedule: seq<Action>)
    requires s.stop && EffectiveToExit(s, schedule) && |schedule| >= StepsToExit(s)
    ensures Exits(s, schedule) && StepsToExit(s) <= 27 + s.queued
    decreases |schedule|
  {
    if !s.loop.Exited? {
      StepsApproachExit(s, schedule[0]);
      StopEndsLoop(Step(s, schedule[0]), schedule[1..]);
    }
  }
}
