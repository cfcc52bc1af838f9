/** What the control logic writes in a run without commands: mode, hot water target and priority
    are corrected at most once each; so is the heating target, unless a failed read lets the
    control logic act on a remembered one. */
module Corrections {
  import opened Words
  import opened Control

  // ---- Counting successful writes ----

  function Successes(writes: seq<WriteRecord>, address: word): nat {
    if writes == [] then 0
    else Successes(writes[..|writes| - 1], address) +
         (var last := writes[|writes| - 1]; if last.ok && last.address == address then 1 else 0)
  }

  function SuccessesOf(w: World, address: word): nat { Successes(w.bus.writes, address) }

  predicate Corrects(address: word) {
    address == RUNNING_MODE || address == DHW_TARGET || address == HEATING_TARGET || address == DHW_PRIORITY
  }

  lemma WrittenCounts(bus: Bus, address: word, value: word, a: word)
    ensures var (bus', ok) := Written(bus, address, value);
            && Successes(bus'.writes, a) == Successes(bus.writes, a) + (if ok && a == address then 1 else 0)
            && (ok ==> address in bus'.regs && bus'.regs[address] == value)
            && (forall b :: b in bus'.regs <==> b in bus.regs)
            && (forall b :: b in bus.regs && b != address ==> bus'.regs[b] == bus.regs[b])
  {
    var writes := Written(bus, address, value).0.writes;
    assert writes[..|writes| - 1] == bus.writes;
  }

  // ---- Registers that need no further correction ----

  function TempAt(w: World, address: word): real
    requires address in w.bus.regs
  {
    RawToTemp(ToSigned(w.bus.regs[address]))
  }

  /** The controller has put this register where it belongs, as far as the controller can know. */
  predicate Settled(w: World, address: word) {
    if address == RUNNING_MODE then
      w.c.mode == DeviceMode(w.c.desired) && RUNNING_MODE in w.bus.regs && w.bus.regs[RUNNING_MODE] == DeviceMode(w.c.desired)
    else if address == DHW_TARGET then
      w.c.savedInitialized && DHW_TARGET in w.bus.regs && !DhwOff(w.c, TempAt(w, DHW_TARGET))
    else if address == HEATING_TARGET then
      w.c.savedInitialized && HEATING_TARGET in w.bus.regs && !HeatingOff(w.c, TempAt(w, HEATING_TARGET))
    else if address == DHW_PRIORITY then !PriorityOff(w.c)
    else true
  }

  predicate InRange(c: Controller) { Representable(c.savedDhw) && Representable(c.savedHeating) }

  /** From `w` to `v` this register was successfully written at most once, never if it was
      settled, and it is settled if it was settled or written. */
  predicate AtMostOnce(w: World, v: World, address: word) {
    && SuccessesOf(w, address) <= SuccessesOf(v, address) <= SuccessesOf(w, address) + (if Settled(w, address) then 0 else 1)
    && (Settled(w, address) || SuccessesOf(v, address) > SuccessesOf(w, address) ==> Settled(v, address))
  }

  lemma AtMostOnceTransitive(u: World, v: World, w: World, address: word)
    requires AtMostOnce(u, v, address) && AtMostOnce(v, w, address)
    ensures AtMostOnce(u, w, address)
  {}

  // ---- The four stages of the control logic ----

  /** What a stage that may write `address` leaves alone: the other registers and, apart from
      what belongs to that register, the controller. */
  ghost predicate SameElsewhere(w: World, v: World, address: word) {
    && v.bus.regs.Keys == w.bus.regs.Keys
    && (forall b :: b in w.bus.regs && b != address ==> v.bus.regs[b] == w.bus.regs[b])
    && v.c.desired == w.c.desired && v.c.savedDhw == w.c.savedDhw && v.c.savedHeating == w.c.savedHeating
    && v.c.savedInitialized == w.c.savedInitialized
    && (address != RUNNING_MODE ==> v.c.mode == w.c.mode)
    && (address != DHW_PRIORITY ==> v.c.priority == w.c.priority)
  }

  ghost predicate OnlyTouches(w: World, v: World, address: word) {
    SameElsewhere(w, v, address) && forall a :: a != address ==> SuccessesOf(v, a) == SuccessesOf(w, a)
  }

  lemma Untouched(w: World, v: World, address: word, other: word)
    requires OnlyTouches(w, v, address) && other != address
    ensures AtMostOnce(w, v, other)
  {}

  lemma ModeStage(w: World)
    ensures var v := ModeCorrected(w);
            OnlyTouches(w, v, RUNNING_MODE) && AtMostOnce(w, v, RUNNING_MODE)
  {
    forall a { WrittenCounts(w.bus, RUNNING_MODE, DeviceMode(w.c.desired), a); }
  }

  lemma DhwStage(w: World, s: Snapshot)
    requires InRange(w.c) && w.c.savedInitialized
    requires DHW_TARGET in w.bus.regs && s.dhwTarget == TempAt(w, DHW_TARGET)
    ensures var v := DhwEnforced(w, s);
            OnlyTouches(w, v, DHW_TARGET) && AtMostOnce(w, v, DHW_TARGET)
  {
    var temp := if w.c.desired == 2 then DHW_TARGET_MIN else w.c.savedDhw;
    TempRoundTrip(temp);
    forall a { WrittenCounts(w.bus, DHW_TARGET, ToWord(TempToRaw(temp)), a); }
  }

  /** The snapshot's heating target is the device's own, or gives no reason to write. */
  predicate HeatingSeen(w: World, s: Snapshot) {
    !HeatingOff(w.c, s.heatingTarget) ||
    (HEATING_TARGET in w.bus.regs && s.heatingTarget == TempAt(w, HEATING_TARGET))
  }

  lemma HeatingStage(w: World, s: Snapshot)
    requires InRange(w.c) && w.c.savedInitialized
    ensures var v := HeatingEnforced(w, s);
            OnlyTouches(w, v, HEATING_TARGET) && (HeatingSeen(w, s) ==> AtMostOnce(w, v, HEATING_TARGET))
  {
    var temp := if w.c.desired == 1 then HEATING_TARGET_MIN else w.c.savedHeating;
    TempRoundTrip(temp);
    forall a { WrittenCounts(w.bus, HEATING_TARGET, ToWord(TempToRaw(temp)), a); }
  }

  lemma PriorityStage(w: World)
    ensures var v := PriorityEnforced(w);
            OnlyTouches(w, v, DHW_PRIORITY) && AtMostOnce(w, v, DHW_PRIORITY)
  {
    forall a { WrittenCounts(w.bus, DHW_PRIORITY, if w.c.desired == 2 then 0 else 1, a); }
  }

  /** The heating target the control logic will see is the device's own, or gives no reason to
      write. Without this a failed read lets a stale value trigger another write. */
  predicate HeatingKnown(w: World) {
    RawsOf(w.bus).heating.Some? || !HeatingOff(Noted(w.c, RawsOf(w.bus)), w.c.lastHeating)
  }

  lemma StatusKeeps(w: World, address: word)
    ensures var v := StatusRead(w);
            v.bus.regs == w.bus.regs && v.bus.writes == w.bus.writes && AtMostOnce(w, v, address)
  {}

  lemma InRangeKept(w: World)
    requires InRange(w.c)
    ensures InRange(StatusRead(w).c)
  {}

  lemma AppliedOnce(w: World, s: Snapshot, address: word)
    requires InRange(w.c) && w.c.savedInitialized
    requires DHW_TARGET in w.bus.regs && s.dhwTarget == TempAt(w, DHW_TARGET)
    requires address == HEATING_TARGET ==> HeatingSeen(w, s)
    ensures AtMostOnce(w, Applied(w, s), address)
    ensures !Corrects(address) ==> SuccessesOf(Applied(w, s), address) == SuccessesOf(w, address)
    ensures InRange(Applied(w, s).c) && Applied(w, s).c.savedInitialized
  {
    var w1 := ModeCorrected(w);
    var w2 := DhwEnforced(w1, s);
    var w3 := HeatingEnforced(w2, s);
    var w4 := PriorityEnforced(w3);
    ModeStage(w);
    DhwStage(w1, s);
    HeatingStage(w2, s);
    PriorityStage(w3);
    if address != RUNNING_MODE { Untouched(w, w1, RUNNING_MODE, address); }
    if address != DHW_TARGET { Untouched(w1, w2, DHW_TARGET, address); }
    if address != HEATING_TARGET { Untouched(w2, w3, HEATING_TARGET, address); }
    if address != DHW_PRIORITY { Untouched(w3, w4, DHW_PRIORITY, address); }
    AtMostOnceTransitive(w, w1, w2, address);
    AtMostOnceTransitive(w, w2, w3, address);
    AtMostOnceTransitive(w, w3, w4, address);
  }

  lemma RegulatedOnce(w: World, address: word)
    requires InRange(w.c) && (Online(w) && address == HEATING_TARGET ==> HeatingKnown(w))
    ensures AtMostOnce(w, Regulated(w), address) && InRange(Regulated(w).c)
    ensures !Corrects(address) ==> SuccessesOf(Regulated(w), address) == SuccessesOf(w, address)
  {
    var w1 := StatusRead(w);
    StatusKeeps(w, address);
    InRangeKept(w);
    if Online(w) {
      AppliedOnce(w1, StatusSeen(w), address);
      AtMostOnceTransitive(w, w1, Applied(w1, StatusSeen(w)), address);
    }
  }

  // ---- Bounded correction ----

  predicate CommandFree(events: seq<Event>) {
    forall i :: 0 <= i < |events| ==> events[i] == Cycle([]) || events[i] == NoConnection
  }

  /** In every cycle in which the control logic runs, it knows the heating target. */
  predicate HeatingAlwaysKnown(w: World, events: seq<Event>)
    decreases |events|
  {
    events != [] ==>
      (events[0].Cycle? && Online(w) ==> HeatingKnown(w)) && HeatingAlwaysKnown(Happened(w, events[0]), events[1..])
  }

  /** Without commands and outside changes, under every pattern of failures, a register that the
      control logic corrects is successfully written at most once in a run of any length, and any
      other not at all. Only the heating target needs its premise. */
  lemma {:induction false} BoundedCorrection(w: World, events: seq<Event>, address: word)
    requires CommandFree(events) && InRange(w.c)
    requires address == HEATING_TARGET ==> HeatingAlwaysKnown(w, events)
    ensures AtMostOnce(w, Run(w, events), address)
    ensures !Corrects(address) ==> SuccessesOf(Run(w, events), address) == SuccessesOf(w, address)
    decreases |events|
  {
    if events != [] {
      var next := Happened(w, events[0]);
      if events[0] == Cycle([]) {
        assert next == Regulated(w);
        RegulatedOnce(w, address);
      }
      BoundedCorrection(next, events[1..], address);
      AtMostOnceTransitive(w, next, Run(w, events), address);
    }
  }

  function ControlWrites(w: World): nat {
    SuccessesOf(w, RUNNING_MODE) + SuccessesOf(w, DHW_TARGET) + SuccessesOf(w, HEATING_TARGET) + SuccessesOf(w, DHW_PRIORITY)
  }

  /** At most four successful control writes in the whole run. */
  lemma AtMostFourCorrections(w: World, events: seq<Event>)
    requires CommandFree(events) && InRange(w.c) && HeatingAlwaysKnown(w, events)
    ensures ControlWrites(Run(w, events)) <= ControlWrites(w) + 4
    ensures forall a :: !Corrects(a) ==> SuccessesOf(Run(w, events), a) == SuccessesOf(w, a)
  {
    forall a ensures AtMostOnce(w, Run(w, events), a) && (!Corrects(a) ==> SuccessesOf(Run(w, events), a) == SuccessesOf(w, a)) {
      BoundedCorrection(w, events, a);
    }
  }

  function Attempts(w: World, address: word): nat { AttemptsIn(w.bus.writes, address) }

  function AttemptsIn(writes: seq<WriteRecord>, address: word): nat {
    if writes == [] then 0
    else AttemptsIn(writes[..|writes| - 1], address) + (if writes[|writes| - 1].address == address then 1 else 0)
  }

  lemma WrittenAttempts(bus: Bus, address: word, value: word, a: word)
    ensures var (bus', ok) := Written(bus, address, value);
            AttemptsIn(bus'.writes, a) == AttemptsIn(bus.writes, a) + (if a == address then 1 else 0)
  {
    var writes := Written(bus, address, value).0.writes;
    assert writes[..|writes| - 1] == bus.writes;
  }

  lemma ModeAttempts(w: World)
    ensures var v := ModeCorrected(w);
            Attempts(v, HEATING_TARGET) == Attempts(w, HEATING_TARGET) && v.c == w.c.(mode := v.c.mode)
  {
    WrittenAttempts(w.bus, RUNNING_MODE, DeviceMode(w.c.desired), HEATING_TARGET);
  }

  lemma TargetAttempts(w: World, s: Snapshot)
    ensures var v := DhwEnforced(w, s);
            Attempts(v, HEATING_TARGET) == Attempts(w, HEATING_TARGET) && v.c == w.c.(mDhw := v.c.mDhw)
    ensures var v := HeatingEnforced(w, s);
            Attempts(v, HEATING_TARGET) == Attempts(w, HEATING_TARGET) + (if HeatingOff(w.c, s.heatingTarget) then 1 else 0)
  {
    WrittenAttempts(w.bus, DHW_TARGET, ToWord(TempToRaw(if w.c.desired == 2 then DHW_TARGET_MIN else w.c.savedDhw)), HEATING_TARGET);
    WrittenAttempts(w.bus, HEATING_TARGET, ToWord(TempToRaw(if w.c.desired == 1 then HEATING_TARGET_MIN else w.c.savedHeating)), HEATING_TARGET);
  }

  lemma PriorityAttempts(w: World)
    ensures Attempts(PriorityEnforced(w), HEATING_TARGET) == Attempts(w, HEATING_TARGET)
  {
    WrittenAttempts(w.bus, DHW_PRIORITY, if w.c.desired == 2 then 0 else 1, HEATING_TARGET);
  }

  lemma AppliedAttempts(w: World, s: Snapshot)
    ensures Attempts(Applied(w, s), HEATING_TARGET) ==
            Attempts(w, HEATING_TARGET) + (if HeatingOff(w.c, s.heatingTarget) then 1 else 0)
  {
    hide ModeCorrected, DhwEnforced, HeatingEnforced, PriorityEnforced, Attempts;
    var w1 := ModeCorrected(w);
    var w2 := DhwEnforced(w1, s);
    ModeAttempts(w);
    TargetAttempts(w1, s);
    TargetAttempts(w2, s);
    PriorityAttempts(HeatingEnforced(w2, s));
  }

  /** How many write attempts at the heating target a cycle makes: one or none. On a settled one it
      makes one exactly when the control logic runs, the heating target is not heard and the
      remembered one, which a successful write does not refresh, is off. */
  lemma StaleHeatingIsWritten(w: World)
    ensures Attempts(w, HEATING_TARGET) <= Attempts(Regulated(w), HEATING_TARGET) <= Attempts(w, HEATING_TARGET) + 1
    ensures InRange(w.c) && Settled(w, HEATING_TARGET) ==>
              (Attempts(Regulated(w), HEATING_TARGET) > Attempts(w, HEATING_TARGET) <==> Online(w) && !HeatingKnown(w))
  {
    if Online(w) { AppliedAttempts(StatusRead(w), StatusSeen(w)); }
  }

  lemma {:induction false} AttemptsGrow(w: World, events: seq<Event>)
    requires CommandFree(events)
    ensures Attempts(w, HEATING_TARGET) <= Attempts(Run(w, events), HEATING_TARGET)
    decreases |events|
  {
    if events != [] {
      if events[0] == Cycle([]) {
        assert Happened(w, events[0]) == Regulated(w);
        StaleHeatingIsWritten(w);
      }
      AttemptsGrow(Happened(w, events[0]), events[1..]);
    }
  }

  /** The premise about the heating target is exact: once settled, it is left alone for a whole
      command-free run if and only if the control logic knows it in every cycle of that run. */
  lemma {:induction false} SettledHeatingLeftAlone(w: World, events: seq<Event>)
    requires CommandFree(events) && InRange(w.c) && Settled(w, HEATING_TARGET)
    ensures Attempts(Run(w, events), HEATING_TARGET) == Attempts(w, HEATING_TARGET) <==> HeatingAlwaysKnown(w, events)
    decreases |events|
  {
    if events != [] {
      var next := Happened(w, events[0]);
      if events[0] == Cycle([]) {
        assert next == Regulated(w);
        StaleHeatingIsWritten(w);
      }
      if events[0] == Cycle([]) && Online(w) && !HeatingKnown(w) {
        AttemptsGrow(next, events[1..]);
      } else {
        if events[0] == Cycle([]) { RegulatedOnce(w, HEATING_TARGET); }
        SettledHeatingLeftAlone(next, events[1..]);
      }
    }
  }

  /** A device that answers everything and wants nothing but a lower heating target. */
  predicate DhwOnlyButWarm(w: World) {
    && w.c.desired == 1 && w.c.savedInitialized && w.c.mode == MODE_HEAT_DHW && w.c.priority == Dhw && InRange(w.c)
    && Complete(w.bus.regs) && w.bus.regs[RUNNING_MODE] == MODE_HEAT_DHW && w.bus.regs[HEATING_TARGET] == 450
  }

  lemma WarmCycle(w: World)
    requires DhwOnlyButWarm(w) && |w.bus.outcomes| >= 9 && forall i :: 0 <= i < 9 ==> w.bus.outcomes[i] == Done
    ensures var v := Regulated(w);
            && v.bus.outcomes == w.bus.outcomes[9..] && v.c == w.c.(lastHeating := 45.0, mHeating := HEATING_TARGET_MIN)
            && v.bus.regs == w.bus.regs[HEATING_TARGET := 250]
            && SuccessesOf(v, HEATING_TARGET) == SuccessesOf(w, HEATING_TARGET) + 1
  {
    var w1, s := StatusRead(w), StatusSeen(w);
    assert Online(w) && s.heatingTarget == 45.0;
    assert ModeCorrected(w1) == w1 && DhwEnforced(w1, s) == w1;
    assert TempToRaw(HEATING_TARGET_MIN) == 250;
    WrittenCounts(w1.bus, HEATING_TARGET, 250, HEATING_TARGET);
    assert w.bus.outcomes[8..][1..] == w.bus.outcomes[9..];
    assert PriorityEnforced(HeatingEnforced(w1, s)) == HeatingEnforced(w1, s);
  }

  /** A cycle that cannot read the heating target writes the target it already holds. */
  lemma StaleCycle(w: World)
    requires w.c.desired == 1 && w.c.savedInitialized && w.c.mode == MODE_HEAT_DHW && w.c.priority == Dhw
    requires w.c.lastHeating == 45.0 && Complete(w.bus.regs) && w.bus.regs[RUNNING_MODE] == MODE_HEAT_DHW
    requires w.bus.outcomes == seq(6, _ => Done) + [Failed]
    ensures SuccessesOf(Regulated(w), HEATING_TARGET) == SuccessesOf(w, HEATING_TARGET) + 1
  {
    var w1, s := StatusRead(w), StatusSeen(w);
    assert Online(w) && s.heatingTarget == 45.0;
    assert ModeCorrected(w1) == w1 && DhwEnforced(w1, s) == w1;
    WrittenCounts(w1.bus, HEATING_TARGET, ToWord(TempToRaw(HEATING_TARGET_MIN)), HEATING_TARGET);
    PriorityStage(HeatingEnforced(w1, s));
  }

  lemma RunTwice(w: World)
    ensures Run(w, [Cycle([]), Cycle([])]) == Regulated(Regulated(w))
  {
    var e: Event := Cycle([]);
    assert [e, e][1..] == [e] && [e][1..] == [];
    assert Happened(w, e) == Regulated(w) && Happened(Regulated(w), e) == Regulated(Regulated(w));
    assert Run(Regulated(w), [e]) == Run(Regulated(Regulated(w)), []);
  }

  /** One failed read of the heating target is enough: two cycles, two successful writes. */
  lemma HeatingWrittenTwice(w: World)
    requires DhwOnlyButWarm(w) && w.bus.outcomes == seq(15, _ => Done) + [Failed]
    ensures SuccessesOf(Run(w, [Cycle([]), Cycle([])]), HEATING_TARGET) == SuccessesOf(w, HEATING_TARGET) + 2
  {
    hide Regulated, Successes;
    WarmCycle(w);
    var v := Regulated(w);
    assert v.bus.outcomes == seq(6, _ => Done) + [Failed];
    StaleCycle(v);
    RunTwice(w);
  }
}
