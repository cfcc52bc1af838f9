/** What is on disk follows what the controller does, and what the controller may write. */
module Persistence {
  import opened Wrappers
  import opened Words
  import opened Control

  /** The settings on record: the last ones handed to the callback, at first the initial ones. */
  function OnRecord(w: World, initial: Settings): Settings {
    if w.persisted == [] then initial else w.persisted[|w.persisted| - 1]
  }

  /** The value last written to a register with success. */
  function LastWritten(writes: seq<WriteRecord>, address: word): Option<word> {
    if writes == [] then None
    else
      var last := writes[|writes| - 1];
      if last.ok && last.address == address then Some(last.value)
      else LastWritten(writes[..|writes| - 1], address)
  }

  predicate Backed(w: World, address: word, initial: real, shown: real) {
    match LastWritten(w.bus.writes, address)
    case None => shown == initial
    case Some(value) => value == ToWord(TempToRaw(shown))
  }

  /** Working mode and targets on record are the controller's, and each target is the one of the
      last write that succeeded. The recorded priority is not claimed to be current. */
  predicate InStep(w: World, initial: Settings) {
    && w.c.callback
    && OnRecord(w, initial).mode == w.c.desired
    && OnRecord(w, initial).dhw == w.c.mDhw
    && OnRecord(w, initial).heating == w.c.mHeating
    && Backed(w, DHW_TARGET, initial.dhw, w.c.mDhw)
    && Backed(w, HEATING_TARGET, initial.heating, w.c.mHeating)
  }

  /** Only five registers are ever written, and the mode register only with off or heating. */
  predicate Harmless(writes: seq<WriteRecord>) {
    forall i :: 0 <= i < |writes| ==>
      var a := writes[i].address;
      && (|| a == RUNNING_MODE || a == DHW_TARGET || a == HEATING_TARGET || a == DHW_PRIORITY || a == OCCUPANCY_MODE)
      && (a == RUNNING_MODE ==> writes[i].value == MODE_OFF || writes[i].value == MODE_HEAT_DHW)
  }

  predicate Good(w: World, initial: Settings) { InStep(w, initial) && Harmless(w.bus.writes) }

  lemma WrittenLast(bus: Bus, address: word, value: word, a: word)
    ensures var (bus', ok) := Written(bus, address, value);
            LastWritten(bus'.writes, a) == if ok && a == address then Some(value) else LastWritten(bus.writes, a)
  {
    var writes := Written(bus, address, value).0.writes;
    assert writes[..|writes| - 1] == bus.writes;
  }

  lemma DhwTargetGood(w: World, initial: Settings, temp: real)
    requires Good(w, initial)
    ensures Good(DhwTargetSet(w, temp), initial)
  {
    var raw := ToWord(TempToRaw(temp));
    WrittenLast(w.bus, DHW_TARGET, raw, DHW_TARGET);
    WrittenLast(w.bus, DHW_TARGET, raw, HEATING_TARGET);
  }

  lemma HeatingTargetGood(w: World, initial: Settings, temp: real)
    requires Good(w, initial)
    ensures Good(HeatingTargetSet(w, temp), initial)
  {
    var raw := ToWord(TempToRaw(temp));
    WrittenLast(w.bus, HEATING_TARGET, raw, DHW_TARGET);
    WrittenLast(w.bus, HEATING_TARGET, raw, HEATING_TARGET);
  }

  /** A write to another register leaves the record in step. */
  lemma OtherWriteGood(w: World, initial: Settings, address: word, value: word)
    requires Good(w, initial)
    requires address == OCCUPANCY_MODE || address == DHW_PRIORITY ||
             (address == RUNNING_MODE && (value == MODE_OFF || value == MODE_HEAT_DHW))
    ensures Good(w.(bus := Written(w.bus, address, value).0), initial)
  {
    WrittenLast(w.bus, address, value, DHW_TARGET);
    WrittenLast(w.bus, address, value, HEATING_TARGET);
  }

  lemma PriorityGood(w: World, initial: Settings, priority: Priority)
    requires Good(w, initial)
    ensures Good(PriorityWritten(w, priority), initial)
  {
    OtherWriteGood(w, initial, DHW_PRIORITY, if priority.Dhw? then 1 else 0);
  }

  lemma RetargetedGood(w: World, initial: Settings, mode: int)
    requires Good(w, initial)
    ensures Good(Retargeted(w, mode), initial)
  {
    if mode == 1 {
      HeatingTargetGood(w, initial, HEATING_TARGET_MIN);
      PriorityGood(HeatingTargetSet(w, HEATING_TARGET_MIN), initial, Dhw);
    } else if mode == 2 {
      DhwTargetGood(w, initial, DHW_TARGET_MIN);
      PriorityGood(DhwTargetSet(w, DHW_TARGET_MIN), initial, Heating);
    } else if mode == 3 {
      var w1 := DhwTargetSet(w, w.c.savedDhw);
      DhwTargetGood(w, initial, w.c.savedDhw);
      HeatingTargetGood(w1, initial, w1.c.savedHeating);
      PriorityGood(HeatingTargetSet(w1, w1.c.savedHeating), initial, Dhw);
    }
  }

  lemma ModeSwitchedGood(w: World, initial: Settings, mode: int)
    requires Good(w, initial)
    ensures Good(ModeSwitched(w, mode), initial)
  {
    var w1 := Fired(w.(c := w.c.(desired := mode)));
    assert Good(w1, initial);
    OtherWriteGood(w1, initial, RUNNING_MODE, DeviceMode(mode));
    var w2 := RunningModeSet(w1, DeviceMode(mode)).0;
    RetargetedGood(w2.(c := w2.c.(mode := DeviceMode(mode))), initial, mode);
  }

  lemma PriorityCommandGood(w: World, initial: Settings, value: int)
    requires Good(w, initial)
    ensures Good(Executed(w, SetPriority(value)), initial)
  {
    OtherWriteGood(w, initial, DHW_PRIORITY, ToWord(value));
  }

  lemma ExecutedGood(w: World, initial: Settings, command: Command)
    requires Good(w, initial)
    ensures Good(Executed(w, command), initial)
  {
    match command
    case SetDhwTemp(temp) => DhwTargetGood(w, initial, temp);
    case SetHeatingTemp(temp) => HeatingTargetGood(w, initial, temp);
    case SetPriority(value) => PriorityCommandGood(w, initial, value);
    case SetOccupancyMode(value) => OtherWriteGood(w, initial, OCCUPANCY_MODE, ToWord(value));
    case SetRunningMode(mode) => ModeSwitchedGood(w, initial, mode);
    case Unknown =>
  }

  lemma {:induction false} ProcessedGood(w: World, initial: Settings, commands: seq<Command>)
    requires Good(w, initial)
    ensures Good(Processed(w, commands), initial)
    decreases |commands|
  {
    if commands != [] {
      ExecutedGood(w, initial, commands[0]);
      ProcessedGood(Executed(w, commands[0]), initial, commands[1..]);
    }
  }

  lemma ModeCorrectedGood(w: World, initial: Settings)
    requires Good(w, initial)
    ensures Good(ModeCorrected(w), initial)
  {
    OtherWriteGood(w, initial, RUNNING_MODE, DeviceMode(w.c.desired));
  }

  lemma AppliedGood(w: World, initial: Settings, s: Snapshot)
    requires Good(w, initial)
    ensures Good(Applied(w, s), initial)
  {
    var w1 := ModeCorrected(w);
    var w2 := DhwEnforced(w1, s);
    var w3 := HeatingEnforced(w2, s);
    ModeCorrectedGood(w, initial);
    DhwTargetGood(w1, initial, if w1.c.desired == 2 then DHW_TARGET_MIN else w1.c.savedDhw);
    HeatingTargetGood(w2, initial, if w2.c.desired == 1 then HEATING_TARGET_MIN else w2.c.savedHeating);
    PriorityGood(w3, initial, if w3.c.desired == 2 then Heating else Dhw);
  }

  lemma RegulatedGood(w: World, initial: Settings)
    requires Good(w, initial)
    ensures Good(Regulated(w), initial)
  {
    AppliedGood(StatusRead(w), initial, StatusSeen(w));
  }

  lemma HappenedGood(w: World, initial: Settings, e: Event)
    requires Good(w, initial)
    ensures Good(Happened(w, e), initial)
  {
    if e.Cycle? {
      ProcessedGood(w, initial, e.commands);
      RegulatedGood(Processed(w, e.commands), initial);
    }
  }

  lemma {:induction false} RunGood(w: World, initial: Settings, events: seq<Event>)
    requires Good(w, initial)
    ensures Good(Run(w, events), initial)
    decreases |events|
  {
    if events != [] {
      HappenedGood(w, initial, events[0]);
      RunGood(Happened(w, events[0]), initial, events[1..]);
    }
  }

  /** From the initial settings on, through every run of commands, corrections, failures and
      outside changes: the record is in step, and no write is ever out of place. */
  lemma RecordInStep(w: World, initial: Settings, events: seq<Event>)
    requires w.c.callback && w.persisted == [] && w.bus.writes == []
    requires initial == Settings(w.c.desired, w.c.priority, w.c.mDhw, w.c.mHeating)
    ensures Good(Run(Started(w), events), initial)
  {
    RunGood(Started(w), initial, events);
  }

  // ---- The recorded priority may lag behind ----

  predicate PriorityRecorded(w: World, initial: Settings) { OnRecord(w, initial).priority == w.c.priority }

  /** Whether the k-th operation from now succeeds, if it is one on this register. */
  predicate Succeeds(bus: Bus, k: nat, address: word) {
    OutcomeAt(bus, k).Done? && address in bus.regs
  }

  function PriorityOf(mode: int): Priority { if mode == 2 then Heating else Dhw }

  /** The mode command writes the mode, then one target or two, then the priority; it changes the
      priority when mode and priority writes succeed and the priority was another one. */
  predicate CommandChangesPriority(w: World, mode: int) {
    && 1 <= mode <= 3
    && Succeeds(w.bus, 0, RUNNING_MODE)
    && Succeeds(w.bus, if mode == 3 then 3 else 2, DHW_PRIORITY)
    && w.c.priority != PriorityOf(mode)
  }

  /** What writing a target leaves alone, and what it records: the priority in force, if anything. */
  lemma TargetRecords(w: World, initial: Settings, temp: real)
    requires PriorityRecorded(w, initial)
    ensures var v := DhwTargetSet(w, temp);
            v.c == w.c.(mDhw := v.c.mDhw) && PriorityRecorded(v, initial) &&
            v.bus.outcomes == Later(w.bus, 1).outcomes && v.bus.regs.Keys == w.bus.regs.Keys
    ensures var v := HeatingTargetSet(w, temp);
            v.c == w.c.(mHeating := v.c.mHeating) && PriorityRecorded(v, initial) &&
            v.bus.outcomes == Later(w.bus, 1).outcomes && v.bus.regs.Keys == w.bus.regs.Keys
  {}

  /** Writing the priority records nothing. */
  lemma PriorityRecordsNothing(w: World, initial: Settings, priority: Priority)
    requires PriorityRecorded(w, initial)
    ensures PriorityRecorded(PriorityWritten(w, priority), initial) <==>
              !(Succeeds(w.bus, 0, DHW_PRIORITY) && w.c.priority != priority)
  {}

  lemma LaterOutcome(bus: Bus, j: nat, k: nat)
    ensures OutcomeAt(Later(bus, j), k) == OutcomeAt(bus, j + k)
  {}

  /** `v` follows `w` after `n` operations that neither changed the priority nor left it unrecorded. */
  predicate Follows(w: World, v: World, n: nat, initial: Settings) {
    && v.c.priority == w.c.priority && v.c.desired == w.c.desired && PriorityRecorded(v, initial)
    && v.bus.regs.Keys == w.bus.regs.Keys
    && v.bus.outcomes == Later(w.bus, n).outcomes
  }

  lemma FollowsOn(u: World, v: World, w: World, m: nat, n: nat, initial: Settings)
    requires Follows(u, v, m, initial) && Follows(v, w, n, initial)
    ensures Follows(u, w, m + n, initial)
  {
    assert Later(v.bus, n).outcomes == Later(Later(u.bus, m), n).outcomes;
  }

  lemma PriorityAfter(w: World, v: World, n: nat, initial: Settings, priority: Priority)
    requires Follows(w, v, n, initial)
    ensures PriorityRecorded(PriorityWritten(v, priority), initial) <==>
              !(Succeeds(w.bus, n, DHW_PRIORITY) && w.c.priority != priority)
  {
    PriorityRecordsNothing(v, initial, priority);
    LaterOutcome(w.bus, n, 0);
    assert OutcomeAt(v.bus, 0) == OutcomeAt(Later(w.bus, n), 0);
  }

  lemma TargetFollows(w: World, initial: Settings, temp: real)
    requires PriorityRecorded(w, initial)
    ensures Follows(w, DhwTargetSet(w, temp), 1, initial)
    ensures Follows(w, HeatingTargetSet(w, temp), 1, initial)
  {
    TargetRecords(w, initial, temp);
  }

  lemma RetargetedRecord(w: World, initial: Settings, mode: int)
    requires PriorityRecorded(w, initial)
    ensures PriorityRecorded(Retargeted(w, mode), initial) <==>
              !(1 <= mode <= 3 && Succeeds(w.bus, if mode == 3 then 2 else 1, DHW_PRIORITY) && w.c.priority != PriorityOf(mode))
  {
    hide DhwTargetSet, HeatingTargetSet, PriorityWritten, Follows, Succeeds, PriorityRecorded;
    if mode == 1 {
      TargetFollows(w, initial, HEATING_TARGET_MIN);
      PriorityAfter(w, HeatingTargetSet(w, HEATING_TARGET_MIN), 1, initial, Dhw);
    } else if mode == 2 {
      TargetFollows(w, initial, DHW_TARGET_MIN);
      PriorityAfter(w, DhwTargetSet(w, DHW_TARGET_MIN), 1, initial, Heating);
    } else if mode == 3 {
      var w1 := DhwTargetSet(w, w.c.savedDhw);
      var w2 := HeatingTargetSet(w1, w1.c.savedHeating);
      TargetFollows(w, initial, w.c.savedDhw);
      FollowsRecorded(w, w1, 1, initial);
      TargetFollows(w1, initial, w1.c.savedHeating);
      FollowsOn(w, w1, w2, 1, 1, initial);
      PriorityAfter(w, w2, 2, initial, Dhw);
    }
  }

  lemma FollowsRecorded(w: World, v: World, n: nat, initial: Settings)
    requires Follows(w, v, n, initial)
    ensures PriorityRecorded(v, initial)
  {}

  /** After a mode command, under every script of failures, the recorded priority is the one in
      force exactly when the command did not change it: nothing is recorded after the change. */
  lemma ModeMayLeavePriorityBehind(w: World, initial: Settings, mode: int)
    requires w.c.callback
    ensures PriorityRecorded(Executed(w, SetRunningMode(mode)), initial) <==> !CommandChangesPriority(w, mode)
  {
    var w1 := Fired(w.(c := w.c.(desired := mode)));
    var (w2, ok) := RunningModeSet(w1, DeviceMode(mode));
    assert PriorityRecorded(w1, initial) && w1.bus == w.bus && w1.c.priority == w.c.priority;
    assert ok == Succeeds(w.bus, 0, RUNNING_MODE);
    if ok {
      var w3 := w2.(c := w2.c.(mode := DeviceMode(mode)));
      RetargetedRecord(w3, initial, mode);
      var k := if mode == 3 then 2 else 1;
      LaterOutcome(w.bus, 1, k);
      assert w3.bus.outcomes == Later(w.bus, 1).outcomes && w3.bus.regs.Keys == w.bus.regs.Keys;
      assert OutcomeAt(w3.bus, k) == OutcomeAt(w.bus, k + 1);
      assert PriorityRecorded(w2, initial);
    }
  }

  /** The failing input: with nothing failing, the command for heating only, while hot water has priority. */
  lemma HeatingOnlyLeavesPriorityBehind(w: World, initial: Settings)
    requires w.c.callback && w.c.priority == Dhw && w.bus.outcomes == []
    requires RUNNING_MODE in w.bus.regs && DHW_PRIORITY in w.bus.regs
    ensures !PriorityRecorded(Executed(w, SetRunningMode(2)), initial)
  {
    ModeMayLeavePriorityBehind(w, initial, 2);
  }

  /** How many registers the control logic writes before it comes to the priority. */
  function WritesBeforePriority(w: World): nat {
    var c, s := StatusRead(w).c, StatusSeen(w);
    (if c.mode != DeviceMode(c.desired) then 1 else 0) +
    (if DhwOff(c, s.dhwTarget) then 1 else 0) +
    (if HeatingOff(c, s.heatingTarget) then 1 else 0)
  }

  /** A cycle corrects the priority when the control logic runs, finds it off, and its write succeeds. */
  predicate CycleChangesPriority(w: World) {
    Online(w) && PriorityOff(w.c) && Succeeds(w.bus, READS + WritesBeforePriority(w), DHW_PRIORITY)
  }

  lemma ModeCorrectedFollows(w: World, initial: Settings)
    requires PriorityRecorded(w, initial)
    ensures Follows(w, ModeCorrected(w), if w.c.mode != DeviceMode(w.c.desired) then 1 else 0, initial)
    ensures ModeCorrected(w).c == w.c.(mode := ModeCorrected(w).c.mode)
  {}

  lemma EnforcedFollows(w: World, initial: Settings, s: Snapshot)
    requires PriorityRecorded(w, initial)
    ensures Follows(w, DhwEnforced(w, s), if DhwOff(w.c, s.dhwTarget) then 1 else 0, initial)
    ensures DhwEnforced(w, s).c == w.c.(mDhw := DhwEnforced(w, s).c.mDhw)
    ensures Follows(w, HeatingEnforced(w, s), if HeatingOff(w.c, s.heatingTarget) then 1 else 0, initial)
  {
    var dhw := if w.c.desired == 2 then DHW_TARGET_MIN else w.c.savedDhw;
    var heating := if w.c.desired == 1 then HEATING_TARGET_MIN else w.c.savedHeating;
    TargetRecords(w, initial, dhw);
    TargetRecords(w, initial, heating);
  }

  lemma AppliedRecord(w: World, initial: Settings, s: Snapshot, n: nat)
    requires PriorityRecorded(w, initial)
    requires n == (if w.c.mode != DeviceMode(w.c.desired) then 1 else 0) +
                  (if DhwOff(w.c, s.dhwTarget) then 1 else 0) + (if HeatingOff(w.c, s.heatingTarget) then 1 else 0)
    ensures PriorityRecorded(Applied(w, s), initial) <==> !(PriorityOff(w.c) && Succeeds(w.bus, n, DHW_PRIORITY))
  {
    hide DhwEnforced, HeatingEnforced, ModeCorrected, PriorityWritten, Succeeds;
    var w1 := ModeCorrected(w);
    var w2 := DhwEnforced(w1, s);
    var w3 := HeatingEnforced(w2, s);
    ModeCorrectedFollows(w, initial);
    EnforcedFollows(w1, initial, s);
    EnforcedFollows(w2, initial, s);
    var a, b := if w.c.mode != DeviceMode(w.c.desired) then 1 else 0, if DhwOff(w.c, s.dhwTarget) then 1 else 0;
    FollowsOn(w, w1, w2, a, b, initial);
    FollowsOn(w, w2, w3, a + b, if HeatingOff(w.c, s.heatingTarget) then 1 else 0, initial);
    PriorityAfter(w, w3, n, initial, if w3.c.desired == 2 then Heating else Dhw);
  }

  /** A cycle's control logic, too, leaves a recorded priority recorded exactly when it does not
      change it, under every script of failures. */
  lemma CycleMayLeavePriorityBehind(w: World, initial: Settings)
    requires PriorityRecorded(w, initial)
    ensures PriorityRecorded(Regulated(w), initial) <==> !CycleChangesPriority(w)
  {
    var w1, s := StatusRead(w), StatusSeen(w);
    if Online(w) {
      var n := WritesBeforePriority(w);
      AppliedRecord(w1, initial, s, n);
      LaterOutcome(w.bus, READS, n);
      assert Succeeds(w1.bus, n, DHW_PRIORITY) == Succeeds(w.bus, READS + n, DHW_PRIORITY);
      assert PriorityRecorded(Regulated(w), initial) == PriorityRecorded(Applied(w1, s), initial);
    }
  }

  /** The failing input: with nothing failing and nothing commanded, heating only in force while hot
      water has priority, as after a mode command whose priority write failed. */
  lemma CorrectionLeavesPriorityBehind(w: World, initial: Settings)
    requires PriorityRecorded(w, initial) && w.c.desired == 2 && w.c.priority == Dhw
    requires w.bus.outcomes == [] && Complete(w.bus.regs)
    ensures !PriorityRecorded(Cycled(w, []), initial)
  {
    assert Cycled(w, []) == Regulated(w);
    CycleMayLeavePriorityBehind(w, initial);
  }

  /** The other commands never leave it behind: a priority command records its own change. */
  lemma OtherCommandsRecord(w: World, initial: Settings, command: Command)
    requires w.c.callback && PriorityRecorded(w, initial) && !command.SetRunningMode?
    ensures PriorityRecorded(Executed(w, command), initial)
  {
    if command.SetDhwTemp? || command.SetHeatingTemp? {
      TargetRecords(w, initial, command.temp);
    }
  }
}
