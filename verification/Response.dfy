/** What a user sees of a command when nothing fails: the device obeys it, the cycle
    ends with everything in line, and the published snapshot tells the truth. */
module Response {
  import opened Words
  import opened Control
  import opened Corrections
  import opened Convergence
  import opened Setpoints

  predicate CommandInRange(command: Command) {
    (command.SetDhwTemp? || command.SetHeatingTemp?) ==> Representable(command.temp)
  }

  predicate AllInRange(commands: seq<Command>) {
    forall i :: 0 <= i < |commands| ==> CommandInRange(commands[i])
  }

  predicate Fit(w: World) { Faultless(w) && InRange(w.c) }

  function RawFor(temp: real): word { ToWord(TempToRaw(temp)) }

  /** The registers that go with a working mode just entered. */
  function ModeRegisters(w: World, mode: int): map<word, word> {
    var regs := w.bus.regs[RUNNING_MODE := DeviceMode(mode)];
    if mode == 1 then regs[HEATING_TARGET := 250][DHW_PRIORITY := 1]
    else if mode == 2 then regs[DHW_TARGET := 400][DHW_PRIORITY := 0]
    else if mode == 3 then regs[DHW_TARGET := RawFor(w.c.savedDhw)][HEATING_TARGET := RawFor(w.c.savedHeating)][DHW_PRIORITY := 1]
    else regs
  }

  /** The registers a device shows after obeying a command: no others than these change. */
  function Demanded(w: World, command: Command): map<word, word> {
    match command
    case SetDhwTemp(temp) => w.bus.regs[DHW_TARGET := RawFor(temp)]
    case SetHeatingTemp(temp) => w.bus.regs[HEATING_TARGET := RawFor(temp)]
    case SetPriority(value) => w.bus.regs[DHW_PRIORITY := ToWord(value)]
    case SetOccupancyMode(value) => if OCCUPANCY_MODE in w.bus.regs then w.bus.regs[OCCUPANCY_MODE := ToWord(value)] else w.bus.regs
    case SetRunningMode(mode) => ModeRegisters(w, mode)
    case Unknown => w.bus.regs
  }

  lemma TargetReaches(w: World, temp: real)
    requires Faultless(w)
    ensures var v := DhwTargetSet(w, temp);
            v.bus.regs == w.bus.regs[DHW_TARGET := RawFor(temp)] && v.bus.outcomes == [] && v.c == w.c.(mDhw := temp)
    ensures var v := HeatingTargetSet(w, temp);
            v.bus.regs == w.bus.regs[HEATING_TARGET := RawFor(temp)] && v.bus.outcomes == [] && v.c == w.c.(mHeating := temp)
  {}

  lemma PriorityReaches(w: World, priority: Priority)
    requires Faultless(w)
    ensures var v := PriorityWritten(w, priority);
            v.bus.regs == w.bus.regs[DHW_PRIORITY := if priority.Dhw? then 1 else 0] && v.bus.outcomes == [] &&
            v.c == w.c.(priority := priority)
  {}

  lemma RetargetReaches(w: World, mode: int)
    requires Faultless(w) && w.bus.regs[RUNNING_MODE] == DeviceMode(mode)
    ensures var v := Retargeted(w, mode);
            v.bus.regs == ModeRegisters(w, mode) && v.bus.outcomes == [] &&
            v.c.savedDhw == w.c.savedDhw && v.c.savedHeating == w.c.savedHeating
  {
    assert w.bus.regs[RUNNING_MODE := DeviceMode(mode)] == w.bus.regs;
    if mode == 1 {
      assert RawFor(HEATING_TARGET_MIN) == 250;
      TargetReaches(w, HEATING_TARGET_MIN);
      PriorityReaches(HeatingTargetSet(w, HEATING_TARGET_MIN), Dhw);
    } else if mode == 2 {
      assert RawFor(DHW_TARGET_MIN) == 400;
      TargetReaches(w, DHW_TARGET_MIN);
      PriorityReaches(DhwTargetSet(w, DHW_TARGET_MIN), Heating);
    } else if mode == 3 {
      var w1 := DhwTargetSet(w, w.c.savedDhw);
      TargetReaches(w, w.c.savedDhw);
      TargetReaches(w1, w1.c.savedHeating);
      PriorityReaches(HeatingTargetSet(w1, w1.c.savedHeating), Dhw);
    }
  }

  lemma ModeReaches(w: World, mode: int)
    requires Fit(w)
    ensures ModeSwitched(w, mode).bus.regs == ModeRegisters(w, mode)
    ensures Fit(ModeSwitched(w, mode))
  {
    hide Retargeted;
    var w1 := Fired(w.(c := w.c.(desired := mode)));
    var w2 := RunningModeSet(w1, DeviceMode(mode)).0;
    var w3 := w2.(c := w2.c.(mode := DeviceMode(mode)));
    assert w2.bus.regs == w.bus.regs[RUNNING_MODE := DeviceMode(mode)] && w2.bus.outcomes == [];
    RetargetReaches(w3, mode);
    assert ModeRegisters(w3, mode) == ModeRegisters(w, mode);
  }

  /** A command that meets no failure leaves exactly the demanded registers behind. */
  lemma CommandReachesDevice(w: World, command: Command)
    requires Fit(w) && CommandInRange(command)
    ensures Executed(w, command).bus.regs == Demanded(w, command)
    ensures Fit(Executed(w, command))
  {
    match command
    case SetDhwTemp(temp) => TargetReaches(w, temp);
    case SetHeatingTemp(temp) => TargetReaches(w, temp);
    case SetRunningMode(mode) => ModeReaches(w, mode);
    case SetPriority(_) =>
    case SetOccupancyMode(_) =>
    case Unknown =>
  }

  lemma {:induction false} ProcessedFit(w: World, commands: seq<Command>)
    requires Fit(w) && AllInRange(commands)
    ensures Fit(Processed(w, commands))
    decreases |commands|
  {
    if commands != [] {
      CommandReachesDevice(w, commands[0]);
      ProcessedFit(Executed(w, commands[0]), commands[1..]);
    }
  }

  /** One fault-free cycle answers a whole batch of commands: the setpoints are what the batch
      asked for, the device's targets are in line with them, and the next cycle has nothing to do. */
  lemma CommandsConverge(w: World, commands: seq<Command>)
    requires Fit(w) && AllInRange(commands)
    ensures var v := Cycled(w, commands);
            && Fit(v) && TargetsInLine(v) && Quiet(v)
            && v.c.desired == AllObeyed(WishOf(w), commands).mode
            && (w.c.savedInitialized ==> WishOf(v) == AllObeyed(WishOf(w), commands))
  {
    ProcessedFit(w, commands);
    ProcessedObeys(w, commands);
    var p := Processed(w, commands);
    CycleConverges(p);
    RegulatedKeeps(p);
    assert Cycled(p, []) == Cycled(w, commands);
  }

  lemma CommandPublishesNothing(w: World, command: Command)
    ensures Executed(w, command).published == w.published
  {
    if command.SetRunningMode? {
      var mode := command.mode;
      var w1 := RunningModeSet(Fired(w.(c := w.c.(desired := mode))), DeviceMode(mode)).0;
      var w2 := w1.(c := w1.c.(mode := DeviceMode(mode)));
      var w3 := DhwTargetSet(w2, w2.c.savedDhw);
      assert w2.published == w.published && w3.published == w2.published;
      assert Retargeted(w2, mode).published == w2.published;
    }
  }

  lemma {:induction false} CommandsPublishNothing(w: World, commands: seq<Command>)
    ensures Processed(w, commands).published == w.published
    decreases |commands|
  {
    if commands != [] {
      CommandPublishesNothing(w, commands[0]);
      CommandsPublishNothing(Executed(w, commands[0]), commands[1..]);
    }
  }

  /** Every cycle publishes one snapshot, online exactly when all critical reads succeeded,
      with the working mode in force. */
  lemma CyclePublishes(w: World, commands: seq<Command>)
    ensures var v := Cycled(w, commands);
            && |v.published| == |w.published| + 1 && v.published[..|w.published|] == w.published
            && v.published[|w.published|].online == Online(Processed(w, commands))
            && v.published[|w.published|].workingMode == v.c.desired
  {
    CommandsPublishNothing(w, commands);
    var p := Processed(w, commands);
    AppliedPublishesNothing(StatusRead(p), StatusSeen(p));
    AppliedKeeps(StatusRead(p), StatusSeen(p));
  }

  lemma AppliedPublishesNothing(w: World, s: Snapshot)
    ensures Applied(w, s).published == w.published
  {
    var w1 := ModeCorrected(w);
    var w2 := DhwEnforced(w1, s);
    var w3 := HeatingEnforced(w2, s);
    assert w1.published == w.published && w2.published == w1.published && w3.published == w2.published;
  }

  /** A fault-free snapshot shows each register under its own name, as it was when read. */
  lemma SnapshotIsTrue(w: World)
    requires Faultless(w)
    ensures var s := StatusSeen(w);
            && s.outdoorTemp == TempAt(w, OUTDOOR_TEMP) && s.leavingWaterTemp == TempAt(w, LEAVING_WATER_TEMP)
            && s.dhwTankTemp == TempAt(w, DHW_TANK_TEMP)
            && s.dhwTarget == TempAt(w, DHW_TARGET) && s.heatingTarget == TempAt(w, HEATING_TARGET)
            && s.runningMode == RawAt(w, RUNNING_MODE) && s.runningStatus == RawAt(w, RUNNING_STATUS)
            && (s.isRunning <==> w.bus.regs[RUNNING_STATUS] != 0)
            && (s.dhwPriority <==> w.bus.regs[DHW_PRIORITY] != 0)
            && s.online
  {}
}
