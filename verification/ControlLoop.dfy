/** The controller as an object: the methods of src/core/ControlLoop.cpp, each tied to
    the function of module `Control` that says what it does. */
module ControlLoop {
  import opened Wrappers
  import opened Words
  import opened Control
  import CommandQueue

  /** The Modbus client the loop talks to. `None` and `false` stand for a ModbusException. */
  class Modbus {
    var regs: map<word, word>
    var outcomes: seq<Outcome>
    var writes: seq<WriteRecord>

    function State(): Bus
      reads this
    {
      Bus(regs, outcomes, writes)
    }

    constructor (regs: map<word, word>, outcomes: seq<Outcome>)
      ensures State() == Bus(regs, outcomes, [])
    {
      this.regs, this.outcomes, writes := regs, outcomes, [];
    }

    method NextOutcome() returns (outcome: Outcome)
      modifies this
      ensures outcome == OutcomeAt(old(State()), 0) && State() == Later(old(State()), 1)
    {
      if outcomes == [] {
        return Done;
      }
      outcome := outcomes[0];
      outcomes := outcomes[1..];
    }

    /** The k-th read since the state `start`. */
    method ReadRegister(address: word, ghost start: Bus, ghost k: nat) returns (raw: Option<int>)
      requires State() == Later(start, k)
      modifies this
      ensures raw == Heard(start, k, address) && State() == Later(start, k + 1)
    {
      LaterNext(start, k, address);
      var outcome := NextOutcome();
      if outcome.Done? && address in regs {
        raw := Some(ToSigned(regs[address]));
      } else {
        raw := None;
      }
    }

    method WriteRegister(address: word, value: word) returns (ok: bool)
      modifies this
      ensures (State(), ok) == Written(old(State()), address, value)
    {
      var outcome := NextOutcome();
      ok := outcome.Done? && address in regs;
      if address in regs && !outcome.Failed? {
        regs := regs[address := value];
      }
      writes := writes + [WriteRecord(address, value, ok)];
    }
  }

  class ControlLoop {
    const modbus: Modbus
    const commandQueue: CommandQueue.SpscQueue<Command>

    var currentPriority: Priority
    var currentMode: int
    var desiredWorkingMode: int
    var lastHeatingTarget: real
    var savedDhwTarget: real
    var savedHeatingTarget: real
    var savedTargetsInitialized: bool
    var mDhwTarget: real
    var mHeatingTarget: real
    var settingsCallback: bool
    var persisted: seq<Settings>
    var published: seq<Snapshot>

    ghost predicate Valid()
      reads this, commandQueue
    {
      commandQueue.Valid()
    }

    function State(): World
      reads this, modbus
    {
      World(
        Controller(currentPriority, currentMode, desiredWorkingMode, lastHeatingTarget, savedDhwTarget,
                   savedHeatingTarget, savedTargetsInitialized, mDhwTarget, mHeatingTarget, settingsCallback),
        modbus.State(), persisted, published)
    }

    constructor (modbus: Modbus, commandQueue: CommandQueue.SpscQueue<Command>)
      ensures this.modbus == modbus && this.commandQueue == commandQueue
      ensures State() == World(Controller(Dhw, MODE_HEAT_DHW, 3, 45.0, 46.0, 45.0, false, 45.0, 40.0, false),
                               modbus.State(), [], [])
    {
      this.modbus, this.commandQueue := modbus, commandQueue;
      currentPriority, currentMode, desiredWorkingMode := Dhw, MODE_HEAT_DHW, 3;
      lastHeatingTarget, savedDhwTarget, savedHeatingTarget := 45.0, 46.0, 45.0;
      savedTargetsInitialized := false;
      mDhwTarget, mHeatingTarget := 45.0, 40.0;
      settingsCallback, persisted, published := false, [], [];
    }

    method SetInitialSettings(workingMode: int, priority: string, dhwTarget: real, heatingTarget: real)
      modifies this
      ensures State() == old(State()).(c := old(State()).c.(
                desired := workingMode, priority := if priority == "heating" then Heating else Dhw,
                mDhw := dhwTarget, mHeating := heatingTarget))
    {
      desiredWorkingMode := workingMode;
      currentPriority := if priority == "heating" then Heating else Dhw;
      mDhwTarget := dhwTarget;
      mHeatingTarget := heatingTarget;
    }

    method SetSettingsCallback()
      modifies this
      ensures State() == old(State()).(c := old(State()).c.(callback := true))
    {
      settingsCallback := true;
    }

    method FireSettingsCallback()
      modifies this
      ensures State() == Fired(old(State()))
    {
      if settingsCallback {
        persisted := persisted + [Settings(desiredWorkingMode, currentPriority, mDhwTarget, mHeatingTarget)];
      }
    }

    method SetRunningMode(mode: int) returns (ok: bool)
      modifies this, modbus
      ensures (State(), ok) == RunningModeSet(old(State()), mode)
    {
      if mode < 0 || mode > 2 {
        return false;
      }
      ok := modbus.WriteRegister(RUNNING_MODE, mode);
    }

    method SetDhwTarget(temp: real)
      modifies this, modbus
      ensures State() == DhwTargetSet(old(State()), temp)
    {
      var raw := TempToRaw(temp);
      var ok := modbus.WriteRegister(DHW_TARGET, ToWord(raw));
      if ok {
        mDhwTarget := temp;
        FireSettingsCallback();
      }
    }

    method SetHeatingTarget(temp: real)
      modifies this, modbus
      ensures State() == HeatingTargetSet(old(State()), temp)
    {
      var raw := TempToRaw(temp);
      var ok := modbus.WriteRegister(HEATING_TARGET, ToWord(raw));
      if ok {
        mHeatingTarget := temp;
        FireSettingsCallback();
      }
    }

    method SetPriority(priority: Priority)
      modifies this, modbus
      ensures State() == PriorityWritten(old(State()), priority)
    {
      var ok := modbus.WriteRegister(DHW_PRIORITY, if priority.Dhw? then 1 else 0);
      if ok {
        currentPriority := priority;
      }
    }

    /** The reads of a status in the order of the source. */
    method ReadRegisters() returns (raws: Raws)
      modifies modbus
      ensures modbus.State() == Later(old(modbus.State()), READS)
      ensures raws == RawsOf(old(modbus.State()))
    {
      ghost var bus := modbus.State();
      var outdoor := modbus.ReadRegister(OUTDOOR_TEMP, bus, 0);
      var leaving := modbus.ReadRegister(LEAVING_WATER_TEMP, bus, 1);
      var tank := modbus.ReadRegister(DHW_TANK_TEMP, bus, 2);
      var mode := modbus.ReadRegister(RUNNING_MODE, bus, 3);
      var running := modbus.ReadRegister(RUNNING_STATUS, bus, 4);
      var dhw := modbus.ReadRegister(DHW_TARGET, bus, 5);
      var heating := modbus.ReadRegister(HEATING_TARGET, bus, 6);
      var priority := modbus.ReadRegister(DHW_PRIORITY, bus, 7);
      raws := Raws(outdoor, leaving, tank, mode, running, dhw, heating, priority);
    }

    /** What the controller remembers of a status: a failed read leaves its field alone. */
    method Note(raws: Raws)
      modifies this
      ensures State() == old(State()).(c := Noted(old(State()).c, raws))
    {
      if raws.mode.Some? && (raws.mode.value == 0 || raws.mode.value == 1 || raws.mode.value == 2) {
        currentMode := raws.mode.value;
      }
      if raws.dhw.Some? && !savedTargetsInitialized {
        savedDhwTarget := RawToTemp(raws.dhw.value);
      }
      if raws.heating.Some? {
        lastHeatingTarget := RawToTemp(raws.heating.value);
        if !savedTargetsInitialized {
          savedHeatingTarget := lastHeatingTarget;
        }
      }
      if Critical(raws) {
        savedTargetsInitialized := true;
      }
    }

    method ReadStatus() returns (status: Snapshot, ok: bool)
      modifies this, modbus
      ensures State() == StatusRead(old(State()))
      ensures status == StatusSeen(old(State())) && ok == Online(old(State()))
    {
      var raws := ReadRegisters();
      status := SnapshotOf(raws, lastHeatingTarget);
      ok := Critical(raws);
      Note(raws);
    }

    method SwitchRunningMode(mode: int)
      modifies this, modbus
      ensures State() == ModeSwitched(old(State()), mode)
    {
      desiredWorkingMode := mode;
      FireSettingsCallback();
      var targetDeviceMode := if mode == 0 then MODE_OFF else MODE_HEAT_DHW;
      var ok := SetRunningMode(targetDeviceMode);
      if !ok {
        return;
      }
      currentMode := targetDeviceMode;
      match mode {
        case 1 =>
          SetHeatingTarget(HEATING_TARGET_MIN);
          SetPriority(Dhw);
        case 2 =>
          SetDhwTarget(DHW_TARGET_MIN);
          SetPriority(Heating);
        case 3 =>
          SetDhwTarget(savedDhwTarget);
          SetHeatingTarget(savedHeatingTarget);
          SetPriority(Dhw);
        case _ =>
      }
    }

    method Execute(command: Command)
      modifies this, modbus
      ensures State() == Executed(old(State()), command)
    {
      match command {
        case SetDhwTemp(temp) =>
          SetDhwTarget(temp);
          savedDhwTarget := temp;
        case SetHeatingTemp(temp) =>
          SetHeatingTarget(temp);
          lastHeatingTarget := temp;
          savedHeatingTarget := temp;
        case SetPriority(value) =>
          var ok := modbus.WriteRegister(DHW_PRIORITY, ToWord(value));
          if ok {
            currentPriority := if value == 1 then Dhw else Heating;
            FireSettingsCallback();
          }
        case SetOccupancyMode(value) =>
          var _ := modbus.WriteRegister(OCCUPANCY_MODE, ToWord(value));
        case SetRunningMode(mode) =>
          SwitchRunningMode(mode);
        case Unknown =>
      }
    }

    /** Pops and executes until the queue is empty. */
    method ProcessCommands()
      requires Valid()
      modifies this, modbus, commandQueue
      ensures Valid() && commandQueue.Contents() == []
      ensures State() == Processed(old(State()), old(commandQueue.Contents()))
    {
      var popped, command := commandQueue.Pop(Unknown);
      while popped
        invariant Valid()
        invariant Processed(old(State()), old(commandQueue.Contents()))
               == Processed(State(), (if popped then [command] else []) + commandQueue.Contents())
        invariant !popped ==> commandQueue.Contents() == []
        decreases popped, |commandQueue.Contents()|
      {
        ghost var rest := commandQueue.Contents();
        assert ([command] + rest)[1..] == rest;
        Execute(command);
        popped, command := commandQueue.Pop(Unknown);
      }
    }

    method ApplyControlLogic(status: Snapshot)
      modifies this, modbus
      ensures State() == Applied(old(State()), status)
    {
      var desiredDeviceMode := if desiredWorkingMode == 0 then MODE_OFF else MODE_HEAT_DHW;
      if currentMode != desiredDeviceMode {
        var ok := SetRunningMode(desiredDeviceMode);
        if ok {
          currentMode := desiredDeviceMode;
        }
      }
      assert State() == ModeCorrected(old(State()));
      EnforceTargets(status);
      EnforcePriority();
    }

    method EnforceTargets(status: Snapshot)
      modifies this, modbus
      ensures State() == HeatingEnforced(DhwEnforced(old(State()), status), status)
    {
      match desiredWorkingMode {
        case 1 =>
          if status.heatingTarget > HEATING_TARGET_MIN + TOLERANCE {
            SetHeatingTarget(HEATING_TARGET_MIN);
          }
        case 2 =>
          if status.dhwTarget > DHW_TARGET_MIN + TOLERANCE {
            SetDhwTarget(DHW_TARGET_MIN);
          }
        case 3 =>
          if Distance(status.dhwTarget, savedDhwTarget) > TOLERANCE {
            SetDhwTarget(savedDhwTarget);
          }
          if Distance(status.heatingTarget, savedHeatingTarget) > TOLERANCE {
            SetHeatingTarget(savedHeatingTarget);
          }
        case _ =>
      }
    }

    method EnforcePriority()
      modifies this, modbus
      ensures State() == PriorityEnforced(old(State()))
    {
      match desiredWorkingMode {
        case 1 =>
          if currentPriority != Dhw {
            SetPriority(Dhw);
          }
        case 3 =>
          if currentPriority != Dhw {
            SetPriority(Dhw);
          }
        case 2 =>
          if currentPriority != Heating {
            SetPriority(Heating);
          }
        case _ =>
      }
    }

    method Publish(status: Snapshot)
      modifies this
      ensures State() == Published(old(State()), status)
    {
      published := published + [status.(workingMode := desiredWorkingMode)];
    }

    method PublishInitialStatus()
      modifies this, modbus
      ensures State() == Started(old(State()))
    {
      var status, ok := ReadStatus();
      if ok {
        Publish(status);
      }
    }

    /** One round of the main loop with a connection: drain the queue, read, regulate, publish. */
    method RunCycle()
      requires Valid()
      modifies this, modbus, commandQueue
      ensures Valid() && commandQueue.Contents() == []
      ensures State() == Cycled(old(State()), old(commandQueue.Contents()))
    {
      ProcessCommands();
      var status, ok := ReadStatus();
      if ok {
        ApplyControlLogic(status);
      }
      Publish(status);
    }
  }
}
