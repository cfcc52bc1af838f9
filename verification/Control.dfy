/** The control state machine of src/core/ControlLoop.cpp as functions: what commands,
    status reads and control logic do to the controller and to the device's registers.

    Temperatures are exact reals; a register holds tenths of a degree as a 16-bit word.
    Reads and writes may fail by an arbitrary script of outcomes; a write that is reported
    as failed may have reached the device all the same. */
module Control {
  import opened Wrappers
  import opened Words

  const OUTDOOR_TEMP: word := 0x0001
  const LEAVING_WATER_TEMP: word := 0x0004
  const OCCUPANCY_MODE: word := 0x0029
  const RUNNING_MODE: word := 0x002C
  const RUNNING_STATUS: word := 0x002D
  const DHW_TANK_TEMP: word := 0x00CE
  const HEATING_TARGET: word := 0x0191
  const DHW_TARGET: word := 0x0194
  const DHW_PRIORITY: word := 0x02BF

  const MODE_OFF := 0
  const MODE_HEAT_DHW := 2
  const DHW_TARGET_MIN := 40.0
  const HEATING_TARGET_MIN := 25.0
  const TOLERANCE := 0.5

  // ---- Words and temperatures ----

  /** The casts between int16_t and uint16_t. */
  function ToWord(i: int): word { i % 0x1_0000 }

  function ToSigned(w: word): (i: int)
    ensures -0x8000 <= i < 0x8000
  {
    if w < 0x8000 then w else w - 0x1_0000
  }

  function RawToTemp(raw: int): real { raw as real / 10.0 }

  /** The conversion to an integer cuts towards zero. */
  function TempToRaw(temp: real): int {
    if temp >= 0.0 then (10.0 * temp).Floor else -((-10.0 * temp).Floor)
  }

  /** Where the conversion to int16_t is defined. */
  predicate Representable(temp: real) { -32769.0 < 10.0 * temp < 32768.0 }

  function Distance(a: real, b: real): real { if a >= b then a - b else b - a }

  /** Writing a temperature and reading it back loses less than a tenth of a degree. */
  lemma TempRoundTrip(temp: real)
    requires Representable(temp)
    ensures ToSigned(ToWord(TempToRaw(temp))) == TempToRaw(temp)
    ensures Distance(RawToTemp(TempToRaw(temp)), temp) < 0.1
  {}

  /** The conversion cuts towards zero, never rounds away from it. */
  lemma Truncates(temp: real)
    ensures temp >= 0.0 ==> 0.0 <= RawToTemp(TempToRaw(temp)) <= temp < RawToTemp(TempToRaw(temp)) + 0.1
    ensures temp <= 0.0 ==> RawToTemp(TempToRaw(temp)) - 0.1 < temp <= RawToTemp(TempToRaw(temp)) <= 0.0
  {}

  // ---- The device as the controller sees it ----

  datatype Outcome = Done | Failed | FailedButDone

  datatype WriteRecord = WriteRecord(address: word, value: word, ok: bool)

  datatype Bus = Bus(regs: map<word, word>, outcomes: seq<Outcome>, writes: seq<WriteRecord>)

  /** The outcome of the k-th operation from now; beyond the script nothing fails. */
  function OutcomeAt(bus: Bus, k: nat): Outcome {
    if k < |bus.outcomes| then bus.outcomes[k] else Done
  }

  /** The device has every register the control loop reads. */
  predicate Complete(regs: map<word, word>) {
    && OUTDOOR_TEMP in regs && LEAVING_WATER_TEMP in regs && DHW_TANK_TEMP in regs && RUNNING_MODE in regs
    && RUNNING_STATUS in regs && DHW_TARGET in regs && HEATING_TARGET in regs && DHW_PRIORITY in regs
  }

  function Later(bus: Bus, k: nat): Bus {
    bus.(outcomes := if k <= |bus.outcomes| then bus.outcomes[k..] else [])
  }

  /** What the k-th operation from now reads, if it is a read of this register. */
  function Heard(bus: Bus, k: nat, address: word): Option<int> {
    if OutcomeAt(bus, k).Done? && address in bus.regs then Some(ToSigned(bus.regs[address])) else None
  }

  lemma LaterNext(bus: Bus, k: nat, address: word)
    ensures Later(Later(bus, k), 1) == Later(bus, k + 1)
    ensures Heard(Later(bus, k), 0, address) == Heard(bus, k, address)
  {
    if k + 1 <= |bus.outcomes| {
      assert bus.outcomes[k..][1..] == bus.outcomes[k + 1..];
    }
  }

  function Written(bus: Bus, address: word, value: word): (Bus, bool) {
    var outcome := OutcomeAt(bus, 0);
    var ok := outcome.Done? && address in bus.regs;
    var regs := if address in bus.regs && !outcome.Failed? then bus.regs[address := value] else bus.regs;
    (Later(bus, 1).(regs := regs, writes := bus.writes + [WriteRecord(address, value, ok)]), ok)
  }

  // ---- The controller ----

  datatype Priority = Dhw | Heating

  datatype Command =
    | SetDhwTemp(temp: real)
    | SetHeatingTemp(temp: real)
    | SetPriority(value: int)
    | SetRunningMode(mode: int)
    | SetOccupancyMode(value: int)
    | Unknown

  datatype Snapshot = Snapshot(
    outdoorTemp: real, leavingWaterTemp: real, dhwTankTemp: real, runningMode: int, runningStatus: int,
    isRunning: bool, dhwTarget: real, heatingTarget: real, dhwPriority: bool, online: bool, workingMode: int)

  datatype Settings = Settings(mode: int, priority: Priority, dhw: real, heating: real)

  /** `mDhw` and `mHeating` are the targets shown to the settings callback. */
  datatype Controller = Controller(
    priority: Priority, mode: int, desired: int, lastHeating: real,
    savedDhw: real, savedHeating: real, savedInitialized: bool, mDhw: real, mHeating: real, callback: bool)

  datatype World = World(c: Controller, bus: Bus, persisted: seq<Settings>, published: seq<Snapshot>)

  function Fired(w: World): World {
    if w.c.callback
    then w.(persisted := w.persisted + [Settings(w.c.desired, w.c.priority, w.c.mDhw, w.c.mHeating)])
    else w
  }

  function RunningModeSet(w: World, mode: int): (World, bool) {
    if mode < 0 || mode > 2 then (w, false)
    else
      var (bus, ok) := Written(w.bus, RUNNING_MODE, mode);
      (w.(bus := bus), ok)
  }

  function DhwTargetSet(w: World, temp: real): World {
    var (bus, ok) := Written(w.bus, DHW_TARGET, ToWord(TempToRaw(temp)));
    if ok then Fired(w.(bus := bus, c := w.c.(mDhw := temp))) else w.(bus := bus)
  }

  function HeatingTargetSet(w: World, temp: real): World {
    var (bus, ok) := Written(w.bus, HEATING_TARGET, ToWord(TempToRaw(temp)));
    if ok then Fired(w.(bus := bus, c := w.c.(mHeating := temp))) else w.(bus := bus)
  }

  function PriorityWritten(w: World, priority: Priority): World {
    var (bus, ok) := Written(w.bus, DHW_PRIORITY, if priority.Dhw? then 1 else 0);
    w.(bus := bus, c := if ok then w.c.(priority := priority) else w.c)
  }

  /** The device mode behind a working mode: anything but "off" heats. */
  function DeviceMode(working: int): int { if working == 0 then MODE_OFF else MODE_HEAT_DHW }

  // ---- Commands ----

  function Executed(w: World, command: Command): World {
    match command
    case SetDhwTemp(temp) =>
      var w1 := DhwTargetSet(w, temp);
      w1.(c := w1.c.(savedDhw := temp))
    case SetHeatingTemp(temp) =>
      var w1 := HeatingTargetSet(w, temp);
      w1.(c := w1.c.(lastHeating := temp, savedHeating := temp))
    case SetPriority(value) =>
      var (bus, ok) := Written(w.bus, DHW_PRIORITY, ToWord(value));
      if ok then Fired(w.(bus := bus, c := w.c.(priority := if value == 1 then Dhw else Heating)))
      else w.(bus := bus)
    case SetOccupancyMode(value) =>
      w.(bus := Written(w.bus, OCCUPANCY_MODE, ToWord(value)).0)
    case SetRunningMode(mode) => ModeSwitched(w, mode)
    case Unknown => w
  }

  function ModeSwitched(w: World, mode: int): World {
    var w1 := Fired(w.(c := w.c.(desired := mode)));
    var (w2, ok) := RunningModeSet(w1, DeviceMode(mode));
    if !ok then w2 else Retargeted(w2.(c := w2.c.(mode := DeviceMode(mode))), mode)
  }

  /** Targets and priority that go with a working mode just entered. */
  function Retargeted(w: World, mode: int): World {
    if mode == 1 then PriorityWritten(HeatingTargetSet(w, HEATING_TARGET_MIN), Dhw)
    else if mode == 2 then PriorityWritten(DhwTargetSet(w, DHW_TARGET_MIN), Heating)
    else if mode == 3 then
      var w1 := DhwTargetSet(w, w.c.savedDhw);
      PriorityWritten(HeatingTargetSet(w1, w1.c.savedHeating), Dhw)
    else w
  }

  function Processed(w: World, commands: seq<Command>): World
    decreases |commands|
  {
    if commands == [] then w else Processed(Executed(w, commands[0]), commands[1..])
  }

  // ---- Status ----

  const READS := 8

  function TempOr(raw: Option<int>, default: real): real {
    if raw.Some? then RawToTemp(raw.value) else default
  }

  /** What the reads of one status brought in, register by register. */
  datatype Raws = Raws(
    outdoor: Option<int>, leaving: Option<int>, tank: Option<int>, mode: Option<int>,
    running: Option<int>, dhw: Option<int>, heating: Option<int>, priority: Option<int>)

  function RawsOf(bus: Bus): Raws {
    Raws(Heard(bus, 0, OUTDOOR_TEMP), Heard(bus, 1, LEAVING_WATER_TEMP), Heard(bus, 2, DHW_TANK_TEMP),
         Heard(bus, 3, RUNNING_MODE), Heard(bus, 4, RUNNING_STATUS), Heard(bus, 5, DHW_TARGET),
         Heard(bus, 6, HEATING_TARGET), Heard(bus, 7, DHW_PRIORITY))
  }

  /** The reads that must all succeed before any control logic runs; the heating target is not one. */
  predicate Critical(r: Raws) {
    r.outdoor.Some? && r.leaving.Some? && r.tank.Some? && r.mode.Some? && r.running.Some? && r.dhw.Some? &&
    r.priority.Some?
  }

  function SnapshotOf(r: Raws, lastHeating: real): Snapshot {
    Snapshot(
      TempOr(r.outdoor, 0.0), TempOr(r.leaving, 0.0), TempOr(r.tank, 0.0),
      if r.mode.Some? then r.mode.value else 0,
      if r.running.Some? then r.running.value else 0,
      r.running.Some? && r.running.value != 0,
      TempOr(r.dhw, 0.0), TempOr(r.heating, lastHeating),
      r.priority.Some? && r.priority.value != 0, Critical(r), 0)
  }

  function Noted(c: Controller, r: Raws): Controller {
    c.(mode := if r.mode.Some? && 0 <= r.mode.value <= 2 then r.mode.value else c.mode,
       savedDhw := if c.savedInitialized then c.savedDhw else TempOr(r.dhw, c.savedDhw),
       lastHeating := TempOr(r.heating, c.lastHeating),
       savedHeating := if c.savedInitialized then c.savedHeating else TempOr(r.heating, c.savedHeating),
       savedInitialized := c.savedInitialized || Critical(r))
  }

  predicate Online(w: World) { Critical(RawsOf(w.bus)) }

  function StatusSeen(w: World): Snapshot { SnapshotOf(RawsOf(w.bus), w.c.lastHeating) }

  function StatusRead(w: World): World {
    w.(bus := Later(w.bus, READS), c := Noted(w.c, RawsOf(w.bus)))
  }

  // ---- Control logic ----

  function ModeCorrected(w: World): World {
    var target := DeviceMode(w.c.desired);
    if w.c.mode == target then w
    else
      var (w1, ok) := RunningModeSet(w, target);
      if ok then w1.(c := w1.c.(mode := target)) else w1
  }

  predicate DhwOff(c: Controller, dhwTarget: real) {
    || (c.desired == 2 && dhwTarget > DHW_TARGET_MIN + TOLERANCE)
    || (c.desired == 3 && Distance(dhwTarget, c.savedDhw) > TOLERANCE)
  }

  predicate HeatingOff(c: Controller, heatingTarget: real) {
    || (c.desired == 1 && heatingTarget > HEATING_TARGET_MIN + TOLERANCE)
    || (c.desired == 3 && Distance(heatingTarget, c.savedHeating) > TOLERANCE)
  }

  function DhwEnforced(w: World, s: Snapshot): World {
    if DhwOff(w.c, s.dhwTarget)
    then DhwTargetSet(w, if w.c.desired == 2 then DHW_TARGET_MIN else w.c.savedDhw) else w
  }

  function HeatingEnforced(w: World, s: Snapshot): World {
    if HeatingOff(w.c, s.heatingTarget)
    then HeatingTargetSet(w, if w.c.desired == 1 then HEATING_TARGET_MIN else w.c.savedHeating) else w
  }

  predicate PriorityOff(c: Controller) {
    ((c.desired == 1 || c.desired == 3) && c.priority.Heating?) || (c.desired == 2 && c.priority.Dhw?)
  }

  function PriorityEnforced(w: World): World {
    if PriorityOff(w.c) then PriorityWritten(w, if w.c.desired == 2 then Heating else Dhw) else w
  }

  function Applied(w: World, s: Snapshot): World {
    PriorityEnforced(HeatingEnforced(DhwEnforced(ModeCorrected(w), s), s))
  }

  // ---- Cycles and runs ----

  function Published(w: World, s: Snapshot): World {
    w.(published := w.published + [s.(workingMode := w.c.desired)])
  }

  /** Reading the status and acting on it: the part of a cycle after its commands. */
  function Regulated(w: World): World {
    var s, w1 := StatusSeen(w), StatusRead(w);
    Published(if Online(w) then Applied(w1, s) else w1, s)
  }

  function Cycled(w: World, commands: seq<Command>): World {
    Regulated(Processed(w, commands))
  }

  /** The snapshot published before the first cycle. */
  function Started(w: World): World {
    var w1 := StatusRead(w);
    if Online(w) then Published(w1, StatusSeen(w)) else w1
  }

  /** A cycle pops a batch of commands; a round without a connection does nothing; somebody
      else may change a register of the device. */
  datatype Event = Cycle(commands: seq<Command>) | NoConnection | Outside(address: word, value: word)

  function Happened(w: World, e: Event): World {
    match e
    case Cycle(commands) => Cycled(w, commands)
    case NoConnection => w
    case Outside(address, value) =>
      if address in w.bus.regs then w.(bus := w.bus.(regs := w.bus.regs[address := value])) else w
  }

  function Run(w: World, events: seq<Event>): World
    decreases |events|
  {
    if events == [] then w else Run(Happened(w, events[0]), events[1..])
  }
}
