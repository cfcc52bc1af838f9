/** The user's setpoints survive everything but the user's own commands. */
module Setpoints {
  import opened Words
  import opened Control

  /** What the user asked for: the two target temperatures and the working mode. */
  datatype Wish = Wish(dhw: real, heating: real, mode: int)

  function WishOf(w: World): Wish { Wish(w.c.savedDhw, w.c.savedHeating, w.c.desired) }

  /** The last command of a kind wins. */
  function Obeyed(wish: Wish, command: Command): Wish {
    match command
    case SetDhwTemp(temp) => wish.(dhw := temp)
    case SetHeatingTemp(temp) => wish.(heating := temp)
    case SetRunningMode(mode) => wish.(mode := mode)
    case _ => wish
  }

  function AllObeyed(wish: Wish, commands: seq<Command>): Wish
    decreases |commands|
  {
    if commands == [] then wish else AllObeyed(Obeyed(wish, commands[0]), commands[1..])
  }

  /** The commands popped in a run, in order, however they were batched. */
  function Popped(events: seq<Event>): seq<Command> {
    if events == [] then []
    else (if events[0].Cycle? then events[0].commands else []) + Popped(events[1..])
  }

  predicate SameWish(w: World, v: World) {
    WishOf(v) == WishOf(w) && v.c.savedInitialized == w.c.savedInitialized
  }

  lemma TargetsKeep(w: World, temp: real, priority: Priority)
    ensures SameWish(w, DhwTargetSet(w, temp)) && SameWish(w, HeatingTargetSet(w, temp))
    ensures SameWish(w, PriorityWritten(w, priority))
  {}

  lemma RetargetedKeeps(w: World, mode: int)
    ensures SameWish(w, Retargeted(w, mode))
  {
    if mode == 1 {
      TargetsKeep(w, HEATING_TARGET_MIN, Dhw);
      TargetsKeep(HeatingTargetSet(w, HEATING_TARGET_MIN), 0.0, Dhw);
    } else if mode == 2 {
      TargetsKeep(w, DHW_TARGET_MIN, Dhw);
      TargetsKeep(DhwTargetSet(w, DHW_TARGET_MIN), 0.0, Heating);
    } else if mode == 3 {
      var w1 := DhwTargetSet(w, w.c.savedDhw);
      TargetsKeep(w, w.c.savedDhw, Dhw);
      TargetsKeep(w1, w1.c.savedHeating, Dhw);
      TargetsKeep(HeatingTargetSet(w1, w1.c.savedHeating), 0.0, Dhw);
    }
  }

  lemma ExecutedObeys(w: World, command: Command)
    ensures WishOf(Executed(w, command)) == Obeyed(WishOf(w), command)
    ensures Executed(w, command).c.savedInitialized == w.c.savedInitialized
  {
    if command.SetRunningMode? {
      var w1 := Fired(w.(c := w.c.(desired := command.mode)));
      var w2 := RunningModeSet(w1, DeviceMode(command.mode)).0;
      RetargetedKeeps(w2.(c := w2.c.(mode := DeviceMode(command.mode))), command.mode);
    } else if command.SetDhwTemp? || command.SetHeatingTemp? {
      TargetsKeep(w, command.temp, Dhw);
    }
  }

  lemma {:induction false} ProcessedObeys(w: World, commands: seq<Command>)
    ensures WishOf(Processed(w, commands)) == AllObeyed(WishOf(w), commands)
    ensures Processed(w, commands).c.savedInitialized == w.c.savedInitialized
    decreases |commands|
  {
    if commands != [] {
      ExecutedObeys(w, commands[0]);
      ProcessedObeys(Executed(w, commands[0]), commands[1..]);
    }
  }

  lemma AppliedKeeps(w: World, s: Snapshot)
    ensures WishOf(Applied(w, s)) == WishOf(w)
    ensures Applied(w, s).c.savedInitialized == w.c.savedInitialized
  {
    var w1 := ModeCorrected(w);
    var w2 := DhwEnforced(w1, s);
    var w3 := HeatingEnforced(w2, s);
    assert WishOf(w1) == WishOf(w) && w1.c.savedInitialized == w.c.savedInitialized;
    assert WishOf(w2) == WishOf(w) && w2.c.savedInitialized == w.c.savedInitialized;
    assert WishOf(w3) == WishOf(w) && w3.c.savedInitialized == w.c.savedInitialized;
  }

  lemma RegulatedKeeps(w: World)
    ensures Regulated(w).c.desired == w.c.desired
    ensures Regulated(w).c.savedInitialized == (w.c.savedInitialized || Online(w))
    ensures w.c.savedInitialized ==> WishOf(Regulated(w)) == WishOf(w)
  {
    AppliedKeeps(StatusRead(w), StatusSeen(w));
  }

  lemma {:induction false} AllObeyedConcat(wish: Wish, a: seq<Command>, b: seq<Command>)
    ensures AllObeyed(wish, a + b) == AllObeyed(AllObeyed(wish, a), b)
    decreases |a|
  {
    if a == [] {
      assert a + b == b;
    } else {
      assert (a + b)[1..] == a[1..] + b;
      AllObeyedConcat(Obeyed(wish, a[0]), a[1..], b);
    }
  }

  /** After the first full status, through every batching, mode change, outside change and
      Modbus failure, the setpoints are the fold of the commands popped since. */
  lemma {:induction false} SetpointsPreserved(w: World, events: seq<Event>)
    requires w.c.savedInitialized
    ensures WishOf(Run(w, events)) == AllObeyed(WishOf(w), Popped(events))
    ensures Run(w, events).c.savedInitialized
    decreases |events|
  {
    if events != [] {
      var batch := if events[0].Cycle? then events[0].commands else [];
      ProcessedObeys(w, batch);
      RegulatedKeeps(Processed(w, batch));
      SetpointsPreserved(Happened(w, events[0]), events[1..]);
      AllObeyedConcat(WishOf(w), batch, Popped(events[1..]));
    }
  }

  /** The working mode follows the commands from the very first one. */
  lemma {:induction false} ModePreserved(w: World, events: seq<Event>)
    ensures Run(w, events).c.desired == AllObeyed(WishOf(w), Popped(events)).mode
    decreases |events|
  {
    if events != [] {
      var batch := if events[0].Cycle? then events[0].commands else [];
      ProcessedObeys(w, batch);
      RegulatedKeeps(Processed(w, batch));
      var next := Happened(w, events[0]);
      ModePreserved(next, events[1..]);
      AllObeyedConcat(WishOf(w), batch, Popped(events[1..]));
      ModeOnly(WishOf(next), AllObeyed(WishOf(w), batch), Popped(events[1..]));
    }
  }

  lemma {:induction false} ModeOnly(a: Wish, b: Wish, commands: seq<Command>)
    requires a.mode == b.mode
    ensures AllObeyed(a, commands).mode == AllObeyed(b, commands).mode
    decreases |commands|
  {
    if commands != [] {
      ModeOnly(Obeyed(a, commands[0]), Obeyed(b, commands[0]), commands[1..]);
    }
  }

  /** Before the first full status the promise does not hold: in a cycle from an uninitialized
      state a target commanded in the batch survives exactly when the device's own target could
      not be read, or is that very temperature. */
  lemma EarlyTargetMayBeLost(w: World, commands: seq<Command>)
    requires !w.c.savedInitialized
    ensures var wish := AllObeyed(WishOf(w), commands);
            var read := RawsOf(Processed(w, commands).bus);
            && (Cycled(w, commands).c.savedDhw == wish.dhw <==>
                  read.dhw.None? || RawToTemp(read.dhw.value) == wish.dhw)
            && (Cycled(w, commands).c.savedHeating == wish.heating <==>
                  read.heating.None? || RawToTemp(read.heating.value) == wish.heating)
  {
    ProcessedObeys(w, commands);
    var w1 := Processed(w, commands);
    AppliedKeeps(StatusRead(w1), StatusSeen(w1));
  }

  /** The failing case: the write of a first command fails, the device's target is read, and the
      command is gone. */
  lemma EarlyTargetLost(regs: map<word, word>, c: Controller, temp: real)
    requires !c.savedInitialized && DHW_TARGET in regs && RawToTemp(ToSigned(regs[DHW_TARGET])) != temp
    ensures Cycled(World(c, Bus(regs, [Failed], []), [], []), [SetDhwTemp(temp)]).c.savedDhw != temp
  {
    var w := World(c, Bus(regs, [Failed], []), [], []);
    var commands := [SetDhwTemp(temp)];
    assert commands[1..] == [];
    assert Processed(w, commands) == Executed(w, commands[0]);
    assert AllObeyed(Obeyed(WishOf(w), commands[0]), []).dhw == temp;
    EarlyTargetMayBeLost(w, commands);
  }
}
