/** What commands, status reads and the control logic do, exactly and under every script of
    failures: which words go to which registers, what the controller remembers of it, and
    what is recorded and published. Values and bounds are written out as numbers. */
module Effects {
  import opened Words
  import opened Control
  import opened Corrections
  import opened Convergence
  import opened Persistence
  import opened Response

  // ---- Lists of writes ----

  datatype Request = Request(address: word, value: word)

  function AllWritten(bus: Bus, requests: seq<Request>): Bus
    decreases |requests|
  {
    if requests == [] then bus
    else AllWritten(Written(bus, requests[0].address, requests[0].value).0, requests[1..])
  }

  lemma {:induction false} AllWrittenConcat(bus: Bus, a: seq<Request>, b: seq<Request>)
    ensures AllWritten(bus, a + b) == AllWritten(AllWritten(bus, a), b)
    decreases |a|
  {
    hide Written;
    if a == [] {
      assert a + b == b;
    } else {
      assert (a + b)[1..] == a[1..] + b;
      AllWrittenConcat(Written(bus, a[0].address, a[0].value).0, a[1..], b);
    }
  }

  lemma OneWritten(bus: Bus, r: Request)
    ensures AllWritten(bus, [r]) == Written(bus, r.address, r.value).0
  {
    hide Written;
    assert [r][1..] == [];
    assert AllWritten(Written(bus, r.address, r.value).0, []) == Written(bus, r.address, r.value).0;
  }

  lemma TwoWritten(bus: Bus, q: Request, r: Request)
    ensures AllWritten(bus, [q, r]) == Written(Written(bus, q.address, q.value).0, r.address, r.value).0
  {
    hide Written;
    assert [q, r] == [q] + [r];
    AllWrittenConcat(bus, [q], [r]);
    OneWritten(bus, q);
    OneWritten(Written(bus, q.address, q.value).0, r);
  }

  /** The records that a list of writes leaves behind. */
  function RecordsOf(bus: Bus, requests: seq<Request>): seq<WriteRecord> {
    seq(|requests|, i requires 0 <= i < |requests| =>
      WriteRecord(requests[i].address, requests[i].value, Succeeds(bus, i, requests[i].address)))
  }

  lemma WrittenOne(bus: Bus, r: Request)
    ensures var next := Written(bus, r.address, r.value).0;
            && next.writes == bus.writes + [WriteRecord(r.address, r.value, Succeeds(bus, 0, r.address))]
            && next.regs.Keys == bus.regs.Keys && next.outcomes == Later(bus, 1).outcomes
  {}

  lemma SucceedsNext(bus: Bus, next: Bus, k: nat, address: word)
    requires next.regs.Keys == bus.regs.Keys && next.outcomes == Later(bus, 1).outcomes
    ensures Succeeds(next, k, address) == Succeeds(bus, k + 1, address)
    ensures Later(next, k).outcomes == Later(bus, k + 1).outcomes
  {
    LaterOutcome(bus, 1, k);
    assert OutcomeAt(next, k) == OutcomeAt(Later(bus, 1), k);
  }

  lemma RecordsStep(bus: Bus, next: Bus, requests: seq<Request>)
    requires requests != [] && next.regs.Keys == bus.regs.Keys && next.outcomes == Later(bus, 1).outcomes
    ensures var r := requests[0];
            RecordsOf(bus, requests) ==
            [WriteRecord(r.address, r.value, Succeeds(bus, 0, r.address))] + RecordsOf(next, requests[1..])
  {
    hide Succeeds;
    forall i | 0 <= i < |requests| - 1 ensures RecordsOf(next, requests[1..])[i] == RecordsOf(bus, requests)[i + 1] {
      SucceedsNext(bus, next, i, requests[i + 1].address);
    }
  }

  /** Each write of a list is recorded with its own address, value and outcome. */
  lemma {:induction false} AllWrittenRecords(bus: Bus, requests: seq<Request>)
    ensures AllWritten(bus, requests).writes == bus.writes + RecordsOf(bus, requests)
    ensures AllWritten(bus, requests).outcomes == Later(bus, |requests|).outcomes
    ensures AllWritten(bus, requests).regs.Keys == bus.regs.Keys
    decreases |requests|
  {
    if requests != [] {
      hide Written, Succeeds, RecordsOf, Later;
      var next := Written(bus, requests[0].address, requests[0].value).0;
      WrittenOne(bus, requests[0]);
      AllWrittenRecords(next, requests[1..]);
      RecordsStep(bus, next, requests);
      SucceedsNext(bus, next, |requests| - 1, requests[0].address);
    } else {
      assert RecordsOf(bus, []) == [] && bus.outcomes[0..] == bus.outcomes;
    }
  }

  // ---- Commands ----

  /** What a working mode just entered asks for. */
  function ModeRequests(c: Controller, mode: int): seq<Request> {
    if mode == 1 then [Request(HEATING_TARGET, 250), Request(DHW_PRIORITY, 1)]
    else if mode == 2 then [Request(DHW_TARGET, 400), Request(DHW_PRIORITY, 0)]
    else if mode == 3 then
      [Request(DHW_TARGET, RawFor(c.savedDhw)), Request(HEATING_TARGET, RawFor(c.savedHeating)), Request(DHW_PRIORITY, 1)]
    else []
  }

  /** The writes of a command. A mode command whose mode cannot be written makes no others. */
  function CommandRequests(w: World, command: Command): seq<Request> {
    match command
    case SetDhwTemp(temp) => [Request(DHW_TARGET, RawFor(temp))]
    case SetHeatingTemp(temp) => [Request(HEATING_TARGET, RawFor(temp))]
    case SetPriority(value) => [Request(DHW_PRIORITY, ToWord(value))]
    case SetOccupancyMode(value) => [Request(OCCUPANCY_MODE, ToWord(value))]
    case SetRunningMode(mode) =>
      [Request(RUNNING_MODE, if mode == 0 then 0 else 2)] +
      (if Succeeds(w.bus, 0, RUNNING_MODE) then ModeRequests(w.c, mode) else [])
    case Unknown => []
  }

  lemma RetargetedRequests(w: World, mode: int)
    ensures Retargeted(w, mode).bus == AllWritten(w.bus, ModeRequests(w.c, mode))
  {
    assert TempToRaw(HEATING_TARGET_MIN) == 250 && TempToRaw(DHW_TARGET_MIN) == 400;
    var requests := ModeRequests(w.c, mode);
    if mode == 1 || mode == 2 {
      TwoWritten(w.bus, requests[0], requests[1]);
    } else if mode == 3 {
      assert requests == [requests[0]] + [requests[1], requests[2]];
      AllWrittenConcat(w.bus, [requests[0]], [requests[1], requests[2]]);
      OneWritten(w.bus, requests[0]);
      TwoWritten(DhwTargetSet(w, w.c.savedDhw).bus, requests[1], requests[2]);
    }
  }

  /** A command makes exactly these writes, in this order, whatever fails. */
  lemma CommandWritesExactly(w: World, command: Command)
    ensures Executed(w, command).bus == AllWritten(w.bus, CommandRequests(w, command))
  {
    hide Retargeted;
    var requests := CommandRequests(w, command);
    if command.SetRunningMode? {
      var device := if command.mode == 0 then 0 else 2;
      var w1 := Fired(w.(c := w.c.(desired := command.mode)));
      var (w2, ok) := RunningModeSet(w1, device);
      OneWritten(w.bus, Request(RUNNING_MODE, device));
      if ok {
        RetargetedRequests(w2.(c := w2.c.(mode := device)), command.mode);
        AllWrittenConcat(w.bus, [Request(RUNNING_MODE, device)], ModeRequests(w.c, command.mode));
      }
    } else if !command.Unknown? {
      OneWritten(w.bus, requests[0]);
    }
  }

  /** Device modes outside 0..2 are refused without a write, the others are written. */
  lemma RunningModeRefused(w: World, mode: int)
    ensures if 0 <= mode <= 2
            then RunningModeSet(w, mode).0 == w.(bus := AllWritten(w.bus, [Request(RUNNING_MODE, mode)])) &&
                 RunningModeSet(w, mode).1 == Succeeds(w.bus, 0, RUNNING_MODE)
            else RunningModeSet(w, mode) == (w, false)
  {
    if 0 <= mode <= 2 { OneWritten(w.bus, Request(RUNNING_MODE, mode)); }
  }

  /** What a priority command leaves behind: hot water first for 1 and for nothing else, remembered
      and recorded if the write succeeds, nothing at all if not. */
  lemma PriorityCommand(w: World, value: int)
    ensures var v := Executed(w, SetPriority(value));
            if Succeeds(w.bus, 0, DHW_PRIORITY)
            then && (v.c.priority == Dhw <==> value == 1) && v.c == w.c.(priority := v.c.priority)
                 && v.persisted == w.persisted +
                      (if w.c.callback then [Settings(w.c.desired, v.c.priority, w.c.mDhw, w.c.mHeating)] else [])
            else v.c == w.c && v.persisted == w.persisted
  {
    assert w.persisted + [] == w.persisted;
  }

  /** What the target commands leave behind. */
  lemma TargetCommand(w: World, temp: real)
    ensures var v := Executed(w, SetDhwTemp(temp));
            if Succeeds(w.bus, 0, DHW_TARGET)
            then && v.c == w.c.(savedDhw := temp, mDhw := temp)
                 && v.persisted == w.persisted +
                      (if w.c.callback then [Settings(w.c.desired, w.c.priority, temp, w.c.mHeating)] else [])
            else v.c == w.c.(savedDhw := temp) && v.persisted == w.persisted
    ensures var v := Executed(w, SetHeatingTemp(temp));
            if Succeeds(w.bus, 0, HEATING_TARGET)
            then && v.c == w.c.(savedHeating := temp, lastHeating := temp, mHeating := temp)
                 && v.persisted == w.persisted +
                      (if w.c.callback then [Settings(w.c.desired, w.c.priority, w.c.mDhw, temp)] else [])
            else v.c == w.c.(savedHeating := temp, lastHeating := temp) && v.persisted == w.persisted
  {
    assert w.persisted + [] == w.persisted;
  }

  lemma OtherCommand(w: World, command: Command)
    requires command.SetOccupancyMode? || command.Unknown?
    ensures Executed(w, command).c == w.c && Executed(w, command).persisted == w.persisted
  {}

  /** What a mode command leaves behind, whatever fails: the working mode in any case; the device
      mode if it could be written; and then each target and the priority if its own write succeeded. */
  lemma ModeCommand(w: World, mode: int)
    ensures var v := Executed(w, SetRunningMode(mode)).c;
            var entered := Succeeds(w.bus, 0, RUNNING_MODE);
            var last := if mode == 3 then 3 else 2;
            v == w.c.(
              desired := mode,
              mode := if !entered then w.c.mode else if mode == 0 then 0 else 2,
              mDhw := if entered && mode == 2 && Succeeds(w.bus, 1, DHW_TARGET) then 40.0
                      else if entered && mode == 3 && Succeeds(w.bus, 1, DHW_TARGET) then w.c.savedDhw else w.c.mDhw,
              mHeating := if entered && mode == 1 && Succeeds(w.bus, 1, HEATING_TARGET) then 25.0
                          else if entered && mode == 3 && Succeeds(w.bus, 2, HEATING_TARGET) then w.c.savedHeating else w.c.mHeating,
              priority := if entered && 1 <= mode <= 3 && Succeeds(w.bus, last, DHW_PRIORITY)
                          then (if mode == 2 then Heating else Dhw) else w.c.priority)
  {
    hide Retargeted;
    var device := if mode == 0 then 0 else 2;
    var w1 := Fired(w.(c := w.c.(desired := mode)));
    var (w2, ok) := RunningModeSet(w1, device);
    if ok {
      var w3 := w2.(c := w2.c.(mode := device));
      RetargetedMemory(w3, mode);
      SucceedsNext(w.bus, w3.bus, 0, DHW_TARGET);
      SucceedsNext(w.bus, w3.bus, 0, HEATING_TARGET);
      SucceedsNext(w.bus, w3.bus, 1, HEATING_TARGET);
      SucceedsNext(w.bus, w3.bus, 1, DHW_PRIORITY);
      SucceedsNext(w.bus, w3.bus, 2, DHW_PRIORITY);
    }
  }

  lemma RetargetedMemory(w: World, mode: int)
    ensures Retargeted(w, mode).c == w.c.(
              mDhw := if mode == 2 && Succeeds(w.bus, 0, DHW_TARGET) then 40.0
                      else if mode == 3 && Succeeds(w.bus, 0, DHW_TARGET) then w.c.savedDhw else w.c.mDhw,
              mHeating := if mode == 1 && Succeeds(w.bus, 0, HEATING_TARGET) then 25.0
                          else if mode == 3 && Succeeds(w.bus, 1, HEATING_TARGET) then w.c.savedHeating else w.c.mHeating,
              priority := if 1 <= mode <= 3 && Succeeds(w.bus, if mode == 3 then 2 else 1, DHW_PRIORITY)
                          then (if mode == 2 then Heating else Dhw) else w.c.priority)
  {
    hide Succeeds;
    if mode == 1 {
      var w1 := HeatingTargetSet(w, 25.0);
      TargetMemory(w, 25.0);
      PriorityMemory(w1, Dhw);
      SucceedsNext(w.bus, w1.bus, 0, DHW_PRIORITY);
    } else if mode == 2 {
      var w1 := DhwTargetSet(w, 40.0);
      TargetMemory(w, 40.0);
      PriorityMemory(w1, Heating);
      SucceedsNext(w.bus, w1.bus, 0, DHW_PRIORITY);
    } else if mode == 3 {
      var w1 := DhwTargetSet(w, w.c.savedDhw);
      var w2 := HeatingTargetSet(w1, w1.c.savedHeating);
      TargetMemory(w, w.c.savedDhw);
      TargetMemory(w1, w1.c.savedHeating);
      PriorityMemory(w2, Dhw);
      SucceedsNext(w.bus, w1.bus, 0, HEATING_TARGET);
      SucceedsNext(w1.bus, w2.bus, 0, DHW_PRIORITY);
      SucceedsNext(w.bus, w1.bus, 1, DHW_PRIORITY);
    }
  }

  lemma TargetMemory(w: World, temp: real)
    ensures var v := DhwTargetSet(w, temp);
            && v.c == w.c.(mDhw := if Succeeds(w.bus, 0, DHW_TARGET) then temp else w.c.mDhw)
            && v.bus.regs.Keys == w.bus.regs.Keys && v.bus.outcomes == Later(w.bus, 1).outcomes
    ensures var v := HeatingTargetSet(w, temp);
            && v.c == w.c.(mHeating := if Succeeds(w.bus, 0, HEATING_TARGET) then temp else w.c.mHeating)
            && v.bus.regs.Keys == w.bus.regs.Keys && v.bus.outcomes == Later(w.bus, 1).outcomes
  {}

  lemma PriorityMemory(w: World, priority: Priority)
    ensures var v := PriorityWritten(w, priority);
            && v.c == w.c.(priority := if Succeeds(w.bus, 0, DHW_PRIORITY) then priority else w.c.priority)
            && v.bus.regs.Keys == w.bus.regs.Keys && v.bus.outcomes == Later(w.bus, 1).outcomes
  {}

  /** The record handed on when there is somebody to hand it to. */
  function Recorded(c: Controller, made: bool, settings: Settings): seq<Settings> {
    if c.callback && made then [settings] else []
  }

  lemma TargetRecord(w: World, temp: real)
    ensures DhwTargetSet(w, temp).persisted == w.persisted +
              Recorded(w.c, Succeeds(w.bus, 0, DHW_TARGET), Settings(w.c.desired, w.c.priority, temp, w.c.mHeating))
    ensures HeatingTargetSet(w, temp).persisted == w.persisted +
              Recorded(w.c, Succeeds(w.bus, 0, HEATING_TARGET), Settings(w.c.desired, w.c.priority, w.c.mDhw, temp))
  {
    assert w.persisted + [] == w.persisted;
  }

  /** The records of a mode command: one before anything is written, with the new mode and all else
      as it was, and one for each target that was then written with success. */
  lemma ModeRecords(w: World, mode: int)
    ensures var c, entered := w.c, Succeeds(w.bus, 0, RUNNING_MODE);
            var dhw := if mode == 3 && Succeeds(w.bus, 1, DHW_TARGET) then c.savedDhw else c.mDhw;
            Executed(w, SetRunningMode(mode)).persisted == w.persisted +
              Recorded(c, true, Settings(mode, c.priority, c.mDhw, c.mHeating)) +
              Recorded(c, entered && mode == 1 && Succeeds(w.bus, 1, HEATING_TARGET), Settings(mode, c.priority, c.mDhw, 25.0)) +
              Recorded(c, entered && mode == 2 && Succeeds(w.bus, 1, DHW_TARGET), Settings(mode, c.priority, 40.0, c.mHeating)) +
              Recorded(c, entered && mode == 3 && Succeeds(w.bus, 1, DHW_TARGET), Settings(mode, c.priority, c.savedDhw, c.mHeating)) +
              Recorded(c, entered && mode == 3 && Succeeds(w.bus, 2, HEATING_TARGET), Settings(mode, c.priority, dhw, c.savedHeating))
  {
    hide Retargeted, Succeeds;
    var device := if mode == 0 then 0 else 2;
    var w1 := Fired(w.(c := w.c.(desired := mode)));
    var (w2, ok) := RunningModeSet(w1, device);
    assert w1.persisted == w.persisted + Recorded(w.c, true, Settings(mode, w.c.priority, w.c.mDhw, w.c.mHeating));
    assert ok == Succeeds(w.bus, 0, RUNNING_MODE) by { RunningModeRefused(w1, device); assert w1.bus == w.bus; }
    if ok {
      var w3 := w2.(c := w2.c.(mode := device));
      RetargetedRecords(w3, mode);
      SucceedsNext(w.bus, w3.bus, 0, DHW_TARGET);
      SucceedsNext(w.bus, w3.bus, 0, HEATING_TARGET);
      SucceedsNext(w.bus, w3.bus, 1, HEATING_TARGET);
    }
  }

  lemma RetargetedRecords(w: World, mode: int)
    ensures var c := w.c;
            var dhw := if mode == 3 && Succeeds(w.bus, 0, DHW_TARGET) then c.savedDhw else c.mDhw;
            Retargeted(w, mode).persisted == w.persisted +
              Recorded(c, mode == 1 && Succeeds(w.bus, 0, HEATING_TARGET), Settings(c.desired, c.priority, c.mDhw, 25.0)) +
              Recorded(c, mode == 2 && Succeeds(w.bus, 0, DHW_TARGET), Settings(c.desired, c.priority, 40.0, c.mHeating)) +
              Recorded(c, mode == 3 && Succeeds(w.bus, 0, DHW_TARGET), Settings(c.desired, c.priority, c.savedDhw, c.mHeating)) +
              Recorded(c, mode == 3 && Succeeds(w.bus, 1, HEATING_TARGET), Settings(c.desired, c.priority, dhw, c.savedHeating))
  {
    hide Succeeds;
    if mode == 1 {
      TargetRecord(w, 25.0);
    } else if mode == 2 {
      TargetRecord(w, 40.0);
    } else if mode == 3 {
      var w1 := DhwTargetSet(w, w.c.savedDhw);
      TargetRecord(w, w.c.savedDhw);
      TargetMemory(w, w.c.savedDhw);
      TargetRecord(w1, w1.c.savedHeating);
      SucceedsNext(w.bus, w1.bus, 0, HEATING_TARGET);
    }
  }

  // ---- The control logic ----

  function ModeLogic(c: Controller): seq<Request> {
    var device := if c.desired == 0 then 0 else 2;
    if c.mode != device then [Request(RUNNING_MODE, device)] else []
  }

  function DhwLogic(c: Controller, dhwTarget: real): seq<Request> {
    if c.desired == 2 && dhwTarget > 40.5 then [Request(DHW_TARGET, 400)]
    else if c.desired == 3 && Distance(dhwTarget, c.savedDhw) > 0.5 then [Request(DHW_TARGET, RawFor(c.savedDhw))]
    else []
  }

  function HeatingLogic(c: Controller, heatingTarget: real): seq<Request> {
    if c.desired == 1 && heatingTarget > 25.5 then [Request(HEATING_TARGET, 250)]
    else if c.desired == 3 && Distance(heatingTarget, c.savedHeating) > 0.5 then [Request(HEATING_TARGET, RawFor(c.savedHeating))]
    else []
  }

  function PriorityLogic(c: Controller): seq<Request> {
    if (c.desired == 1 || c.desired == 3) && c.priority == Heating then [Request(DHW_PRIORITY, 1)]
    else if c.desired == 2 && c.priority == Dhw then [Request(DHW_PRIORITY, 0)]
    else []
  }

  /** The writes of the control logic, from what the controller remembers and what the status shows. */
  function LogicRequests(c: Controller, s: Snapshot): seq<Request> {
    ModeLogic(c) + DhwLogic(c, s.dhwTarget) + HeatingLogic(c, s.heatingTarget) + PriorityLogic(c)
  }

  // What one correction does to bus and controller.

  lemma ModeStep(w: World)
    ensures var v := ModeCorrected(w);
            && v.bus == AllWritten(w.bus, ModeLogic(w.c))
            && v.c == w.c.(mode := if ModeLogic(w.c) != [] && Succeeds(w.bus, 0, RUNNING_MODE) then DeviceMode(w.c.desired) else w.c.mode)
  {
    if ModeLogic(w.c) != [] { OneWritten(w.bus, ModeLogic(w.c)[0]); }
  }

  lemma DhwStep(w: World, s: Snapshot)
    ensures var v := DhwEnforced(w, s);
            v.bus == AllWritten(w.bus, DhwLogic(w.c, s.dhwTarget)) && v.c == w.c.(mDhw := v.c.mDhw)
  {
    assert TempToRaw(DHW_TARGET_MIN) == 400;
    var requests := DhwLogic(w.c, s.dhwTarget);
    if requests != [] { OneWritten(w.bus, requests[0]); }
  }

  lemma HeatingStep(w: World, s: Snapshot)
    ensures var v := HeatingEnforced(w, s);
            v.bus == AllWritten(w.bus, HeatingLogic(w.c, s.heatingTarget)) && v.c == w.c.(mHeating := v.c.mHeating)
  {
    assert TempToRaw(HEATING_TARGET_MIN) == 250;
    var requests := HeatingLogic(w.c, s.heatingTarget);
    if requests != [] { OneWritten(w.bus, requests[0]); }
  }

  lemma PriorityStep(w: World)
    ensures var v := PriorityEnforced(w);
            && v.bus == AllWritten(w.bus, PriorityLogic(w.c))
            && v.c == w.c.(priority := if PriorityLogic(w.c) != [] && Succeeds(w.bus, 0, DHW_PRIORITY)
                                       then (if w.c.desired == 2 then Heating else Dhw) else w.c.priority)
  {
    if PriorityLogic(w.c) != [] { OneWritten(w.bus, PriorityLogic(w.c)[0]); }
  }

  /** The control logic makes exactly these writes, in this order, whatever fails. */
  lemma LogicWritesExactly(w: World, s: Snapshot)
    ensures Applied(w, s).bus == AllWritten(w.bus, LogicRequests(w.c, s))
  {
    hide ModeCorrected, DhwEnforced, HeatingEnforced, PriorityEnforced, AllWritten;
    var w1 := ModeCorrected(w);
    var w2 := DhwEnforced(w1, s);
    var w3 := HeatingEnforced(w2, s);
    ModeStep(w);
    DhwStep(w1, s);
    HeatingStep(w2, s);
    PriorityStep(w3);
    var a, b, c := ModeLogic(w.c), DhwLogic(w.c, s.dhwTarget), HeatingLogic(w.c, s.heatingTarget);
    AllWrittenConcat(w.bus, a, b);
    AllWrittenConcat(w.bus, a + b, c);
    AllWrittenConcat(w.bus, a + b + c, PriorityLogic(w.c));
  }

  /** The writes of a whole cycle after its commands: none unless all critical reads succeeded. */
  function CycleRequests(w: World): seq<Request> {
    if Online(w) then LogicRequests(StatusRead(w).c, StatusSeen(w)) else []
  }

  /** Under every script of failures: what a cycle writes after its commands, and the record of it. */
  lemma CycleWritesExactly(w: World, commands: seq<Command>)
    ensures var p := Processed(w, commands);
            var requests, later := CycleRequests(p), Later(p.bus, 8);
            && Cycled(w, commands).bus == AllWritten(later, requests)
            && Cycled(w, commands).bus.writes == p.bus.writes + RecordsOf(later, requests)
  {
    hide Applied, LogicRequests;
    var p := Processed(w, commands);
    if Online(p) { LogicWritesExactly(StatusRead(p), StatusSeen(p)); }
    AllWrittenRecords(Later(p.bus, 8), CycleRequests(p));
  }

  /** What the control logic remembers of its own writes: device mode and priority, each exactly if
      its write succeeded; a failed correction is tried again. */
  lemma LogicMemory(w: World, s: Snapshot)
    ensures var v := Applied(w, s).c;
            var before := |ModeLogic(w.c)| + |DhwLogic(w.c, s.dhwTarget)| + |HeatingLogic(w.c, s.heatingTarget)|;
            && v == w.c.(mode := v.mode, mDhw := v.mDhw, mHeating := v.mHeating, priority := v.priority)
            && v.mode == (if ModeLogic(w.c) != [] && Succeeds(w.bus, 0, RUNNING_MODE) then DeviceMode(w.c.desired) else w.c.mode)
            && v.priority == (if PriorityLogic(w.c) != [] && Succeeds(w.bus, before, DHW_PRIORITY)
                              then (if w.c.desired == 2 then Heating else Dhw) else w.c.priority)
  {
    hide ModeCorrected, DhwEnforced, HeatingEnforced, PriorityEnforced, AllWritten, Succeeds;
    var w1 := ModeCorrected(w);
    var w2 := DhwEnforced(w1, s);
    var w3 := HeatingEnforced(w2, s);
    ModeStep(w);
    DhwStep(w1, s);
    HeatingStep(w2, s);
    PriorityStep(w3);
    var a, b, c := ModeLogic(w.c), DhwLogic(w.c, s.dhwTarget), HeatingLogic(w.c, s.heatingTarget);
    AllWrittenConcat(w.bus, a, b);
    AllWrittenConcat(w.bus, a + b, c);
    AllWrittenRecords(w.bus, a + b + c);
    SucceedsAfter(w.bus, w3.bus, |a + b + c|, DHW_PRIORITY);
  }

  /** The records of the control logic: one for each target it wrote with success, none for the
      device mode or the priority. */
  lemma LogicRecords(w: World, s: Snapshot)
    ensures var c := w.c;
            var a, b := ModeLogic(c), DhwLogic(c, s.dhwTarget);
            var dhwDone := b != [] && Succeeds(w.bus, |a|, DHW_TARGET);
            var heatingDone := HeatingLogic(c, s.heatingTarget) != [] && Succeeds(w.bus, |a| + |b|, HEATING_TARGET);
            var dhw := if c.desired == 2 then 40.0 else c.savedDhw;
            var heating := if c.desired == 1 then 25.0 else c.savedHeating;
            Applied(w, s).persisted == w.persisted +
              Recorded(c, dhwDone, Settings(c.desired, c.priority, dhw, c.mHeating)) +
              Recorded(c, heatingDone, Settings(c.desired, c.priority, if dhwDone then dhw else c.mDhw, heating))
  {
    hide AllWritten, Succeeds, ModeCorrected, DhwEnforced, HeatingEnforced, PriorityEnforced, DhwLogic, HeatingLogic, ModeLogic;
    var a, b := ModeLogic(w.c), DhwLogic(w.c, s.dhwTarget);
    var w1 := ModeCorrected(w);
    var w2 := DhwEnforced(w1, s);
    ModeStep(w);
    OthersPersistNothing(w);
    DhwStep(w1, s);
    LogicStays(w.c, w1.c, w2.c, s);
    AllWrittenConcat(w.bus, a, b);
    AllWrittenRecords(w.bus, a);
    AllWrittenRecords(w.bus, a + b);
    SucceedsAfter(w.bus, w1.bus, |a|, DHW_TARGET);
    SucceedsAfter(w.bus, w2.bus, |a + b|, HEATING_TARGET);
    DhwRecordStep(w1, s);
    HeatingRecordStep(w2, s);
    OthersPersistNothing(HeatingEnforced(w2, s));
  }

  /** The corrections are decided by what the earlier ones leave alone. */
  lemma LogicStays(c: Controller, c1: Controller, c2: Controller, s: Snapshot)
    requires c1 == c.(mode := c1.mode) && c2 == c1.(mDhw := c2.mDhw)
    ensures DhwLogic(c1, s.dhwTarget) == DhwLogic(c, s.dhwTarget)
    ensures HeatingLogic(c2, s.heatingTarget) == HeatingLogic(c, s.heatingTarget)
  {}

  lemma OthersPersistNothing(w: World)
    ensures ModeCorrected(w).persisted == w.persisted && PriorityEnforced(w).persisted == w.persisted
  {}

  lemma DhwRecordStep(w: World, s: Snapshot)
    ensures var made := DhwLogic(w.c, s.dhwTarget) != [] && Succeeds(w.bus, 0, DHW_TARGET);
            var dhw := if w.c.desired == 2 then 40.0 else w.c.savedDhw;
            && DhwEnforced(w, s).persisted == w.persisted +
                 Recorded(w.c, made, Settings(w.c.desired, w.c.priority, dhw, w.c.mHeating))
            && DhwEnforced(w, s).c.mDhw == (if made then dhw else w.c.mDhw)
  {
    hide Succeeds, DhwTargetSet, RawFor;
    var dhw := if w.c.desired == 2 then 40.0 else w.c.savedDhw;
    TargetRecord(w, dhw);
    TargetMemory(w, dhw);
    assert w.persisted + [] == w.persisted;
  }

  lemma HeatingRecordStep(w: World, s: Snapshot)
    ensures var made := HeatingLogic(w.c, s.heatingTarget) != [] && Succeeds(w.bus, 0, HEATING_TARGET);
            var heating := if w.c.desired == 1 then 25.0 else w.c.savedHeating;
            HeatingEnforced(w, s).persisted == w.persisted +
              Recorded(w.c, made, Settings(w.c.desired, w.c.priority, w.c.mDhw, heating))
  {
    hide Succeeds, HeatingTargetSet, RawFor;
    TargetRecord(w, if w.c.desired == 1 then 25.0 else w.c.savedHeating);
    assert w.persisted + [] == w.persisted;
  }

  lemma SucceedsAfter(bus: Bus, next: Bus, n: nat, address: word)
    requires next.regs.Keys == bus.regs.Keys && next.outcomes == Later(bus, n).outcomes
    ensures Succeeds(next, 0, address) == Succeeds(bus, n, address)
  {
    LaterOutcome(bus, n, 0);
    assert OutcomeAt(next, 0) == OutcomeAt(Later(bus, n), 0);
  }

  // ---- Fault-free cycles ----

  /** Registers after a list of writes that all succeed. */
  function Updated(regs: map<word, word>, requests: seq<Request>): map<word, word> {
    if requests == [] then regs
    else
      var last := requests[|requests| - 1];
      Updated(regs, requests[..|requests| - 1])[last.address := last.value]
  }

  lemma {:induction false} AllUpdated(bus: Bus, requests: seq<Request>)
    requires bus.outcomes == [] && forall i :: 0 <= i < |requests| ==> requests[i].address in bus.regs
    ensures var v := AllWritten(bus, requests);
            v.regs == Updated(bus.regs, requests) && v.outcomes == []
    decreases |requests|
  {
    if requests != [] {
      var n := |requests| - 1;
      var front := requests[..n];
      assert requests == front + [requests[n]];
      AllUpdated(bus, front);
      AllWrittenConcat(bus, front, [requests[n]]);
      OneWritten(AllWritten(bus, front), requests[n]);
      AllWrittenRecords(bus, front);
    }
  }

  /** The value of the only request, if there is one. */
  function Sole(requests: seq<Request>, default: word): word {
    if requests == [] then default else requests[0].value
  }

  lemma UpdatedByLogic(regs: map<word, word>, c: Controller, s: Snapshot)
    requires Complete(regs)
    ensures Updated(regs, LogicRequests(c, s)) == regs[
              RUNNING_MODE := Sole(ModeLogic(c), regs[RUNNING_MODE])][
              DHW_TARGET := Sole(DhwLogic(c, s.dhwTarget), regs[DHW_TARGET])][
              HEATING_TARGET := Sole(HeatingLogic(c, s.heatingTarget), regs[HEATING_TARGET])][
              DHW_PRIORITY := Sole(PriorityLogic(c), regs[DHW_PRIORITY])]
  {
    hide Updated, RawFor;
    var a, b := ModeLogic(c), DhwLogic(c, s.dhwTarget);
    var d, e := HeatingLogic(c, s.heatingTarget), PriorityLogic(c);
    var r1 := Updated(regs, a);
    var r2 := Updated(r1, b);
    var r3 := Updated(r2, d);
    UpdatedConcat(regs, a + b + d, e);
    UpdatedConcat(regs, a + b, d);
    UpdatedConcat(regs, a, b);
    UpdatedByOne(regs, a, RUNNING_MODE);
    UpdatedByOne(r1, b, DHW_TARGET);
    UpdatedByOne(r2, d, HEATING_TARGET);
    UpdatedByOne(r3, e, DHW_PRIORITY);
  }

  /** Every register after a fault-free cycle without commands: a target found off holds exactly the
      word that belongs there, one found in line what it held; and nothing else changes. */
  lemma RegistersAfterCycle(w: World)
    requires Faultless(w)
    ensures var c, regs := StatusRead(w).c, w.bus.regs;
            Cycled(w, []).bus.regs == regs[
              RUNNING_MODE := Sole(ModeLogic(c), regs[RUNNING_MODE])][
              DHW_TARGET := Sole(DhwLogic(c, TempAt(w, DHW_TARGET)), regs[DHW_TARGET])][
              HEATING_TARGET := Sole(HeatingLogic(c, TempAt(w, HEATING_TARGET)), regs[HEATING_TARGET])][
              DHW_PRIORITY := Sole(PriorityLogic(c), regs[DHW_PRIORITY])]
  {
    hide AllWritten, Updated, LogicRequests, ModeLogic, DhwLogic, HeatingLogic, PriorityLogic;
    FaultlessStatus(w);
    var c, s := StatusRead(w).c, StatusSeen(w);
    assert Processed(w, []) == w;
    CycleWritesExactly(w, []);
    LogicAddresses(c, s, w.bus.regs);
    AllUpdated(Later(w.bus, 8), LogicRequests(c, s));
    UpdatedByLogic(w.bus.regs, c, s);
  }

  lemma LogicAddresses(c: Controller, s: Snapshot, regs: map<word, word>)
    requires Complete(regs)
    ensures forall i :: 0 <= i < |LogicRequests(c, s)| ==> LogicRequests(c, s)[i].address in regs
  {
    hide RawFor;
  }

  /** The failing temperatures of the four working modes, in numbers: heating only finds the hot water
      target above 40.5 and sets it to 40.0, hot water only the heating target above 25.5 and sets it
      to 25.0, and with both the saved targets are restored. */
  lemma FoundOffIsSet(w: World)
    requires Faultless(w)
    ensures var c, v := StatusRead(w).c, Cycled(w, []).bus.regs;
            && DHW_TARGET in v && HEATING_TARGET in v && DHW_PRIORITY in v
            && (c.desired == 2 && TempAt(w, DHW_TARGET) > 40.5 ==> v[DHW_TARGET] == 400)
            && (c.desired == 3 && Distance(TempAt(w, DHW_TARGET), c.savedDhw) > 0.5 ==> v[DHW_TARGET] == RawFor(c.savedDhw))
            && (c.desired == 1 && TempAt(w, HEATING_TARGET) > 25.5 ==> v[HEATING_TARGET] == 250)
            && (c.desired == 3 && Distance(TempAt(w, HEATING_TARGET), c.savedHeating) > 0.5 ==> v[HEATING_TARGET] == RawFor(c.savedHeating))
            && (c.priority == Heating && (c.desired == 1 || c.desired == 3) ==> v[DHW_PRIORITY] == 1)
            && (c.priority == Dhw && c.desired == 2 ==> v[DHW_PRIORITY] == 0)
  {
    hide Cycled, RawFor, TempAt;
    RegistersAfterCycle(w);
  }

  lemma {:induction false} UpdatedConcat(regs: map<word, word>, a: seq<Request>, b: seq<Request>)
    ensures Updated(regs, a + b) == Updated(Updated(regs, a), b)
    decreases |b|
  {
    if b == [] {
      assert a + b == a;
    } else {
      var n := |b| - 1;
      assert (a + b)[..|a + b| - 1] == a + b[..n];
      UpdatedConcat(regs, a, b[..n]);
    }
  }

  /** At most one write to this address. */
  lemma UpdatedByOne(regs: map<word, word>, requests: seq<Request>, address: word)
    requires address in regs && |requests| <= 1 && (requests != [] ==> requests[0].address == address)
    ensures Updated(regs, requests) == regs[address := if requests == [] then regs[address] else requests[0].value]
  {
    if requests == [] {
      assert regs[address := regs[address]] == regs;
    } else {
      assert requests[..0] == [];
      assert Updated(regs, requests[..0]) == regs;
    }
  }
}
