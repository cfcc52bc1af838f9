/** What a status read shows, what the controller remembers of it, and what is published, when
    any of the reads may fail; and that the controller's idea of the priority stays true. */
module Status {
  import opened Words
  import opened Control
  import opened Corrections
  import opened Convergence
  import opened Persistence
  import opened Response
  import opened Effects

  // ---- What is read ----

  /** The temperature in a register, if the k-th operation from now reads it. */
  function TempRead(bus: Bus, k: nat, address: word, default: real): real {
    if Succeeds(bus, k, address) then ToSigned(bus.regs[address]) as real / 10.0 else default
  }

  function ValueRead(bus: Bus, k: nat, address: word, default: int): int {
    if Succeeds(bus, k, address) then ToSigned(bus.regs[address]) else default
  }

  /** The seven reads a status cannot do without; the heating target is the eighth. */
  predicate AllCriticalRead(bus: Bus) {
    && Succeeds(bus, 0, OUTDOOR_TEMP) && Succeeds(bus, 1, LEAVING_WATER_TEMP) && Succeeds(bus, 2, DHW_TANK_TEMP)
    && Succeeds(bus, 3, RUNNING_MODE) && Succeeds(bus, 4, RUNNING_STATUS) && Succeeds(bus, 5, DHW_TARGET)
    && Succeeds(bus, 7, DHW_PRIORITY)
  }

  /** Every field of a snapshot, whatever fails: its own register if that was read, otherwise zero,
      or, for the heating target alone, the last one known. */
  lemma SnapshotFields(w: World)
    ensures var s, bus := StatusSeen(w), w.bus;
            && s.outdoorTemp == TempRead(bus, 0, OUTDOOR_TEMP, 0.0)
            && s.leavingWaterTemp == TempRead(bus, 1, LEAVING_WATER_TEMP, 0.0)
            && s.dhwTankTemp == TempRead(bus, 2, DHW_TANK_TEMP, 0.0)
            && s.runningMode == ValueRead(bus, 3, RUNNING_MODE, 0)
            && s.runningStatus == ValueRead(bus, 4, RUNNING_STATUS, 0)
            && (s.isRunning <==> Succeeds(bus, 4, RUNNING_STATUS) && bus.regs[RUNNING_STATUS] != 0)
            && s.dhwTarget == TempRead(bus, 5, DHW_TARGET, 0.0)
            && s.heatingTarget == TempRead(bus, 6, HEATING_TARGET, w.c.lastHeating)
            && (s.dhwPriority <==> Succeeds(bus, 7, DHW_PRIORITY) && bus.regs[DHW_PRIORITY] != 0)
            && (s.online <==> AllCriticalRead(bus))
            && (Online(w) <==> AllCriticalRead(bus))
  {}

  /** What the controller remembers of a status, whatever fails. The saved targets are taken from
      the device as long as no status was complete, and from the first complete one on no more. */
  lemma Remembers(w: World)
    ensures var v, bus := StatusRead(w), w.bus;
            && v.bus == Later(bus, 8) && v.persisted == w.persisted && v.published == w.published
            && v.c == w.c.(
                 mode := if 0 <= ValueRead(bus, 3, RUNNING_MODE, -1) <= 2 then ValueRead(bus, 3, RUNNING_MODE, -1) else w.c.mode,
                 lastHeating := TempRead(bus, 6, HEATING_TARGET, w.c.lastHeating),
                 savedDhw := if w.c.savedInitialized then w.c.savedDhw else TempRead(bus, 5, DHW_TARGET, w.c.savedDhw),
                 savedHeating := if w.c.savedInitialized then w.c.savedHeating else TempRead(bus, 6, HEATING_TARGET, w.c.savedHeating),
                 savedInitialized := w.c.savedInitialized || AllCriticalRead(bus))
  {}

  // ---- What is published ----

  /** A cycle publishes what it read after its commands, online or not, with the mode in force. */
  lemma PublishedIsSeen(w: World, commands: seq<Command>)
    ensures var p := Processed(w, commands);
            Cycled(w, commands).published == w.published + [StatusSeen(p).(workingMode := p.c.desired)]
  {
    CommandsPublishNothing(w, commands);
    var p := Processed(w, commands);
    AppliedPublishesNothing(StatusRead(p), StatusSeen(p));
    LogicMemory(StatusRead(p), StatusSeen(p));
  }

  /** Before the first cycle one snapshot is published if all critical reads succeeded, and none if
      not; nothing is written or recorded. */
  lemma StartedExactly(w: World)
    ensures var v := Started(w);
            && v.published == (if AllCriticalRead(w.bus) then w.published + [StatusSeen(w).(workingMode := w.c.desired)] else w.published)
            && v.bus == Later(w.bus, 8) && v.c == StatusRead(w).c && v.persisted == w.persisted
  {
    SnapshotFields(w);
  }

  // ---- A heating target that cannot be read back ----

  /** After a heating command, a cycle that does not hear the heating target goes by the commanded
      one: it corrects it only if hot water alone is wanted and it lies above 25.5. */
  lemma UnheardAfterCommand(w: World, temp: real)
    requires var p := Executed(w, SetHeatingTemp(temp));
             p.c.savedInitialized && Online(p) && !Succeeds(p.bus, 6, HEATING_TARGET)
    ensures var p := Executed(w, SetHeatingTemp(temp));
            var logic := HeatingLogic(StatusRead(p).c, StatusSeen(p).heatingTarget);
            && CycleRequests(p) == LogicRequests(StatusRead(p).c, StatusSeen(p))
            && logic == (if w.c.desired == 1 && temp > 25.5 then [Request(HEATING_TARGET, 250)] else [])
  {
    hide Executed, LogicRequests, RawFor, AllWritten;
    TargetCommand(w, temp);
    var p := Executed(w, SetHeatingTemp(temp));
    SnapshotFields(p);
    Remembers(p);
  }

  // ---- The idea of the priority ----

  /** The controller's idea of the priority is the device's: hot water first for 1, and only for 1. */
  predicate PriorityTrue(w: World) {
    DHW_PRIORITY in w.bus.regs ==> (w.bus.regs[DHW_PRIORITY] == 1 <==> w.c.priority == Dhw)
  }

  /** No write takes effect although it is reported as failed. */
  predicate Honest(outcomes: seq<Outcome>) { FailedButDone !in outcomes }

  /** Nobody else sets the priority, and a commanded one fits its register. */
  predicate Ordinary(e: Event) {
    match e
    case Cycle(commands) => forall i :: 0 <= i < |commands| ==> FitsRegister(commands[i])
    case NoConnection => true
    case Outside(address, _) => address != DHW_PRIORITY
  }

  /** The word sent is 1 only if the number is: numbers of more than 16 bits lose their upper digits. */
  predicate FitsRegister(command: Command) { command.SetPriority? && ToWord(command.value) == 1 ==> command.value == 1 }

  predicate Sane(w: World) { PriorityTrue(w) && Honest(w.bus.outcomes) }

  lemma HonestLater(bus: Bus, k: nat)
    requires Honest(bus.outcomes)
    ensures Honest(Later(bus, k).outcomes)
  {}

  /** A list of writes to other registers leaves the priority register alone. */
  lemma {:induction false} OthersWritten(bus: Bus, requests: seq<Request>)
    requires Honest(bus.outcomes) && forall i :: 0 <= i < |requests| ==> requests[i].address != DHW_PRIORITY
    ensures var v := AllWritten(bus, requests);
            && Honest(v.outcomes) && (DHW_PRIORITY in v.regs <==> DHW_PRIORITY in bus.regs)
            && (DHW_PRIORITY in bus.regs ==> v.regs[DHW_PRIORITY] == bus.regs[DHW_PRIORITY])
    decreases |requests|
  {
    if requests != [] {
      HonestLater(bus, 1);
      OthersWritten(Written(bus, requests[0].address, requests[0].value).0, requests[1..]);
    }
  }

  /** A priority write that is honest about its outcome: the register holds the word exactly if the
      write succeeded. */
  lemma PriorityWriteEffect(bus: Bus, value: word)
    requires Honest(bus.outcomes)
    ensures var v := AllWritten(bus, [Request(DHW_PRIORITY, value)]);
            && Honest(v.outcomes) && (DHW_PRIORITY in v.regs <==> DHW_PRIORITY in bus.regs)
            && (DHW_PRIORITY in bus.regs ==>
                  v.regs[DHW_PRIORITY] == if Succeeds(bus, 0, DHW_PRIORITY) then value else bus.regs[DHW_PRIORITY])
  {
    OneWritten(bus, Request(DHW_PRIORITY, value));
    HonestLater(bus, 1);
    assert OutcomeAt(bus, 0) != FailedButDone;
  }

  /** Writes to other registers, then one to the priority. */
  lemma PriorityLast(bus: Bus, front: seq<Request>, value: word)
    requires Honest(bus.outcomes) && forall i :: 0 <= i < |front| ==> front[i].address != DHW_PRIORITY
    ensures var v := AllWritten(bus, front + [Request(DHW_PRIORITY, value)]);
            && Honest(v.outcomes) && (DHW_PRIORITY in v.regs <==> DHW_PRIORITY in bus.regs)
            && (DHW_PRIORITY in bus.regs ==>
                  v.regs[DHW_PRIORITY] == if Succeeds(bus, |front|, DHW_PRIORITY) then value else bus.regs[DHW_PRIORITY])
  {
    hide Succeeds, AllWritten;
    var mid := AllWritten(bus, front);
    AllWrittenConcat(bus, front, [Request(DHW_PRIORITY, value)]);
    OthersWritten(bus, front);
    AllWrittenRecords(bus, front);
    PriorityWriteEffect(mid, value);
    SucceedsAfter(bus, mid, |front|, DHW_PRIORITY);
  }

  lemma CommandSane(w: World, command: Command)
    requires Sane(w) && FitsRegister(command)
    ensures Sane(Executed(w, command))
  {
    hide Executed, AllWritten, RawFor, Succeeds;
    CommandWritesExactly(w, command);
    var requests := CommandRequests(w, command);
    match command {
      case SetPriority(value) =>
        PriorityCommand(w, value);
        PriorityWriteEffect(w.bus, ToWord(value));
      case SetRunningMode(mode) =>
        ModeCommand(w, mode);
        if 1 <= mode <= 3 && Succeeds(w.bus, 0, RUNNING_MODE) {
          var n := |requests| - 1;
          var value := if mode == 2 then 0 else 1;
          assert requests == requests[..n] + [Request(DHW_PRIORITY, value)];
          PriorityLast(w.bus, requests[..n], value);
        } else {
          OthersWritten(w.bus, requests);
        }
      case SetDhwTemp(temp) =>
        TargetCommand(w, temp);
        OthersWritten(w.bus, requests);
      case SetHeatingTemp(temp) =>
        TargetCommand(w, temp);
        OthersWritten(w.bus, requests);
      case SetOccupancyMode(_) =>
        OtherCommand(w, command);
        OthersWritten(w.bus, requests);
      case Unknown =>
        OtherCommand(w, command);
        OthersWritten(w.bus, requests);
    }
  }

  lemma {:induction false} CommandsSane(w: World, commands: seq<Command>)
    requires Sane(w) && forall i :: 0 <= i < |commands| ==> FitsRegister(commands[i])
    ensures Sane(Processed(w, commands))
    decreases |commands|
  {
    hide Executed, Sane, FitsRegister;
    if commands != [] {
      CommandSane(w, commands[0]);
      CommandsSane(Executed(w, commands[0]), commands[1..]);
    }
  }

  lemma LogicSane(w: World, s: Snapshot)
    requires Sane(w)
    ensures Sane(Applied(w, s))
  {
    hide Applied, AllWritten, RawFor, Succeeds;
    LogicWritesExactly(w, s);
    LogicMemory(w, s);
    var front := ModeLogic(w.c) + DhwLogic(w.c, s.dhwTarget) + HeatingLogic(w.c, s.heatingTarget);
    var last := PriorityLogic(w.c);
    if last == [] {
      assert front + last == front;
      OthersWritten(w.bus, front);
    } else {
      PriorityLast(w.bus, front, last[0].value);
    }
  }

  lemma RegulatedSane(w: World)
    requires Sane(w)
    ensures Sane(Regulated(w))
  {
    hide Applied;
    HonestLater(w.bus, 8);
    Remembers(w);
    if Online(w) { LogicSane(StatusRead(w), StatusSeen(w)); }
  }

  /** In every run of commands, corrections and honest failures: the controller, which never reads the
      priority back, is right about it. */
  lemma {:induction false} PriorityStaysTrue(w: World, events: seq<Event>)
    requires Sane(w) && forall i :: 0 <= i < |events| ==> Ordinary(events[i])
    ensures PriorityTrue(Run(w, events))
    decreases |events|
  {
    if events != [] {
      hide Processed, Regulated;
      var e := events[0];
      if e.Cycle? {
        CommandsSane(w, e.commands);
        RegulatedSane(Processed(w, e.commands));
      }
      PriorityStaysTrue(Happened(w, e), events[1..]);
    }
  }
}
