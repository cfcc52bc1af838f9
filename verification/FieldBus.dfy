/** The link layer delivers what the control layer assumes.

    Module `Control` lets every register access succeed, fail, or fail although it took
    effect. Here each access through a client, over any scripted line to any conforming
    device with any detectable damage, is shown to be one of these three, as long as no
    reply to an earlier access can be taken for the answer to a later one; and the cycles
    of `Control` are shown to be sequences of such accesses. */
module FieldBus {
  import opened Wrappers
  import opened Words
  import RtuFrame
  import opened Link
  import opened RtuClient
  import opened VerifiedWrite
  import opened Device
  import Control

  function BusOf(d: Device, outcome: Control.Outcome): Control.Bus {
    Control.Bus(d.registers, [outcome], [])
  }

  /** A verified write is a write of the control layer's bus under some outcome. */
  lemma WriteIsBusWrite(kind: Kind, c: Conn, l: Line, address: word, value: word, fates: seq<Fate>)
    returns (outcome: Control.Outcome)
    requires Played(l, Transcript(kind, l.device.slave, c, address, value), fates) && !Misled(l, address, value)
    ensures var (bus, ok) := Control.Written(BusOf(l.device, outcome), address, value);
            && ok == WriteReg(kind, l.device.slave, c, address, value).1
            && bus.regs == Final(l, Transcript(kind, l.device.slave, c, address, value), fates).device.registers
    ensures Final(l, Transcript(kind, l.device.slave, c, address, value), fates).device.slave == l.device.slave
  {
    hide Transcript, WriteReg, Played, Final, Misled;
    VerifiedWriteOnDevice(kind, c, l, address, value, fates);
    var d, d' := l.device, Final(l, Transcript(kind, l.device.slave, c, address, value), fates).device;
    outcome :=
      if WriteReg(kind, l.device.slave, c, address, value).1 then Control.Done
      else if d' == d then Control.Failed else Control.FailedButDone;
  }

  /** What a single-register read returns. */
  function ReadOne(kind: Kind, slave: byte, c: Conn, address: word): Option<word> {
    var read := ReadRegs(kind, slave, c, address, 1).1;
    if read.Some? && |read.value| == 1 then Some(read.value[0]) else None
  }

  lemma ReadIsResponse(kind: Kind, slave: byte, c: Conn, address: word, frame: seq<byte>, value: word)
    requires frame == VerifyFrame(slave, address)
    requires ReadRegs(kind, slave, c, address, 1).1 == Some([value])
    ensures var net := Transmit(kind, c.net, frame).0;
            net.arrivals == Next(c.net).arrivals && ReadResponse(slave, 1, net).1 == Some([value])
  {}

  lemma ReadOneIsReply(kind: Kind, slave: byte, c: Conn, address: word)
    requires ReadOne(kind, slave, c, address).Some?
    ensures RepliedWith(slave, [ReadOne(kind, slave, c, address).value], Next(c.net).arrivals)
  {
    var frame, value := VerifyFrame(slave, address), ReadOne(kind, slave, c, address).value;
    var read := ReadRegs(kind, slave, c, address, 1).1;
    assert read.value == [value];
    ReadIsResponse(kind, slave, c, address, frame, value);
    ReadsAreReplies(slave, [value], Transmit(kind, c.net, frame).0);
  }

  /** The frames of a single-register read: none if the client is not connected. */
  function ReadTranscript(slave: byte, c: Conn, address: word): seq<Sent> {
    if c.connected then [Sent(VerifyFrame(slave, address), Next(c.net))] else []
  }

  /** No reply under way before a read can claim a value that the register does not hold. */
  ghost predicate ClaimsAreTrue(l: Line, address: word) {
    forall k: nat, v: word :: Waiting(l, k) && CanClaim(l.device.slave, v, l.replies[k]) ==> HoldsValue(l.device, address, v)
  }

  ghost predicate ReadRunsWell(kind: Kind, c: Conn, l: Line, address: word, fates: seq<Fate>) {
    Played(l, ReadTranscript(l.device.slave, c, address), fates) ==>
      var read := ReadOne(kind, l.device.slave, c, address);
      read.Some? ==> HoldsValue(l.device, address, read.value)
  }

  lemma ReadIsTrue(kind: Kind, c: Conn, l: Line, address: word, fates: seq<Fate>)
    requires ClaimsAreTrue(l, address)
    ensures ReadRunsWell(kind, c, l, address, fates)
  {
    hide RtuFrame.Encode, ReadRegs, Plausible, CanClaim, Stream;
    var read := ReadOne(kind, l.device.slave, c, address);
    if Played(l, ReadTranscript(l.device.slave, c, address), fates) && read.Some? {
      DisconnectedReadsNothing(kind, l.device.slave, c, address);
      ReadOneIsReply(kind, l.device.slave, c, address);
      ReadBackIsTrue(l, address, read.value, Sent(VerifyFrame(l.device.slave, address), Next(c.net)), fates[0]);
    }
  }

  lemma DisconnectedReadsNothing(kind: Kind, slave: byte, c: Conn, address: word)
    ensures !c.connected ==> ReadOne(kind, slave, c, address) == None
  {}

  /** The exact condition for reads: every read on this line returns what the register holds, or
      fails, if and only if no reply under way before can claim anything else. */
  lemma ReadRunsWellExactly(l: Line, address: word)
    ensures (forall kind, c, fates :: ReadRunsWell(kind, c, l, address, fates)) <==> ClaimsAreTrue(l, address)
  {
    hide ReadRunsWell;
    if ClaimsAreTrue(l, address) {
      forall kind, c, fates ensures ReadRunsWell(kind, c, l, address, fates) {
        ReadIsTrue(kind, c, l, address, fates);
      }
    } else {
      var k: nat, v: word :| Waiting(l, k) && CanClaim(l.device.slave, v, l.replies[k]) && !HoldsValue(l.device, address, v);
      var c, fates := FalseClaimIsRead(l, address, k, v);
    }
  }

  lemma FalseClaimIsRead(l: Line, address: word, k: nat, v: word) returns (c: Conn, fates: seq<Fate>)
    requires Waiting(l, k) && CanClaim(l.device.slave, v, l.replies[k]) && !HoldsValue(l.device, address, v)
    ensures !ReadRunsWell(Tcp, c, l, address, fates)
  {
    hide Detectable, Claims, RtuFrame.Encode, ReadResponse, RepliedWith;
    var slave := l.device.slave;
    var e, m, s :| ComesOut(l.replies[k], e, m, s) && Claims(slave, v, s);
    var only := Exchange([8], [Chunk(s)]);
    c := Conn(true, Net([only], [], [], []));
    fates := [Fate(None, None, Some(k), e, m)];
    var sent := Sent(VerifyFrame(slave, address), only);
    StreamOfChunk(s);
    ClaimReplies(slave, v, s);
    var net := Transmit(Tcp, c.net, sent.frame).0;
    RepliesAreRead(slave, [v], net);
    assert ReadOne(Tcp, slave, c, address) == Some(v);
    assert [sent][1..] == [];
    assert Plausible(l, sent, fates[0]);
    assert Played(After(l, sent, fates[0]), [], fates[1..]);
  }

  /** A single-register read is a read of the control layer's bus under some outcome: its request
      leaves the device as it is, and what it returns is what the register holds. */
  lemma ReadIsBusRead(kind: Kind, c: Conn, l: Line, address: word, fates: seq<Fate>)
    returns (outcome: Control.Outcome)
    requires Played(l, ReadTranscript(l.device.slave, c, address), fates) && ClaimsAreTrue(l, address)
    ensures ReadRegs(kind, l.device.slave, c, address, 1).0.net.log == c.net.log + ReadTranscript(l.device.slave, c, address)
    ensures Final(l, ReadTranscript(l.device.slave, c, address), fates).device == l.device
    ensures var read := ReadOne(kind, l.device.slave, c, address);
            Control.Heard(BusOf(l.device, outcome), 0, address) == if read.Some? then Some(Control.ToSigned(read.value)) else None
  {
    hide ReadOne, RtuFrame.Encode, Plausible, ClaimsAreTrue;
    ReadLog(kind, l.device.slave, c, address);
    ReadIsTrue(kind, c, l, address, fates);
    outcome := if ReadOne(kind, l.device.slave, c, address).Some? then Control.Done else Control.Failed;
    if c.connected {
      UnchangedByVerify(l, address, Sent(VerifyFrame(l.device.slave, address), Next(c.net)), fates);
    }
  }

  lemma UnchangedByVerify(l: Line, address: word, s: Sent, fates: seq<Fate>)
    requires Played(l, [s], fates) && s.frame == VerifyFrame(l.device.slave, address)
    ensures Final(l, [s], fates).device == l.device
  {
    VerifyEffect(l, address, s, fates[0]);
    assert [s][1..] == [];
    assert Final(After(l, s, fates[0]), [], fates[1..]) == After(l, s, fates[0]);
  }

  // ---- Sequences of accesses ----

  /** What the control layer asks of its client; `Reconnect` is a connect call that succeeds. */
  datatype Access = Read(address: word) | Write(address: word, value: word) | Reconnect

  datatype Answer = Value(raw: Option<int>) | Written(ok: bool) | Connected

  function ClientStep(kind: Kind, slave: byte, c: Conn, a: Access): (Conn, Answer) {
    match a
    case Read(address) =>
      var read := ReadOne(kind, slave, c, address);
      (ReadRegs(kind, slave, c, address, 1).0, Value(if read.Some? then Some(Control.ToSigned(read.value)) else None))
    case Write(address, value) =>
      var (c', ok) := WriteReg(kind, slave, c, address, value);
      (c', Written(ok))
    case Reconnect => (c.(connected := true), Connected)
  }

  function ClientAnswers(kind: Kind, slave: byte, c: Conn, accesses: seq<Access>): seq<Answer>
    decreases |accesses|
  {
    if accesses == [] then []
    else
      var (c', answer) := ClientStep(kind, slave, c, accesses[0]);
      [answer] + ClientAnswers(kind, slave, c', accesses[1..])
  }

  ghost function StepTranscript(kind: Kind, slave: byte, c: Conn, a: Access): seq<Sent> {
    match a
    case Read(address) => ReadTranscript(slave, c, address)
    case Write(address, value) => Transcript(kind, slave, c, address, value)
    case Reconnect => []
  }

  ghost function WholeTranscript(kind: Kind, slave: byte, c: Conn, accesses: seq<Access>): seq<Sent>
    decreases |accesses|
  {
    if accesses == [] then []
    else
      StepTranscript(kind, slave, c, accesses[0]) +
      WholeTranscript(kind, slave, ClientStep(kind, slave, c, accesses[0]).0, accesses[1..])
  }

  function BusStep(bus: Control.Bus, a: Access): (Control.Bus, Answer) {
    match a
    case Read(address) => (Control.Later(bus, 1), Value(Control.Heard(bus, 0, address)))
    case Write(address, value) =>
      var (bus', ok) := Control.Written(bus, address, value);
      (bus', Written(ok))
    case Reconnect => (bus, Connected)
  }

  function BusRun(bus: Control.Bus, accesses: seq<Access>): (Control.Bus, seq<Answer>)
    decreases |accesses|
  {
    if accesses == [] then (bus, [])
    else
      var (bus1, answer) := BusStep(bus, accesses[0]);
      var (bus2, answers) := BusRun(bus1, accesses[1..]);
      (bus2, [answer] + answers)
  }

  function Recorded(writes: seq<Control.WriteRecord>, a: Access, answer: Answer): seq<Control.WriteRecord> {
    if a.Write? && answer.Written? then writes + [Control.WriteRecord(a.address, a.value, answer.ok)] else writes
  }

  /** No reply to an earlier access can be taken for an answer to this one. */
  ghost predicate Trusted(l: Line, a: Access) {
    match a
    case Read(address) => ClaimsAreTrue(l, address)
    case Write(address, value) => !Misled(l, address, value)
    case Reconnect => true
  }

  ghost predicate AllTrusted(kind: Kind, c: Conn, l: Line, accesses: seq<Access>, fates: seq<Fate>)
    requires Played(l, WholeTranscript(kind, l.device.slave, c, accesses), fates)
    decreases |accesses|
  {
    accesses == [] ||
    (Trusted(l, accesses[0]) &&
     var first := StepTranscript(kind, l.device.slave, c, accesses[0]);
     var c' := ClientStep(kind, l.device.slave, c, accesses[0]).0;
     PlayedConcat(l, first, WholeTranscript(kind, l.device.slave, c', accesses[1..]), fates);
     SameSlave(l, first, fates[..|first|]);
     AllTrusted(kind, c', Final(l, first, fates[..|first|]), accesses[1..], fates[|first|..]))
  }

  lemma {:induction false} SameSlave(l: Line, sent: seq<Sent>, fates: seq<Fate>)
    requires Played(l, sent, fates)
    ensures Final(l, sent, fates).device.slave == l.device.slave
    decreases |sent|
  {
    if sent != [] {
      SameSlave(After(l, sent[0], fates[0]), sent[1..], fates[1..]);
    }
  }

  lemma StepIsBusStep(kind: Kind, c: Conn, l: Line, a: Access, fates: seq<Fate>, rest: seq<Control.Outcome>,
                      writes: seq<Control.WriteRecord>)
    returns (outcomes: seq<Control.Outcome>)
    requires Played(l, StepTranscript(kind, l.device.slave, c, a), fates) && Trusted(l, a)
    ensures var answer := ClientStep(kind, l.device.slave, c, a).1;
            BusStep(Control.Bus(l.device.registers, outcomes, writes), a) ==
            (Control.Bus(Final(l, StepTranscript(kind, l.device.slave, c, a), fates).device.registers, rest,
                         Recorded(writes, a, answer)), answer)
  {
    hide ReadRegs, WriteReg, Transcript, Played, ReadTranscript, ClaimsAreTrue, Misled;
    match a {
      case Read(address) =>
        var outcome := ReadIsBusRead(kind, c, l, address, fates);
        outcomes := [outcome] + rest;
        assert outcomes[1..] == rest;
      case Write(address, value) =>
        var outcome := WriteIsBusWrite(kind, c, l, address, value, fates);
        outcomes := [outcome] + rest;
        assert outcomes[1..] == rest;
      case Reconnect =>
        outcomes := rest;
        NothingPlayed(l, fates);
    }
  }

  lemma NothingPlayed(l: Line, fates: seq<Fate>)
    requires Played(l, [], fates)
    ensures Final(l, [], fates) == l
  {}

  /** The stack as a whole: for every sequence of accesses by one client over one line to one
      device, some script of outcomes makes the control layer's bus give the same answers and end
      with the same registers. The answers agree one by one, so a caller that chooses its next
      access by the answers so far makes the same accesses on both sides. */
  lemma {:induction false} StackIsBus(kind: Kind, c: Conn, l: Line, accesses: seq<Access>, fates: seq<Fate>,
                                      writes: seq<Control.WriteRecord>)
    returns (outcomes: seq<Control.Outcome>)
    requires Played(l, WholeTranscript(kind, l.device.slave, c, accesses), fates)
    requires AllTrusted(kind, c, l, accesses, fates)
    ensures var (bus, answers) := BusRun(Control.Bus(l.device.registers, outcomes, writes), accesses);
            && answers == ClientAnswers(kind, l.device.slave, c, accesses)
            && bus.regs == Final(l, WholeTranscript(kind, l.device.slave, c, accesses), fates).device.registers
    decreases |accesses|
  {
    outcomes := [];
    if accesses != [] {
      hide StepTranscript, ClientStep, BusStep, Recorded, Trusted, Plausible;
      var a, later := accesses[0], accesses[1..];
      var first := StepTranscript(kind, l.device.slave, c, a);
      var (c', answer) := ClientStep(kind, l.device.slave, c, a);
      PlayedConcat(l, first, WholeTranscript(kind, l.device.slave, c', later), fates);
      var l' := Final(l, first, fates[..|first|]);
      SameSlave(l, first, fates[..|first|]);
      var rest := StackIsBus(kind, c', l', later, fates[|first|..], Recorded(writes, a, answer));
      outcomes := StepIsBusStep(kind, c, l, a, fates[..|first|], rest, writes);
    } else {
      NothingPlayed(l, fates);
    }
  }

  // ---- The cycles of the control layer ----

  lemma {:induction false} BusRunConcat(bus: Control.Bus, a: seq<Access>, b: seq<Access>)
    ensures BusRun(bus, a + b).0 == BusRun(BusRun(bus, a).0, b).0
    ensures BusRun(bus, a + b).1 == BusRun(bus, a).1 + BusRun(BusRun(bus, a).0, b).1
    decreases |a|
  {
    hide BusStep;
    if a == [] {
      assert a + b == b;
    } else {
      assert (a + b)[1..] == a[1..] + b;
      BusRunConcat(BusStep(bus, a[0]).0, a[1..], b);
    }
  }

  lemma BusRunOne(bus: Control.Bus, a: Access)
    ensures BusRun(bus, [a]) == (BusStep(bus, a).0, [BusStep(bus, a).1])
  {
    hide BusStep;
    assert [a][1..] == [];
    assert BusRun(BusStep(bus, a).0, []) == (BusStep(bus, a).0, []);
    assert [BusStep(bus, a).1] + [] == [BusStep(bus, a).1];
  }

  /** The reads of a status, in the order of the source. */
  const STATUS_READS: seq<word> :=
    [Control.OUTDOOR_TEMP, Control.LEAVING_WATER_TEMP, Control.DHW_TANK_TEMP, Control.RUNNING_MODE,
     Control.RUNNING_STATUS, Control.DHW_TARGET, Control.HEATING_TARGET, Control.DHW_PRIORITY]

  function Reads(addresses: seq<word>): seq<Access> {
    if addresses == [] then [] else Reads(addresses[..|addresses| - 1]) + [Read(addresses[|addresses| - 1])]
  }

  lemma {:induction false} ReadsRun(bus: Control.Bus, addresses: seq<word>)
    ensures |Reads(addresses)| == |addresses|
    ensures BusRun(bus, Reads(addresses)).0 == Control.Later(bus, |addresses|)
    ensures BusRun(bus, Reads(addresses)).1 == seq(|addresses|, i requires 0 <= i < |addresses| => Value(Control.Heard(bus, i, addresses[i])))
    decreases |addresses|
  {
    if addresses != [] {
      var n := |addresses| - 1;
      var front, last := addresses[..n], addresses[n];
      ReadsRun(bus, front);
      BusRunConcat(bus, Reads(front), [Read(last)]);
      BusRunOne(Control.Later(bus, n), Read(last));
      Control.LaterNext(bus, n, last);
    } else {
      assert bus.outcomes[0..] == bus.outcomes;
    }
  }

  /** One write, or none. */
  function WriteIf(needed: bool, address: word, value: word): seq<Access> {
    if needed then [Write(address, value)] else []
  }

  lemma WriteIfRuns(bus: Control.Bus, needed: bool, address: word, value: word)
    ensures BusRun(bus, WriteIf(needed, address, value)).0 == if needed then Control.Written(bus, address, value).0 else bus
  {
    if needed { BusRunOne(bus, Write(address, value)); }
  }

  function TargetWrite(address: word, temp: real): Access {
    Write(address, Control.ToWord(Control.TempToRaw(temp)))
  }

  lemma RetargetedAccesses(w: Control.World, mode: int) returns (accesses: seq<Access>)
    ensures BusRun(w.bus, accesses).0 == Control.Retargeted(w, mode).bus
  {
    accesses := [];
    var priority := Write(Control.DHW_PRIORITY, if mode == 2 then 0 else 1);
    if mode == 1 {
      var target := TargetWrite(Control.HEATING_TARGET, Control.HEATING_TARGET_MIN);
      accesses := [target] + [priority];
      TwoAccesses(w.bus, target, priority);
    } else if mode == 2 {
      var target := TargetWrite(Control.DHW_TARGET, Control.DHW_TARGET_MIN);
      accesses := [target] + [priority];
      TwoAccesses(w.bus, target, priority);
    } else if mode == 3 {
      var dhw := TargetWrite(Control.DHW_TARGET, w.c.savedDhw);
      var heating := TargetWrite(Control.HEATING_TARGET, w.c.savedHeating);
      accesses := [dhw] + ([heating] + [priority]);
      BusRunOne(w.bus, dhw);
      BusRunConcat(w.bus, [dhw], [heating] + [priority]);
      TwoAccesses(BusStep(w.bus, dhw).0, heating, priority);
      assert Control.DhwTargetSet(w, w.c.savedDhw).c.savedHeating == w.c.savedHeating;
    }
  }

  lemma TwoAccesses(bus: Control.Bus, a: Access, b: Access)
    ensures BusRun(bus, [a] + [b]).0 == BusStep(BusStep(bus, a).0, b).0
  {
    BusRunOne(bus, a);
    BusRunOne(BusStep(bus, a).0, b);
    BusRunConcat(bus, [a], [b]);
  }

  lemma ModeAccesses(w: Control.World, mode: int) returns (accesses: seq<Access>)
    ensures BusRun(w.bus, accesses).0 == Control.ModeSwitched(w, mode).bus
  {
    hide Control.Retargeted;
    var device := Control.DeviceMode(mode);
    var w1 := Control.Fired(w.(c := w.c.(desired := mode)));
    var (w2, ok) := Control.RunningModeSet(w1, device);
    var first := Write(Control.RUNNING_MODE, device);
    BusRunOne(w.bus, first);
    accesses := [first];
    if ok {
      var more := RetargetedAccesses(w2.(c := w2.c.(mode := device)), mode);
      BusRunConcat(w.bus, [first], more);
      accesses := [first] + more;
    }
  }

  lemma CommandAccesses(w: Control.World, command: Control.Command) returns (accesses: seq<Access>)
    ensures BusRun(w.bus, accesses).0 == Control.Executed(w, command).bus
  {
    hide Control.ModeSwitched;
    match command
    case SetDhwTemp(temp) => accesses := OneWrite(w.bus, Control.DHW_TARGET, Control.ToWord(Control.TempToRaw(temp)));
    case SetHeatingTemp(temp) => accesses := OneWrite(w.bus, Control.HEATING_TARGET, Control.ToWord(Control.TempToRaw(temp)));
    case SetPriority(value) => accesses := OneWrite(w.bus, Control.DHW_PRIORITY, Control.ToWord(value));
    case SetOccupancyMode(value) => accesses := OneWrite(w.bus, Control.OCCUPANCY_MODE, Control.ToWord(value));
    case SetRunningMode(mode) => accesses := ModeAccesses(w, mode);
    case Unknown => accesses := [];
  }

  lemma OneWrite(bus: Control.Bus, address: word, value: word) returns (accesses: seq<Access>)
    ensures BusRun(bus, accesses).0 == Control.Written(bus, address, value).0
  {
    accesses := [Write(address, value)];
    BusRunOne(bus, accesses[0]);
  }

  lemma {:induction false} CommandsAccesses(w: Control.World, commands: seq<Control.Command>) returns (accesses: seq<Access>)
    ensures BusRun(w.bus, accesses).0 == Control.Processed(w, commands).bus
    decreases |commands|
  {
    accesses := [];
    if commands != [] {
      hide Control.Executed;
      var first := CommandAccesses(w, commands[0]);
      var more := CommandsAccesses(Control.Executed(w, commands[0]), commands[1..]);
      BusRunConcat(w.bus, first, more);
      accesses := first + more;
    }
  }

  lemma ModeCorrection(w: Control.World) returns (accesses: seq<Access>)
    ensures BusRun(w.bus, accesses).0 == Control.ModeCorrected(w).bus
  {
    var target := Control.DeviceMode(w.c.desired);
    accesses := WriteIf(w.c.mode != target, Control.RUNNING_MODE, target);
    WriteIfRuns(w.bus, w.c.mode != target, Control.RUNNING_MODE, target);
  }

  lemma DhwCorrection(w: Control.World, s: Control.Snapshot) returns (accesses: seq<Access>)
    ensures BusRun(w.bus, accesses).0 == Control.DhwEnforced(w, s).bus
  {
    var temp := if w.c.desired == 2 then Control.DHW_TARGET_MIN else w.c.savedDhw;
    var raw := Control.ToWord(Control.TempToRaw(temp));
    accesses := WriteIf(Control.DhwOff(w.c, s.dhwTarget), Control.DHW_TARGET, raw);
    WriteIfRuns(w.bus, Control.DhwOff(w.c, s.dhwTarget), Control.DHW_TARGET, raw);
  }

  lemma HeatingCorrection(w: Control.World, s: Control.Snapshot) returns (accesses: seq<Access>)
    ensures BusRun(w.bus, accesses).0 == Control.HeatingEnforced(w, s).bus
  {
    var temp := if w.c.desired == 1 then Control.HEATING_TARGET_MIN else w.c.savedHeating;
    var raw := Control.ToWord(Control.TempToRaw(temp));
    accesses := WriteIf(Control.HeatingOff(w.c, s.heatingTarget), Control.HEATING_TARGET, raw);
    WriteIfRuns(w.bus, Control.HeatingOff(w.c, s.heatingTarget), Control.HEATING_TARGET, raw);
  }

  lemma PriorityCorrection(w: Control.World) returns (accesses: seq<Access>)
    ensures BusRun(w.bus, accesses).0 == Control.PriorityEnforced(w).bus
  {
    var value := if w.c.desired == 2 then 0 else 1;
    accesses := WriteIf(Control.PriorityOff(w.c), Control.DHW_PRIORITY, value);
    WriteIfRuns(w.bus, Control.PriorityOff(w.c), Control.DHW_PRIORITY, value);
  }

  /** The four corrections of the control logic, each made or not. */
  lemma LogicAccesses(w: Control.World, s: Control.Snapshot) returns (accesses: seq<Access>)
    ensures BusRun(w.bus, accesses).0 == Control.Applied(w, s).bus
  {
    hide BusRun, Control.ModeCorrected, Control.DhwEnforced, Control.HeatingEnforced, Control.PriorityEnforced;
    var w1 := Control.ModeCorrected(w);
    var w2 := Control.DhwEnforced(w1, s);
    var w3 := Control.HeatingEnforced(w2, s);
    var mode := ModeCorrection(w);
    var dhw := DhwCorrection(w1, s);
    var heating := HeatingCorrection(w2, s);
    var priority := PriorityCorrection(w3);
    BusRunConcat(w.bus, mode, dhw);
    BusRunConcat(w.bus, mode + dhw, heating);
    BusRunConcat(w.bus, mode + dhw + heating, priority);
    accesses := mode + dhw + heating + priority;
  }

  /** A whole cycle is a sequence of accesses: those of its commands, the eight reads of the status,
      whose answers are the raw values the cycle goes by, and those of the control logic. */
  lemma CycleIsBusRun(w: Control.World, commands: seq<Control.Command>)
    returns (before: seq<Access>, after: seq<Access>)
    ensures var w1 := Control.Processed(w, commands);
            && BusRun(w.bus, before).0 == w1.bus
            && BusRun(w1.bus, Reads(STATUS_READS)).1 == RawAnswers(Control.RawsOf(w1.bus))
            && BusRun(w.bus, before + Reads(STATUS_READS) + after).0 == Control.Cycled(w, commands).bus
  {
    hide Control.Processed, Control.Applied;
    before := CommandsAccesses(w, commands);
    var w1 := Control.Processed(w, commands);
    ReadsRun(w1.bus, STATUS_READS);
    BusRunConcat(w.bus, before, Reads(STATUS_READS));
    var w2 := Control.StatusRead(w1);
    after := [];
    if Control.Online(w1) {
      after := LogicAccesses(w2, Control.StatusSeen(w1));
    }
    BusRunConcat(w.bus, before + Reads(STATUS_READS), after);
  }

  function RawAnswers(r: Control.Raws): seq<Answer> {
    [Value(r.outdoor), Value(r.leaving), Value(r.tank), Value(r.mode),
     Value(r.running), Value(r.dhw), Value(r.heating), Value(r.priority)]
  }
}
