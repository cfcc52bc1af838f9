/** One fault-free cycle without commands brings the device into line, and from then on
    such cycles write nothing at all. */
module Convergence {
  import opened Words
  import opened Control
  import opened Corrections

  /** Nothing fails from here on, and the device has every register the controller uses. */
  predicate Faultless(w: World) {
    w.bus.outcomes == [] && Complete(w.bus.regs)
  }

  function RawAt(w: World, address: word): int
    requires address in w.bus.regs
  {
    ToSigned(w.bus.regs[address])
  }

  predicate DeviceModeKnown(w: World)
    requires RUNNING_MODE in w.bus.regs
  {
    0 <= RawAt(w, RUNNING_MODE) <= 2
  }

  /** The targets are where the working mode wants them, within the tolerance of half a degree. */
  predicate TargetsInLine(w: World)
    requires Complete(w.bus.regs)
  {
    var dhw, heating := TempAt(w, DHW_TARGET), TempAt(w, HEATING_TARGET);
    && (w.c.desired == 1 ==> heating <= 25.5)
    && (w.c.desired == 2 ==> dhw <= 40.5)
    && (w.c.desired == 3 ==> Distance(dhw, w.c.savedDhw) <= 0.5 && Distance(heating, w.c.savedHeating) <= 0.5)
  }

  /** The next fault-free cycle will find nothing to correct. */
  predicate Quiet(w: World)
    requires Complete(w.bus.regs)
  {
    && w.c.savedInitialized
    && (if DeviceModeKnown(w) then RawAt(w, RUNNING_MODE) == DeviceMode(w.c.desired) else w.c.mode == DeviceMode(w.c.desired))
    && TargetsInLine(w)
    && !PriorityOff(w.c)
  }

  lemma FaultlessStatus(w: World)
    requires Faultless(w)
    ensures Online(w) && RawsOf(w.bus).heating.Some?
    ensures StatusSeen(w).dhwTarget == TempAt(w, DHW_TARGET) && StatusSeen(w).heatingTarget == TempAt(w, HEATING_TARGET)
    ensures var v := StatusRead(w);
            v.bus == w.bus && v.c.savedInitialized && v.c.desired == w.c.desired && v.c.priority == w.c.priority &&
            v.c.mode == (if DeviceModeKnown(w) then RawAt(w, RUNNING_MODE) else w.c.mode) &&
            (w.c.savedInitialized ==> v.c.savedDhw == w.c.savedDhw && v.c.savedHeating == w.c.savedHeating)
  {}

  /** What one stage does when nothing fails. */
  ghost predicate Stage(w: World, v: World, address: word) {
    v.bus.outcomes == [] && SameElsewhere(w, v, address)
  }

  lemma ModeStageConverges(w: World)
    requires Faultless(w)
    ensures var v := ModeCorrected(w);
            && Stage(w, v, RUNNING_MODE) && v.c.mode == DeviceMode(w.c.desired)
            && v.bus.regs[RUNNING_MODE] == (if w.c.mode == DeviceMode(w.c.desired) then w.bus.regs[RUNNING_MODE] else DeviceMode(w.c.desired))
  {}

  lemma DhwStageConverges(w: World, s: Snapshot)
    requires Faultless(w) && Representable(w.c.savedDhw) && s.dhwTarget == TempAt(w, DHW_TARGET)
    ensures var v := DhwEnforced(w, s);
            Stage(w, v, DHW_TARGET) && !DhwOff(v.c, TempAt(v, DHW_TARGET))
  {
    TempRoundTrip(DHW_TARGET_MIN);
    TempRoundTrip(w.c.savedDhw);
  }

  lemma HeatingStageConverges(w: World, s: Snapshot)
    requires Faultless(w) && Representable(w.c.savedHeating) && s.heatingTarget == TempAt(w, HEATING_TARGET)
    ensures var v := HeatingEnforced(w, s);
            Stage(w, v, HEATING_TARGET) && !HeatingOff(v.c, TempAt(v, HEATING_TARGET))
  {
    TempRoundTrip(HEATING_TARGET_MIN);
    TempRoundTrip(w.c.savedHeating);
  }

  lemma PriorityStageConverges(w: World)
    requires Faultless(w)
    ensures var v := PriorityEnforced(w);
            && Stage(w, v, DHW_PRIORITY) && !PriorityOff(v.c)
            && v.bus.regs[DHW_PRIORITY] ==
               (if PriorityOff(w.c) then (if w.c.desired == 2 then 0 else 1) else w.bus.regs[DHW_PRIORITY])
  {}

  /** Convergence, from any controller state whose saved targets fit a register: one cycle later
      the targets are in line and nothing is left to do. The mode register is right afterwards if
      and only if the device reported a known mode or the controller's idea of it was wrong; the
      priority register, which is never read back into the controller, if and only if the
      controller's idea of it was wrong or the register was right already. */
  lemma CycleConverges(w: World)
    requires Faultless(w) && InRange(w.c)
    ensures var v := Cycled(w, []);
            && Faultless(v) && InRange(v.c) && v.c.desired == w.c.desired
            && TargetsInLine(v) && Quiet(v)
            && (v.bus.regs[RUNNING_MODE] == DeviceMode(w.c.desired) <==>
                  DeviceModeKnown(w) || w.c.mode != DeviceMode(w.c.desired))
            && (1 <= w.c.desired <= 3 ==>
                  var priority := if w.c.desired == 2 then 0 else 1;
                  (v.bus.regs[DHW_PRIORITY] == priority <==> PriorityOff(w.c) || w.bus.regs[DHW_PRIORITY] == priority))
  {
    FaultlessStatus(w);
    InRangeKept(w);
    var w0, s := StatusRead(w), StatusSeen(w);
    var w1 := ModeCorrected(w0);
    var w2 := DhwEnforced(w1, s);
    var w3 := HeatingEnforced(w2, s);
    ModeStageConverges(w0);
    DhwStageConverges(w1, s);
    HeatingStageConverges(w2, s);
    PriorityStageConverges(w3);
    assert Cycled(w, []) == Regulated(w);
  }

  /** A device mode outside 0..2 stays when the controller believes in the right one already. */
  lemma UnknownModeStays(w: World)
    requires Faultless(w) && InRange(w.c) && w.c.desired == 3 && w.c.mode == MODE_HEAT_DHW
    requires w.bus.regs[RUNNING_MODE] == 3
    ensures var v := Cycled(w, []); Faultless(v) && v.bus.regs[RUNNING_MODE] != DeviceMode(v.c.desired)
  {
    CycleConverges(w);
  }

  /** A priority register changed behind the controller's back stays wrong. */
  lemma WrongPriorityStays(w: World)
    requires Faultless(w) && InRange(w.c) && w.c.desired == 1 && w.c.priority == Dhw
    requires w.bus.regs[DHW_PRIORITY] == 0
    ensures var v := Cycled(w, []); Faultless(v) && v.bus.regs[DHW_PRIORITY] == 0
  {
    CycleConverges(w);
  }

  /** In a quiet state a fault-free cycle changes neither the device nor the record of writes. */
  lemma QuietStays(w: World)
    requires Faultless(w) && Quiet(w)
    ensures var v := Cycled(w, []);
            v.bus == w.bus && Quiet(v)
  {
    FaultlessStatus(w);
    var w0, s := StatusRead(w), StatusSeen(w);
    assert ModeCorrected(w0) == w0 && DhwEnforced(w0, s) == w0 && HeatingEnforced(w0, s) == w0 && PriorityEnforced(w0) == w0;
    assert Cycled(w, []) == Regulated(w);
  }

  function Cycles(n: nat): seq<Event> {
    if n == 0 then [] else [Cycle([])] + Cycles(n - 1)
  }

  lemma {:induction false} QuietForever(w: World, n: nat)
    requires Faultless(w) && Quiet(w)
    ensures Run(w, Cycles(n)).bus == w.bus
    decreases n
  {
    if n > 0 {
      QuietStays(w);
      assert Cycles(n)[1..] == Cycles(n - 1);
      QuietForever(Cycled(w, []), n - 1);
    }
  }

  /** After the first fault-free cycle, however many more follow, nothing is ever written again. */
  lemma Quiescence(w: World, n: nat)
    requires Faultless(w) && InRange(w.c)
    ensures Run(w, Cycles(n + 1)).bus == Cycled(w, []).bus
  {
    CycleConverges(w);
    assert Cycles(n + 1)[1..] == Cycles(n);
    QuietForever(Cycled(w, []), n);
  }
}
