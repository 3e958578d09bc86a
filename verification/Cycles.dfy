/**
 * One telemetry cycle: four messages, each built from its own readings of a
 * clock that runs on, and when they agree with each other.
 */
module Cycles {
  import opened Words
  import opened Config
  import opened Protocol
  import opened History
  import opened Plant
  import Faults
  import Runs
  import Rules

  datatype Cycle = Cycle(driveL: Telemetry, driveR: Telemetry, power: Telemetry, state: Telemetry)

  predicate WellFormed(c: Cycle) {
    c.driveL.DriveL? && c.driveR.DriveR? && c.power.Power? && c.state.State?
  }

  /** The history one turn of the loop saw, and the time of every clock reading it took. */
  datatype Readings = Readings(
    trace: seq<Rx>, outputs: nat, stop: nat, due: nat, age: nat, fault: nat, faultC2: nat,
    jetson: nat, degraded: nat, c2: nat, light: nat)

  predicate InTime(r: Readings) {
    r.outputs <= r.stop <= r.due <= r.age <= r.fault <= r.faultC2 <= r.jetson <= r.degraded <= r.c2 <= r.light
  }

  function At(r: Readings, t: nat): Link {
    WrappedLink(Accepts(r.trace), t)
  }

  predicate TimedOut(r: Readings, t: nat, timeout: u32) {
    Tripped(At(r, t), timeout)
  }

  /** Every message says what the controller knew at that message's own readings. */
  ghost predicate Tells(c: Cycle, r: Readings, timeout: u32) {
    && WellFormed(c)
    && c.driveR.cmdAgeMs == CmdAge(At(r, r.age))
    && FaultsOf(r.trace, timeout, Faults.Word(c.power.faultStatus), 0, r.fault, r.faultC2)
    && c.power.currentCa
       == (if MayMove(At(r, r.stop), timeout) then CurrentOf(Outputs(At(r, r.outputs), timeout).0) else 0)
    && c.power.voltageCv == VoltageOf(Outputs(At(r, r.outputs), timeout).0)
    && c.state == State(ModeOf(At(r, r.jetson)),
                        JetsonState(At(r, r.jetson), timeout, WrappedDegraded(r.trace, r.degraded)),
                        C2State(At(r, r.c2), timeout), CTRL_HEALTH_NOT_REPORTED, Indicator(At(r, r.light), timeout), 0)
  }

  /**
   * The messages of a cycle, on the frames the controller had received: health
   * and reserved byte constant, the mode the last accepted frame asked for, and
   * each report at its own reading.
   */
  lemma CycleOnFrames(c: Cycle, r: Readings, timeout: u32)
    requires Tells(c, r, timeout)
    ensures c.state.controllerHealth == 3 && c.state.reserved == 0
    ensures c.state.jetsonLink
         == if Rules.Lost(r.trace, r.jetson, timeout) then 2
            else if Rules.SpoiltLately(r.trace, r.degraded) then 1 else 0
    ensures Rules.Lost(r.trace, r.c2, timeout) ==> c.state.c2Link == 3
    ensures forall i: nat | Rules.Fresh(r.trace, i, r.c2, timeout) ::
              |r.trace[i].frame| == 8 && c.state.c2Link == if r.trace[i].frame[5] & 0x40 != 0 then 2 else 0
    ensures Rules.Lost(r.trace, r.light, timeout) ==> c.state.indicatorState == 4
    ensures forall i: nat | Rules.LastFrame(r.trace, i) ::
              && |r.trace[i].frame| == 8 && c.state.mode == Val(r.trace[i].frame[4])
              && var age := Wrap32(r.age - r.trace[i].time);
                 c.driveR.cmdAgeMs == if age < 65534 then age else 65534
    ensures (forall i: nat :: !Rules.LastFrame(r.trace, i)) ==> c.state.mode == 0 && c.driveR.cmdAgeMs == 65535
    ensures var w := Faults.Word(c.power.faultStatus);
            && (w & 0x0001 != 0 <==> Rules.Lost(r.trace, r.fault, timeout))
            && (w & 0x0040 != 0 <==> Rules.RejectedSince(r.trace, false))
            && (w & 0x0200 != 0 <==> Rules.RejectedSince(r.trace, true))
            && (w & 0x0100 != 0 <==> Rules.LastSkips(r.trace))
            && (w & 0x0080 != 0 <==> Rules.FreshSaysLost(r.trace, r.faultC2, timeout))
            && w & 0xFC3E == 0
    ensures var d := Outputs(At(r, r.outputs), timeout).0 as int; var m := if d >= 0 then d else -d;
            && (if Rules.Driven(r.trace, r.stop, timeout)
                then 2 * c.power.currentCa <= 3 * m < 2 * c.power.currentCa + 2
                else c.power.currentCa == 0)
            && 40 * (2400 - c.power.voltageCv) <= m < 40 * (2401 - c.power.voltageCv)
  {
    hide Rules.Driven, Rules.Lost, Rules.SpoiltLately, Rules.LastFrame, Rules.LastSkips, Rules.RejectedSince,
      Rules.FreshSaysLost, FaultsOf, Faults.Word, JetsonState, C2State, Indicator, CmdAge, ModeOf, WrappedLink,
      WrappedDegraded, Accepted, Wrap32, Val,
      CurrentOf, VoltageOf, MayMove, Outputs;
    var h := r.trace;
    Rules.JetsonRule(h, r.jetson, r.degraded, timeout);
    Rules.C2Rule(h, r.c2, timeout);
    Rules.LightRule(h, r.light, timeout);
    Rules.EchoRule(h, r.jetson);
    Rules.EchoRule(h, r.age);
    Rules.MovesWhenDriven(h, r.stop, timeout);
    LoadOf(Outputs(At(r, r.outputs), timeout).0);
    Rules.FaultRule(h, timeout, Faults.Word(c.power.faultStatus), 0, r.fault, r.faultC2);
  }

  // --- agreement -------------------------------------------------------------

  /** The four messages tell one story about the Jetson and the base station. */
  predicate Coherent(c: Cycle, timeout: u32) {
    WellFormed(c) &&
    var word := Faults.Word(c.power.faultStatus);
    var lost := Faults.HasFault(word, FAULT_COMM_TIMEOUT);
    && (lost <==> c.driveR.cmdAgeMs >= timeout)
    && (lost <==> c.state.jetsonLink == LINK_LOST)
    && (lost <==> c.state.c2Link == LINK_NOT_REPORTED)
    && (Faults.HasFault(word, FAULT_C2_LINK_LOST) <==> c.state.c2Link == LINK_LOST)
    && (c.state.indicatorState == INDICATOR_FAULT
        <==> lost || (c.state.mode == MODE_MANUAL && c.state.c2Link == LINK_LOST))
  }

  /** The last message says the base station is out of reach. */
  predicate Unreachable(r: Readings) {
    At(r, r.age).Heard? && At(r, r.age).msg.c2Lost
  }

  /** Then, in MANUAL, the light shows FAULT whatever the watchdog says. */
  predicate FaultAnyway(r: Readings) {
    Unreachable(r) && At(r, r.age).msg.mode == MODE_MANUAL
  }

  /** All readings that show fall on one side of the timeout. */
  predicate Steady(r: Readings, timeout: u32) {
    var lost := TimedOut(r, r.age, timeout);
    && TimedOut(r, r.fault, timeout) == lost && TimedOut(r, r.jetson, timeout) == lost
    && TimedOut(r, r.c2, timeout) == lost
    && (Unreachable(r) ==> TimedOut(r, r.faultC2, timeout) == lost)
    && (!FaultAnyway(r) ==> TimedOut(r, r.light, timeout) == lost)
  }

  /** The last reading of the cycle that the watchdog has a say in. */
  function LastReading(r: Readings): nat {
    if FaultAnyway(r) then r.c2 else r.light
  }

  /** During the cycle the silence since the last accepted frame grows past the timeout. */
  predicate Crosses(r: Readings, timeout: u32) {
    var before, after := Runs.Age(r.trace, r.age), Runs.Age(r.trace, LastReading(r));
    before.Some? && before.value < timeout <= after.value
  }

  /** The four messages agree exactly when the watchdog answers alike at all readings that show. */
  lemma CoherentIffSteady(c: Cycle, r: Readings, timeout: u32)
    requires timeout <= 65534 && Tells(c, r, timeout)
    ensures Coherent(c, timeout) <==> Steady(r, timeout)
  {
    hide Faults.HasFault, Accepts, ProtocolError, CrcError, SeqGap, WrappedDegraded, CurrentOf, VoltageOf, Outputs,
      MayMove, Wrap32;
    NoFaults();
  }

  lemma NoFaults()
    ensures !Faults.HasFault(0, FAULT_COMM_TIMEOUT) && !Faults.HasFault(0, FAULT_C2_LINK_LOST) && (0 as bv16) | 0 == 0
  {}

  /** While the silence is within the clock's range, that means it does not cross the timeout during the cycle. */
  lemma SteadyIffNoCrossing(r: Readings, timeout: u32)
    requires InTime(r) && Chronological(r.trace, r.age) && Runs.HeardWithinClock(r.trace, r.light)
    ensures Steady(r, timeout) <==> !Crosses(r, timeout)
  {
    hide Accepts, At;
    AcceptsAreReceived(r.trace, r.age);
    NeverHeard(r);
    if Accepts(r.trace) != [] {
      TrueSilence(r, r.age);
      TrueSilence(r, r.fault);
      TrueSilence(r, r.faultC2);
      TrueSilence(r, r.jetson);
      TrueSilence(r, r.c2);
      TrueSilence(r, r.light);
    }
  }

  lemma NeverHeard(r: Readings)
    ensures Accepts(r.trace) == [] ==> forall t: nat :: At(r, t) == Silent
  {}

  lemma TrueSilence(r: Readings, t: nat)
    requires Chronological(r.trace, r.age) && r.age <= t <= r.light && Runs.HeardWithinClock(r.trace, r.light)
    requires Accepts(r.trace) != []
    ensures var a := Accepts(r.trace); At(r, t) == Heard(a[|a| - 1].msg, t - a[|a| - 1].time)
  {
    hide Accepts;
    AcceptsAreReceived(r.trace, r.age);
  }

  /** The reported current is zero exactly when the rover was told to stand still, by the outputs or a moment later. */
  lemma DrawsCurrent(c: Cycle, r: Readings, timeout: u32)
    requires Tells(c, r, timeout)
    ensures c.power.currentCa == 0
       <==> !MayMove(At(r, r.stop), timeout) || Outputs(At(r, r.outputs), timeout).0 == 0
  {
    hide At, FaultsOf, WrappedDegraded, JetsonState, C2State, Indicator, MayMove, Outputs;
  }

  // --- a tick inside a cycle -------------------------------------------------

  /** The cycle the controller builds at the given readings, with the encoders at rest. */
  ghost function CycleAt(r: Readings, timeout: u32): Cycle
    requires var d := Outputs(At(r, r.outputs), timeout).0; -1000 <= d <= 1000
  {
    var d := Outputs(At(r, r.outputs), timeout).0;
    var w := Faults.Compose(0, TimedOut(r, r.fault, timeout), ProtocolError(r.trace), CrcError(r.trace),
                            SeqGap(Accepts(r.trace)), C2State(At(r, r.faultC2), timeout) == LINK_LOST);
    Cycle(DriveL(0, 0), DriveR(0, CmdAge(At(r, r.age))),
          Power(if MayMove(At(r, r.stop), timeout) then CurrentOf(d) else 0, VoltageOf(d), Faults.Value(w)),
          State(ModeOf(At(r, r.jetson)), JetsonState(At(r, r.jetson), timeout, WrappedDegraded(r.trace, r.degraded)),
                C2State(At(r, r.c2), timeout), CTRL_HEALTH_NOT_REPORTED, Indicator(At(r, r.light), timeout), 0))
  }

  lemma CycleAtTells(r: Readings, timeout: u32)
    requires var d := Outputs(At(r, r.outputs), timeout).0; -1000 <= d <= 1000
    ensures Tells(CycleAt(r, timeout), r, timeout)
  {
    hide Faults.Explains, Faults.Compose, Faults.Word, Faults.Value, Accepts, ProtocolError, CrcError, SeqGap,
      WrappedDegraded, MayMove, Outputs, CurrentOf, VoltageOf, C2State, Tripped, JetsonState, Indicator, WrappedLink;
    var timedOut, c2 := TimedOut(r, r.fault, timeout), C2State(At(r, r.faultC2), timeout) == LINK_LOST;
    var protocol, crc, gap := ProtocolError(r.trace), CrcError(r.trace), SeqGap(Accepts(r.trace));
    Faults.ComposeExplains(0, timedOut, protocol, crc, gap, c2);
    Faults.WordValue(Faults.Compose(0, timedOut, protocol, crc, gap, c2));
  }

  /** One autonomous command, accepted at time zero. */
  function OneCommand(c2Lost: bool): seq<Rx> {
    [Rx(0, 0, CAN_ID_CONTROL,
        ControlFrame(CAN_ID_CONTROL, ControlMsg(0, 0, MODE_AUTONOMOUS, false, false, false, INDICATOR_OFF, c2Lost, 1)))]
  }

  lemma HeardOnce(c2Lost: bool, t: nat)
    ensures WrappedLink(Accepts(OneCommand(c2Lost)), t)
         == Heard(ControlMsg(0, 0, MODE_AUTONOMOUS, false, false, false, INDICATOR_OFF, c2Lost, 1), Wrap32(t))
  {
    hide ControlFrame, Accepts, Wrap32;
    OneAccepted(0, ControlMsg(0, 0, MODE_AUTONOMOUS, false, false, false, INDICATOR_OFF, c2Lost, 1));
  }

  /**
   * One millisecond between two messages of a cycle: the age still reads 299
   * while the fault word already says the 300 ms watchdog has tripped.
   */
  lemma TickBetweenMessages(r: Readings)
    requires r == Readings(OneCommand(false), 299, 299, 299, 299, 300, 300, 300, 300, 300, 300)
    ensures Outputs(At(r, r.outputs), 300).0 == 0 && InTime(r) && r.light == r.age + 1
    ensures var c := CycleAt(r, 300);
            && Tells(c, r, 300) && !Coherent(c, 300)
            && c.driveR.cmdAgeMs == 299 && Faults.HasFault(Faults.Word(c.power.faultStatus), FAULT_COMM_TIMEOUT)
  {
    hide OneCommand, Faults.HasFault, Faults.Word, Faults.Value, Faults.Compose, ProtocolError, CrcError, SeqGap,
      WrappedDegraded, CurrentOf, VoltageOf, WrappedLink;
    HeardOnce(false, 299);
    HeardOnce(false, 300);
    CycleAtTells(r, 300);
    CoherentIffSteady(CycleAt(r, 300), r, 300);
    NoFaults();
  }

  /**
   * One millisecond inside the fault word: the base station is lost, and at no
   * reading are Jetson and base station both fine, yet both bits read clear.
   */
  lemma TickInsideFaultWord(r: Readings)
    requires r == Readings(OneCommand(true), 299, 299, 299, 299, 299, 300, 300, 300, 300, 300)
    ensures Outputs(At(r, r.outputs), 300).0 == 0 && InTime(r) && r.light == r.age + 1
    ensures var c := CycleAt(r, 300); var w := Faults.Word(c.power.faultStatus);
            && Tells(c, r, 300) && !Coherent(c, 300)
            && !Faults.HasFault(w, FAULT_COMM_TIMEOUT) && !Faults.HasFault(w, FAULT_C2_LINK_LOST)
  {
    hide OneCommand, Faults.HasFault, Faults.Word, Faults.Value, Faults.Compose, ProtocolError, CrcError, SeqGap,
      WrappedDegraded, CurrentOf, VoltageOf, WrappedLink;
    HeardOnce(true, 299);
    HeardOnce(true, 300);
    CycleAtTells(r, 300);
    CoherentIffSteady(CycleAt(r, 300), r, 300);
    NoFaults();
  }
}
