/** The command and safety state machine of firmware/src/rover_controller.cpp. */
module Controller {
  import opened Words
  import opened Config
  import opened Protocol
  import opened History
  import opened Pacing
  import Faults
  import Layout
  import Rules

  /** The injected millisecond clock; `time` is the unbounded time it shows modulo 2^32. */
  class Clock {
    var ms: u32
    ghost var time: nat

    ghost predicate Valid()
      reads this
    {
      ms == Wrap32(time)
    }

    constructor (ghost start: nat, startMs: u32)
      requires startMs == Wrap32(start)
      ensures Valid() && time == start
    {
      ms, time := startMs, start;
    }

    method Advance(d: nat)
      requires Valid()
      modifies this
      ensures Valid() && time == old(time) + d
    {
      hide Wrap32;
      SumWraps(time, d);
      ms := Wrap32(ms + d);
      time := time + d;
    }

    /** Time passes between two readings of the clock: any amount, perhaps none. */
    method Pass()
      requires Valid()
      modifies this
      ensures Valid() && time >= old(time)
    {
      var d: nat :| d >= 0;
      Advance(d);
    }
  }

  class RoverController {
    const clock: Clock
    const watchdogTimeoutMs: u32
    const telemetryPeriodMs: u32

    var lastControl: ControlMsg
    var haveControl: bool
    var lastControlMs: u32
    var nextTelemetryMs: u32
    var telemetrySeq: u8
    var haveSeq: bool
    var lastSeq: u8
    var lastDecode: DecodeResult
    var protocolError: bool
    var crcError: bool
    var seqGap: bool
    var lastDegradedMs: u32
    var everDegraded: bool
    var controlFramesAccepted: u32
    var framesIgnored: u32
    var seqGapsSeen: u32
    var crcErrorsSeen: u32
    var framesLostEstimate: u32

    /** Every frame ingested, every telemetryDue poll, and the time of construction. */
    ghost var trace: seq<Rx>
    ghost var polls: seq<nat>
    ghost const start: nat

    ghost function Fields(): Summary
      reads this
    {
      Summary(lastControl, haveControl, lastControlMs, lastDecode, protocolError, crcError, seqGap,
              lastDegradedMs, everDegraded, controlFramesAccepted, framesIgnored, seqGapsSeen,
              crcErrorsSeen, framesLostEstimate)
    }

    /** The fields say exactly what the history says. */
    ghost predicate Valid()
      reads this, clock
    {
      && clock.Valid()
      && Chronological(trace, clock.time)
      && Fields() == Summarize(trace)
      && haveSeq == haveControl
      && (haveSeq ==> lastSeq == lastControl.seqNo)
      && Pacer(nextTelemetryMs, telemetrySeq) == PollAll(start, telemetryPeriodMs, polls).0
    }

    constructor (clock: Clock, watchdogTimeoutMs: u32, telemetryPeriodMs: u32)
      requires clock.Valid()
      ensures Valid() && trace == [] && polls == [] && start == clock.time
      ensures this.clock == clock && this.watchdogTimeoutMs == watchdogTimeoutMs
      ensures this.telemetryPeriodMs == telemetryPeriodMs
      ensures lastControl == ControlMsg(0, 0, 0, true, false, false, 0, true, 0)
      ensures !haveControl && lastDecode == DECODE_OK
    {
      this.clock := clock;
      this.watchdogTimeoutMs := watchdogTimeoutMs;
      this.telemetryPeriodMs := telemetryPeriodMs;
      lastControl := BOOT_CONTROL;
      haveControl := false;
      lastControlMs := 0;
      nextTelemetryMs := clock.ms;
      telemetrySeq := 0;
      haveSeq := false;
      lastSeq := 0;
      lastDecode := DECODE_OK;
      protocolError, crcError, seqGap := false, false, false;
      lastDegradedMs := 0;
      everDegraded := false;
      controlFramesAccepted, framesIgnored, seqGapsSeen := 0, 0, 0;
      crcErrorsSeen, framesLostEstimate := 0, 0;
      trace := [];
      polls := [];
      start := clock.time;
    }

    /** Time passes; nothing but the clock changes. */
    method Wait()
      requires Valid()
      modifies clock
      ensures Valid() && clock.time >= old(clock.time)
    {
      hide Summarize, PollAll;
      clock.Pass();
    }

    /** Feed one received frame; true only for a CONTROL frame that fully validates. */
    method IngestFrame(id: u32, buf: array<bv8>, len: u8) returns (accepted: bool, ghost r: Rx)
      requires Valid() && len <= buf.Length
      modifies this, clock
      ensures Valid() && trace == old(trace) + [r]
      ensures r.id == id && r.frame == old(buf[..len]) && old(clock.time) <= r.noticed <= r.time <= clock.time
      ensures accepted == Accepted(r)
      ensures polls == old(polls) && nextTelemetryMs == old(nextTelemetryMs)
    {
      hide ControlVerdict, ControlFields, Valid;
      Wait();
      r := Rx(clock.time, clock.time, id, buf[..len]);
      if id != CAN_ID_CONTROL {
        Ignore(r);
        return false, r;
      }
      var verdict, msg := DecodeControl(id, buf, len, BOOT_CONTROL);
      if verdict != DECODE_OK {
        Reject(verdict, r);
        return false, r;
      }
      r := Accept(msg, id, buf[..len]);
      accepted := true;
    }

    /** Other traffic on a shared bus: counted, and nothing else. */
    method Ignore(ghost r: Rx)
      requires Valid() && r.noticed == r.time == clock.time && r.id != CAN_ID_CONTROL
      modifies this
      ensures Valid() && trace == old(trace) + [r]
      ensures polls == old(polls) && nextTelemetryMs == old(nextTelemetryMs)
    {
      hide PollAll, Summarize, Chronological, Wrap32;
      SummaryAfterForeign(trace, r);
      ChronologicalSnoc(trace, r);
      trace := trace + [r];
      framesIgnored := Add32(framesIgnored, 1);
    }

    /** A frame on the CONTROL identifier that does not validate must not refresh the watchdog. */
    method Reject(verdict: DecodeResult, ghost r: Rx)
      requires Valid() && r.noticed == r.time == clock.time && r.id == CAN_ID_CONTROL
      requires verdict == ControlVerdict(r.id, r.frame) != DECODE_OK
      modifies this
      ensures Valid() && trace == old(trace) + [r]
      ensures polls == old(polls) && nextTelemetryMs == old(nextTelemetryMs)
    {
      hide ControlVerdict, PollAll, Summarize, Chronological, Wrap32;
      SummaryAfterRejection(trace, r);
      ChronologicalSnoc(trace, r);
      trace := trace + [r];
      NoteRejection(verdict);
    }

    method NoteRejection(verdict: DecodeResult)
      requires clock.Valid()
      modifies `lastDecode, `framesIgnored, `crcError, `crcErrorsSeen, `lastDegradedMs, `everDegraded, `protocolError
      ensures var s := old(Fields()).(lastDecode := verdict, ignored := Add32(old(framesIgnored), 1));
              Fields() ==
                if verdict == DECODE_BAD_CRC
                then s.(crcError := true, crcErrorsSeen := Add32(old(crcErrorsSeen), 1),
                        lastDegradedMs := clock.ms, everDegraded := true)
                else s.(protocolError := true)
    {
      hide Add32;
      lastDecode := verdict;
      framesIgnored := Add32(framesIgnored, 1);
      if verdict == DECODE_BAD_CRC {
        crcError := true;
        crcErrorsSeen := Add32(crcErrorsSeen, 1);
        lastDegradedMs := clock.ms;
        everDegraded := true;
      } else {
        protocolError := true;
      }
    }

    /** A validated frame: sequence check, then everything it says is taken over. */
    method Accept(msg: ControlMsg, ghost id: u32, ghost frame: seq<bv8>) returns (ghost r: Rx)
      requires Valid()
      requires Accepted(Rx(0, 0, id, frame)) && msg == ControlFields(frame)
      modifies this, clock
      ensures Valid() && trace == old(trace) + [r]
      ensures r == Rx(old(clock.time), clock.time, id, frame) && clock.time >= old(clock.time)
      ensures polls == old(polls) && nextTelemetryMs == old(nextTelemetryMs)
    {
      hide ControlVerdict, ControlFields, PollAll, Summarize, SeqDelta, Chronological, Wrap32, Add32;
      ghost var noticed := clock.time;
      CheckSequence(msg.seqNo);
      clock.Pass();
      r := Rx(noticed, clock.time, id, frame);
      SummaryAfterAcceptance(trace, r);
      NoFrameNoGap(trace);
      ChronologicalSnoc(trace, r);
      trace := trace + [r];
      TakeOver(msg);
    }

    method CheckSequence(seqNo: u8)
      modifies `seqGap, `seqGapsSeen, `framesLostEstimate, `lastDegradedMs, `everDegraded
      ensures var s, d := old(Fields()), SeqDelta(lastSeq, seqNo);
              Fields() ==
                if !haveSeq then s
                else if d == 1 then s.(seqGap := false)
                else s.(seqGap := true, gapsSeen := Add32(s.gapsSeen, 1),
                        lostEstimate := if d > 1 then Add32(s.lostEstimate, d - 1) else s.lostEstimate,
                        lastDegradedMs := clock.ms, everDegraded := true)
    {
      hide Add32, SeqDelta;
      if haveSeq {
        var delta := SeqDelta(lastSeq, seqNo);
        if delta != 1 {
          seqGap := true;
          seqGapsSeen := Add32(seqGapsSeen, 1);
          if delta > 1 { framesLostEstimate := Add32(framesLostEstimate, delta - 1); }
          lastDegradedMs := clock.ms;
          everDegraded := true;
        } else {
          seqGap := false;
        }
      }
    }

    method TakeOver(msg: ControlMsg)
      modifies `lastDecode, `lastSeq, `haveSeq, `protocolError, `crcError, `lastControl, `haveControl,
        `lastControlMs, `controlFramesAccepted
      ensures Fields() == old(Fields()).(
                lastDecode := DECODE_OK, protocolError := false, crcError := false, lastControl := msg,
                haveControl := true, lastControlMs := clock.ms, accepted := Add32(old(controlFramesAccepted), 1))
      ensures haveSeq && lastSeq == msg.seqNo
    {
      hide Add32;
      ClearErrors();
      lastSeq := msg.seqNo;
      haveSeq := true;
      lastControl := msg;
      haveControl := true;
      lastControlMs := clock.ms;
      controlFramesAccepted := Add32(controlFramesAccepted, 1);
    }

    /** A good frame clears the error conditions. */
    method ClearErrors()
      modifies `lastDecode, `protocolError, `crcError
      ensures Fields() == old(Fields()).(lastDecode := DECODE_OK, protocolError := false, crcError := false)
    {
      lastDecode := DECODE_OK;
      protocolError := false;
      crcError := false;
    }

    function ElapsedSinceControl(): u32
      reads this, clock
    {
      Sub32(clock.ms, lastControlMs)
    }

    /** What the history says about the Jetson at a reading of the clock, and at this one. */
    ghost function SeenAt(t: nat): Link
      reads this
    {
      WrappedLink(Accepts(trace), t)
    }

    ghost function Seen(): Link
      reads this, clock
    {
      SeenAt(clock.time)
    }

    lemma AgeIsElapsed()
      requires Valid() && haveControl
      ensures Seen() == Heard(lastControl, ElapsedSinceControl())
    {
      hide Accepts, Wrap32, Sub32, LastDegraded, LastVerdict, CrcError, ProtocolError, SeqGap, GapsSeen, Missing,
        CountBadCrc, PollAll;
      var a := Accepts(trace);
      DifferenceWraps(clock.time, a[|a| - 1].time);
    }

    function CmdAgeMs(): (age: u16)
      requires Valid()
      reads this, clock
      ensures age == CmdAge(Seen())
    {
      if !haveControl then CMD_AGE_UNKNOWN
      else
        AgeIsElapsed();
        ClampCmdAgeMs(ElapsedSinceControl())
    }

    predicate WatchdogTripped()
      requires Valid()
      reads this, clock
      ensures WatchdogTripped() == Tripped(Seen(), watchdogTimeoutMs)
    {
      if !haveControl then true
      else
        AgeIsElapsed();
        ElapsedSinceControl() >= watchdogTimeoutMs
    }

    predicate EffectiveStop()
      requires Valid()
      reads this, clock
      ensures EffectiveStop() <==> !MayMove(Seen(), watchdogTimeoutMs)
      ensures EffectiveStop() <==> !Rules.Driven(trace, clock.time, watchdogTimeoutMs)
    {
      hide Accepted, Chronological, PollAll, Rules.Driven;
      AcceptsAreReceived(trace, clock.time);
      Rules.MovesWhenDriven(trace, clock.time, watchdogTimeoutMs);
      WatchdogTripped()
      || lastControl.stop
      || !ModePermitsMotion(lastControl.mode)
      || (lastControl.autonomyAbort && lastControl.mode == MODE_AUTONOMOUS)
      || (lastControl.c2Lost && lastControl.mode == MODE_MANUAL)
    }

    /**
     * The numbers in the last accepted frame, while it is fresh and its mode and
     * flags let the rover move; else zero.
     */
    method CommandedOutputs() returns (drive: i16, steer: i16)
      requires Valid()
      ensures (drive, steer) == Outputs(Seen(), watchdogTimeoutMs)
      ensures Rules.Lost(trace, clock.time, watchdogTimeoutMs) ==> (drive, steer) == (0, 0)
      ensures forall i: nat | Rules.Fresh(trace, i, clock.time, watchdogTimeoutMs) ::
                var f := trace[i].frame;
                |f| == 8 && (drive, steer)
                  == if (f[4] == 1 && f[5] & 0x41 == 0) || (f[4] == 2 && f[5] & 0x03 == 0)
                     then (Layout.SignedField(Val(f[0]) + 0x100 * Val(f[1])),
                           Layout.SignedField(Val(f[2]) + 0x100 * Val(f[3])))
                     else (0, 0)
    {
      hide Rules.Lost, Rules.LastFrame, Rules.Driven, Accepted, Summarize, PollAll, Chronological, WrappedLink,
        Outputs, Val;
      OutputsFollowRule();
      OutputsOfFields();
      if EffectiveStop() { return 0, 0; }
      drive, steer := lastControl.driveCmd, lastControl.steerCmd;
    }

    lemma OutputsOfFields()
      requires Valid()
      ensures Outputs(Seen(), watchdogTimeoutMs)
           == if EffectiveStop() then (0, 0) else (lastControl.driveCmd, lastControl.steerCmd)
    {}

    lemma OutputsFollowRule()
      requires Valid()
      ensures Rules.Lost(trace, clock.time, watchdogTimeoutMs) ==> Outputs(Seen(), watchdogTimeoutMs) == (0, 0)
      ensures forall i: nat | Rules.Fresh(trace, i, clock.time, watchdogTimeoutMs) ::
                var f := trace[i].frame;
                |f| == 8 && Outputs(Seen(), watchdogTimeoutMs)
                  == if (f[4] == 1 && f[5] & 0x41 == 0) || (f[4] == 2 && f[5] & 0x03 == 0)
                     then (Layout.SignedField(Val(f[0]) + 0x100 * Val(f[1])),
                           Layout.SignedField(Val(f[2]) + 0x100 * Val(f[3])))
                     else (0, 0)
    {
      hide Rules.Lost, Accepted, Summarize, PollAll, Chronological, WrappedLink, Outputs, Val;
      if Rules.Lost(trace, clock.time, watchdogTimeoutMs) {
        Rules.LostStandsStill(trace, clock.time, watchdogTimeoutMs);
      }
      forall i: nat | Rules.Fresh(trace, i, clock.time, watchdogTimeoutMs)
        ensures var f := trace[i].frame;
                |f| == 8 && Outputs(Seen(), watchdogTimeoutMs)
                  == if (f[4] == 1 && f[5] & 0x41 == 0) || (f[4] == 2 && f[5] & 0x03 == 0)
                     then (Layout.SignedField(Val(f[0]) + 0x100 * Val(f[1])),
                           Layout.SignedField(Val(f[2]) + 0x100 * Val(f[3])))
                     else (0, 0)
      {
        Rules.MotionRule(trace, i, clock.time, watchdogTimeoutMs);
      }
    }

    /** One poll of the schedule; a poll that is due advances the telemetry sequence number. */
    method TelemetryDue() returns (due: bool)
      requires Valid()
      modifies this
      ensures Valid() && polls == old(polls) + [clock.time]
      ensures due == Poll(old(Pacer(nextTelemetryMs, telemetrySeq)), clock.ms, telemetryPeriodMs).1
      ensures Pacer(nextTelemetryMs, telemetrySeq)
           == Poll(old(Pacer(nextTelemetryMs, telemetrySeq)), clock.ms, telemetryPeriodMs).0
      ensures trace == old(trace) && lastControl == old(lastControl)
    {
      hide Summarize, Chronological, Wrap32, Poll, PollAll;
      PollAllSnoc(start, telemetryPeriodMs, polls, clock.time);
      polls := polls + [clock.time];
      due := AdvanceDeadline();
    }

    method AdvanceDeadline() returns (due: bool)
      modifies `nextTelemetryMs, `telemetrySeq
      ensures (Pacer(nextTelemetryMs, telemetrySeq), due)
           == Poll(old(Pacer(nextTelemetryMs, telemetrySeq)), clock.ms, telemetryPeriodMs)
    {
      hide Sub32, Add32, Signed32;
      var now := clock.ms;
      if Signed32(Sub32(now, nextTelemetryMs)) < 0 { return false; }

      nextTelemetryMs := Add32(nextTelemetryMs, telemetryPeriodMs);
      if Signed32(Sub32(now, nextTelemetryMs)) > Signed32(telemetryPeriodMs) {
        nextTelemetryMs := Add32(now, telemetryPeriodMs);
      }
      telemetrySeq := (telemetrySeq + 1) % 256;
      due := true;
    }

    predicate RecentlyDegraded()
      requires Valid()
      reads this, clock
      ensures RecentlyDegraded() == WrappedDegraded(trace, clock.time)
    {
      if !everDegraded then false
      else
        DifferenceWraps(clock.time, LastDegraded(trace).value);
        Sub32(clock.ms, lastDegradedMs) < LINK_DEGRADED_HOLD_MS
    }

    /** Two readings: the watchdog's, and that of the last degradation where it counts. */
    method JetsonLinkState() returns (s: u8, ghost first: nat, ghost second: nat)
      requires Valid()
      modifies clock
      ensures Valid() && old(clock.time) <= first <= second == clock.time
      ensures s == JetsonState(SeenAt(first), watchdogTimeoutMs, WrappedDegraded(trace, second))
      ensures s == if Rules.Lost(trace, first, watchdogTimeoutMs) then 2
                   else if Rules.SpoiltLately(trace, second) then 1 else 0
    {
      hide Summarize, PollAll, WrappedLink, WrappedDegraded, Chronological, Valid, Rules.Lost, Rules.SpoiltLately;
      JetsonFollowsRule();
      Wait();
      first, second := clock.time, clock.time;
      if WatchdogTripped() { return LINK_LOST, first, second; }
      Wait();
      second := clock.time;
      s := if RecentlyDegraded() then LINK_DEGRADED else LINK_OK;
    }

    lemma JetsonFollowsRule()
      ensures forall first: nat, second: nat ::
                JetsonState(SeenAt(first), watchdogTimeoutMs, WrappedDegraded(trace, second))
                  == if Rules.Lost(trace, first, watchdogTimeoutMs) then 2
                     else if Rules.SpoiltLately(trace, second) then 1 else 0
    {
      hide Rules.Lost, Rules.SpoiltLately, WrappedDegraded, WrappedLink, JetsonState;
      forall first: nat, second: nat
        ensures JetsonState(SeenAt(first), watchdogTimeoutMs, WrappedDegraded(trace, second))
             == if Rules.Lost(trace, first, watchdogTimeoutMs) then 2
                else if Rules.SpoiltLately(trace, second) then 1 else 0
      {
        Rules.JetsonRule(trace, first, second, watchdogTimeoutMs);
      }
    }

    function C2LinkState(): (s: u8)
      requires Valid()
      reads this, clock
      ensures s == C2State(Seen(), watchdogTimeoutMs)
      ensures Rules.Lost(trace, clock.time, watchdogTimeoutMs) ==> s == 3
      ensures forall i: nat | Rules.Fresh(trace, i, clock.time, watchdogTimeoutMs) ::
                |trace[i].frame| == 8 && s == if trace[i].frame[5] & 0x40 != 0 then 2 else 0
    {
      hide Accepted, Accepts, Rules.Lost, Rules.LastFrame, PollAll;
      Rules.C2Rule(trace, clock.time, watchdogTimeoutMs);
      AcceptsAreReceived(trace, clock.time);
      if !haveControl then LINK_NOT_REPORTED
      else if WatchdogTripped() then LINK_NOT_REPORTED
      else if lastControl.c2Lost then LINK_LOST else LINK_OK
    }

    /**
     * Sensor and extra faults pass through; each of the controller's own five
     * bits is otherwise set exactly when the history says so, the timeout at one
     * reading and the base-station link at a later one.
     */
    method FaultWord(sensorFaults: bv16, extraFaults: bv16) returns (w: bv16, ghost first: nat, ghost second: nat)
      requires Valid()
      modifies clock
      ensures Valid() && old(clock.time) <= first <= second == clock.time
      ensures FaultsExplained(w, sensorFaults | extraFaults, first, second)
    {
      hide Faults.Explains, Faults.Compose, C2State, Tripped, Valid, WrappedLink, ProtocolError, CrcError, SeqGap;
      Wait();
      first := clock.time;
      var timedOut := WatchdogTripped();
      Wait();
      second := clock.time;
      var c2 := C2LinkState() == LINK_LOST;
      HistoryOfErrors();
      Faults.ComposeExplains(sensorFaults | extraFaults, timedOut, protocolError, crcError, seqGap, c2);
      w := Faults.Compose(sensorFaults | extraFaults, timedOut, protocolError, crcError, seqGap, c2);
    }

    ghost predicate FaultsExplained(w: bv16, base: bv16, first: nat, second: nat)
      reads this
    {
      FaultsOf(trace, watchdogTimeoutMs, w, base, first, second)
    }

    lemma HistoryOfErrors()
      requires Valid()
      ensures protocolError == ProtocolError(trace) && crcError == CrcError(trace) && seqGap == SeqGap(Accepts(trace))
    {}

    function BuildDriveR(encRight: i32): (t: Telemetry)
      requires Valid()
      reads this, clock
      ensures t == DriveR(encRight, CmdAge(Seen()))
    {
      DriveR(encRight, CmdAgeMs())
    }

    function BuildDriveL(encLeft: i32, steerFb: i16): (t: Telemetry)
    {
      DriveL(encLeft, steerFb)
    }

    method BuildPower(currentCa: i16, voltageCv: i16, sensorFaults: bv16, extraFaults: bv16)
      returns (t: Telemetry, ghost first: nat, ghost second: nat)
      requires Valid()
      modifies clock
      ensures Valid() && old(clock.time) <= first <= second == clock.time
      ensures t.Power? && t.currentCa == currentCa && t.voltageCv == voltageCv
      ensures FaultsExplained(Faults.Word(t.faultStatus), sensorFaults | extraFaults, first, second)
    {
      hide *;
      var w;
      w, first, second := FaultWord(sensorFaults, extraFaults);
      Faults.WordValue(w);
      t := Power(currentCa, voltageCv, Faults.Value(w));
    }

    /** Four readings: two for the Jetson link, one for the base-station link, one for the light. */
    method BuildState(controllerHealth: u8)
      returns (t: Telemetry, ghost jetson: nat, ghost degraded: nat, ghost c2: nat, ghost light: nat)
      requires Valid()
      modifies clock
      ensures Valid() && old(clock.time) <= jetson <= degraded <= c2 <= light == clock.time
      ensures t == State(ModeOf(SeenAt(jetson)),
                         JetsonState(SeenAt(jetson), watchdogTimeoutMs, WrappedDegraded(trace, degraded)),
                         C2State(SeenAt(c2), watchdogTimeoutMs), controllerHealth,
                         Indicator(SeenAt(light), watchdogTimeoutMs), 0)
    {
      hide JetsonState, C2State, Indicator, Valid, WrappedDegraded;
      var jetsonLink;
      jetsonLink, jetson, degraded := JetsonLinkState();
      Wait();
      c2 := clock.time;
      var c2Link := C2LinkState();
      Wait();
      light := clock.time;
      EchoesMode(jetson);
      t := State(lastControl.mode, jetsonLink, c2Link, controllerHealth, IndicatorState(), 0);
    }

    lemma EchoesMode(t: nat)
      requires Valid()
      ensures lastControl.mode == ModeOf(SeenAt(t))
    {
      hide Accepts;
    }

    function IndicatorState(): (s: u8)
      requires Valid()
      reads this, clock
      ensures s == Indicator(Seen(), watchdogTimeoutMs)
      ensures Rules.Lost(trace, clock.time, watchdogTimeoutMs) ==> s == 4
      ensures forall i: nat | Rules.Fresh(trace, i, clock.time, watchdogTimeoutMs) ::
                var f := trace[i].frame;
                |f| == 8 && s == if f[4] == 0 then 0
                                 else if f[4] == 1 then (if f[5] & 0x40 != 0 then 4 else 1)
                                 else if Val((f[5] & 0x38) >> 3) == 3 then 3 else 2
    {
      hide Accepted, Accepts, Rules.Lost, Rules.LastFrame, PollAll, Val;
      Rules.LightRule(trace, clock.time, watchdogTimeoutMs);
      AcceptsAreReceived(trace, clock.time);
      if WatchdogTripped() then INDICATOR_FAULT
      else if lastControl.c2Lost && lastControl.mode == MODE_MANUAL then INDICATOR_FAULT
      else if lastControl.mode == MODE_DISABLED then INDICATOR_OFF
      else if lastControl.mode == MODE_MANUAL then INDICATOR_TELEOP
      else if lastControl.indicatorRequest == INDICATOR_ARRIVED then INDICATOR_ARRIVED
      else INDICATOR_AUTONOMOUS
    }
  }
}
