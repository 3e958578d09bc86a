/** The main loop of tools/rover_sim.cpp: ingest, outputs, plant, telemetry, on a clock that runs on throughout. */
module Simulator {
  import opened Words
  import opened Config
  import opened Protocol
  import opened History
  import opened Pacing
  import opened Controller
  import opened Plant
  import opened Cycles
  import Faults
  import Runs
  import Rules
  import Layout

  function FramesOf(c: Cycle, seqNo: u8): seq<(u32, seq<bv8>)> {
    [(IdOf(c.driveL), TelemetryFrame(c.driveL, seqNo)), (IdOf(c.driveR), TelemetryFrame(c.driveR, seqNo)),
     (IdOf(c.power), TelemetryFrame(c.power, seqNo)), (IdOf(c.state), TelemetryFrame(c.state, seqNo))]
  }

  method Emit(t: Telemetry, seqNo: u8) returns (frame: (u32, seq<bv8>))
    ensures frame == (IdOf(t), TelemetryFrame(t, seqNo))
  {
    hide TelemetryFrame;
    var buf := new bv8[FRAME_DLC];
    var len := EncodeTelemetry(t, seqNo, buf);
    frame := (IdOf(t), buf[..len]);
  }

  method EmitCycle(c: Cycle, seqNo: u8) returns (frames: seq<(u32, seq<bv8>)>)
    ensures frames == FramesOf(c, seqNo)
  {
    hide TelemetryFrame;
    var first := Emit(c.driveL, seqNo);
    var second := Emit(c.driveR, seqNo);
    var third := Emit(c.power, seqNo);
    var fourth := Emit(c.state, seqNo);
    frames := [first, second, third, fourth];
  }

  /** How often telemetryDue has said yes. */
  ghost function Fired(c: RoverController): nat
    reads c
  {
    PollAll(c.start, c.telemetryPeriodMs, c.polls).1
  }

  /** Every cycle sent says what its own readings showed. */
  ghost predicate AllTold(cycles: seq<Cycle>, readings: seq<Readings>, timeout: u32) {
    && |cycles| == |readings|
    && forall i | 0 <= i < |cycles| ::
         && Tells(cycles[i], readings[i], timeout)
         && InTime(readings[i]) && Chronological(readings[i].trace, readings[i].outputs)
  }

  class RoverSim {
    const ctl: RoverController
    var encLeft: i32
    var encRight: i32
    var steerFb: i16

    /** The drive output of every turn, every telemetry cycle sent, and the readings it was built from. */
    ghost var drives: seq<i16>
    ghost var cycles: seq<Cycle>
    ghost var readings: seq<Readings>

    ghost predicate Valid()
      reads this, ctl, ctl.clock
    {
      && ctl.Valid()
      && Wrap32(encLeft) == Wrap32(Travel(drives)) && Wrap32(encRight) == Wrap32(Travel(drives))
      && |cycles| == Fired(ctl) && ctl.telemetrySeq == |cycles| % 256
      && AllTold(cycles, readings, ctl.watchdogTimeoutMs)
    }

    constructor (clock: Clock, watchdogTimeoutMs: u32, telemetryPeriodMs: u32)
      requires clock.Valid()
      ensures Valid() && drives == [] && cycles == [] && steerFb == 0
      ensures fresh(ctl) && ctl.clock == clock && ctl.trace == []
      ensures ctl.watchdogTimeoutMs == watchdogTimeoutMs && ctl.telemetryPeriodMs == telemetryPeriodMs
    {
      hide Summarize, Chronological;
      ctl := new RoverController(clock, watchdogTimeoutMs, telemetryPeriodMs);
      encLeft, encRight, steerFb := 0, 0, 0;
      drives, cycles, readings := [], [], [];
    }

    /** One received line: up to eight bytes, in a zeroed buffer. */
    method Receive(id: u32, rx: seq<bv8>) returns (ghost r: Rx)
      requires Valid() && |rx| <= FRAME_DLC
      modifies ctl, ctl.clock
      ensures Valid() && ctl.trace == old(ctl.trace) + [r] && ctl.polls == old(ctl.polls)
      ensures r.id == id && r.frame == rx && old(ctl.clock.time) <= r.noticed <= r.time <= ctl.clock.time
    {
      hide Summarize, Chronological, PollAll, Accepted, AllTold, Wrap32, Travel;
      var buf := new bv8[FRAME_DLC](i => if 0 <= i < |rx| then rx[i] else 0);
      assert buf[..|rx|] == rx;
      SameSchedule(ctl);
      var accepted;
      accepted, r := ctl.IngestFrame(id, buf, |rx|);
    }

    method MovePlant(drive: i16, steer: i16)
      requires Wrap32(encLeft) == Wrap32(Travel(drives)) && Wrap32(encRight) == Wrap32(Travel(drives))
      modifies `encLeft, `encRight, `steerFb, `drives
      ensures Wrap32(encLeft) == Wrap32(Travel(drives)) && Wrap32(encRight) == Wrap32(Travel(drives))
      ensures drives == old(drives) + [drive] && steerFb == Slew(old(steerFb), steer)
    {
      hide Wrap32, WrapI32;
      var step := TruncDiv(drive, 10);
      TravelSnoc(drives, drive);
      CongruentStep(encLeft, Travel(drives), step);
      CongruentStep(encRight, Travel(drives), step);
      encLeft := WrapI32(encLeft + step);
      encRight := WrapI32(encRight + step);
      if steerFb < steer {
        steerFb := if steerFb + 25 < steer then steerFb + 25 else steer;
      } else if steerFb > steer {
        steerFb := if steerFb - 25 > steer then steerFb - 25 else steer;
      }
      drives := drives + [drive];
    }

    /** The turn so far: its first three readings, and what the plant draws. */
    ghost predicate Started(r: Readings, currentCa: int, voltageCv: int)
      reads ctl, ctl.clock
    {
      var timeout := ctl.watchdogTimeoutMs;
      var drive := Outputs(At(r, r.outputs), timeout).0;
      && ctl.Valid() && r.trace == ctl.trace && Chronological(r.trace, r.outputs)
      && r.outputs <= r.stop <= r.due <= ctl.clock.time
      && currentCa == (if MayMove(At(r, r.stop), timeout) then CurrentOf(drive) else 0)
      && voltageCv == VoltageOf(drive)
    }

    /** The four messages, each from its own readings. */
    method BuildCycle(currentCa: i16, voltageCv: i16, ghost before: Readings) returns (c: Cycle, ghost r: Readings)
      requires Started(before, currentCa, voltageCv)
      modifies ctl.clock
      ensures ctl.Valid() && Chronological(r.trace, r.outputs)
      ensures Tells(c, r, ctl.watchdogTimeoutMs) && ShowsPlant(c, encLeft, encRight, steerFb)
      ensures InTime(r) && SameStart(r, before) && r.light == ctl.clock.time
    {
      hide Summarize, Chronological, PollAll, Tripped, MayMove, WrappedLink, Accepts, WrappedDegraded, CmdAge,
        JetsonState, C2State, Indicator, Outputs, CurrentOf, VoltageOf, RoverController.Valid, FaultsOf;
      NoFaults();
      var driveL := ctl.BuildDriveL(encLeft, steerFb);
      ctl.Wait();
      ghost var age := ctl.clock.time;
      var driveR := ctl.BuildDriveR(encRight);
      var power, fault, faultC2 := ctl.BuildPower(currentCa, voltageCv, 0, 0);
      var state, jetson, degraded, c2, light := ctl.BuildState(CTRL_HEALTH_NOT_REPORTED);
      c := Cycle(driveL, driveR, power, state);
      r := before.(age := age, fault := fault, faultC2 := faultC2, jetson := jetson, degraded := degraded, c2 := c2,
                   light := light);
    }

    /** The four frames of one cycle share one sequence number. */
    method Report(currentCa: i16, voltageCv: i16, ghost before: Readings)
      returns (frames: seq<(u32, seq<bv8>)>, ghost r: Readings)
      requires Started(before, currentCa, voltageCv)
      requires ctl.telemetrySeq == (|cycles| + 1) % 256 && AllTold(cycles, readings, ctl.watchdogTimeoutMs)
      modifies `cycles, `readings, ctl.clock
      ensures ctl.Valid() && AllTold(cycles, readings, ctl.watchdogTimeoutMs)
      ensures |cycles| == |old(cycles)| + 1 && cycles[..|old(cycles)|] == old(cycles) && readings == old(readings) + [r]
      ensures frames == FramesOf(cycles[|cycles| - 1], |cycles| % 256)
      ensures ShowsPlant(cycles[|cycles| - 1], encLeft, encRight, steerFb)
      ensures SameStart(r, before) && InTime(r) && r.light == ctl.clock.time
    {
      hide *;
      var cycle;
      cycle, r := BuildCycle(currentCa, voltageCv, before);
      frames := EmitCycle(cycle, ctl.telemetrySeq);
      AllToldSnoc(cycles, readings, cycle, r, ctl.watchdogTimeoutMs);
      cycles := cycles + [cycle];
      readings := readings + [r];
    }

    /** One turn of the loop after reception: outputs, plant, telemetry, each reading later than the one before. */
    method Turn() returns (frames: seq<(u32, seq<bv8>)>, ghost r: Readings)
      requires Valid()
      modifies this, ctl, ctl.clock
      ensures Valid() && r.trace == ctl.trace == old(ctl.trace) && ctl.polls == old(ctl.polls) + [r.due]
      ensures old(ctl.clock.time) <= r.outputs <= r.stop <= r.due <= r.light <= ctl.clock.time
      ensures var (drive, steer) := Outputs(At(r, r.outputs), ctl.watchdogTimeoutMs);
              drives == old(drives) + [drive] && steerFb == Slew(old(steerFb), steer)
      ensures frames == [] ==> cycles == old(cycles) && readings == old(readings)
      ensures frames != [] ==>
                && |cycles| == |old(cycles)| + 1 && cycles[..|old(cycles)|] == old(cycles)
                && readings == old(readings) + [r]
                && frames == FramesOf(cycles[|cycles| - 1], |cycles| % 256)
                && ShowsPlant(cycles[|cycles| - 1], encLeft, encRight, steerFb)
    {
      hide Summarize, Chronological, PollAll, Poll, AllTold, Wrap32, Travel, Slew, TelemetryFrame, WrappedLink,
        Accepts, CurrentOf, VoltageOf, Outputs, MayMove, Rules.Fresh, Rules.Lost, Rules.Driven, Layout.SignedField, Val;
      ctl.Wait();
      ghost var outputs := ctl.clock.time;
      var drive, steer := ctl.CommandedOutputs();
      OutputsInRange(ctl);
      Runs.InOrder(ctl);
      ctl.Wait();
      ghost var stop := ctl.clock.time;
      var stopped := ctl.EffectiveStop();
      MovePlant(drive, steer);
      var currentCa := if stopped then 0 else CurrentOf(drive);
      var voltageCv := VoltageOf(drive);
      PlantFits(drive);
      var due := Due();
      frames := [];
      ghost var t := ctl.clock.time;
      r := Readings(ctl.trace, outputs, stop, t, t, t, t, t, t, t, t);
      if due {
        frames, r := Report(currentCa, voltageCv, r);
      }
    }

    method Due() returns (due: bool)
      requires ctl.Valid() && |cycles| == Fired(ctl) && ctl.telemetrySeq == |cycles| % 256
      modifies ctl, ctl.clock
      ensures ctl.Valid() && ctl.trace == old(ctl.trace) && ctl.polls == old(ctl.polls) + [ctl.clock.time]
      ensures old(ctl.clock.time) <= ctl.clock.time
      ensures Fired(ctl) == |cycles| + (if due then 1 else 0) && ctl.telemetrySeq == Fired(ctl) % 256
    {
      hide Summarize, Chronological, PollAll, Poll, Wrap32;
      ctl.Wait();
      ghost var p := Pacer(ctl.nextTelemetryMs, ctl.telemetrySeq);
      PollCounts(p, ctl.clock.ms, ctl.telemetryPeriodMs);
      PollAllSnoc(ctl.start, ctl.telemetryPeriodMs, ctl.polls, ctl.clock.time);
      SameSchedule(ctl);
      due := ctl.TelemetryDue();
    }
  }

  predicate ShowsPlant(c: Cycle, encLeft: i32, encRight: i32, steerFb: i16) {
    c.driveL == DriveL(encLeft, steerFb) && c.driveR.DriveR? && c.driveR.encRight == encRight
  }

  predicate SameStart(r: Readings, s: Readings) {
    r.trace == s.trace && r.outputs == s.outputs && r.stop == s.stop && r.due == s.due
  }

  lemma AllToldSnoc(cycles: seq<Cycle>, readings: seq<Readings>, c: Cycle, r: Readings, timeout: u32)
    requires AllTold(cycles, readings, timeout)
    requires Tells(c, r, timeout) && InTime(r) && Chronological(r.trace, r.outputs)
    ensures AllTold(cycles + [c], readings + [r], timeout)
  {
    hide Tells, InTime, Chronological;
  }

  lemma PlantFits(drive: i16)
    requires -1000 <= drive <= 1000
    ensures 0 <= CurrentOf(drive) <= 1500 && 2375 <= VoltageOf(drive) <= 2400
  {}

  lemma OutputsInRange(c: RoverController)
    requires c.Valid()
    ensures var (drive, steer) := Outputs(c.Seen(), c.watchdogTimeoutMs);
            -1000 <= drive <= 1000 && -1000 <= steer <= 1000
  {
    hide Summarize, Chronological, PollAll, WrappedLink, Outputs, Accepts;
    Runs.InOrder(c);
    var (drive, steer) := Outputs(c.Seen(), c.watchdogTimeoutMs);
    if (drive, steer) != (0, 0) { Runs.MotionSafety(c.trace, c.clock.time, c.watchdogTimeoutMs, drive, steer); }
  }

  lemma PollCounts(p: Pacer, now: u32, period: u32)
    ensures var (p', due) := Poll(p, now, period); p'.seqNo == if due then (p.seqNo + 1) % 256 else p.seqNo
  {
    hide Sub32, Signed32, Add32;
  }

  lemma SameSchedule(c: RoverController)
    requires c.Valid()
    ensures Pacer(c.nextTelemetryMs, c.telemetrySeq) == PollAll(c.start, c.telemetryPeriodMs, c.polls).0
  {
    hide Summarize, Chronological, PollAll;
  }
}
