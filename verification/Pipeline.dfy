/** Telemetry from the controller's loop to the Jetson's snapshots. */
module Pipeline {
  import opened Words
  import opened Config
  import opened Protocol
  import opened History
  import opened Pacing
  import opened Assembler
  import opened Snapshots
  import opened Cycles
  import opened Simulator
  import Runs

  /** Message k of a cycle, by the identifier it travels under. */
  function Part(c: Cycle, id: u32): Telemetry {
    if id == CAN_ID_TELEM_DRIVE_L then c.driveL
    else if id == CAN_ID_TELEM_DRIVE_R then c.driveR
    else if id == CAN_ID_TELEM_POWER then c.power
    else c.state
  }

  /** Everything delivered was sent in the cycle it claims; the first cycle is number one. */
  ghost predicate Genuine(ds: seq<Delivery>, cycles: seq<Cycle>) {
    forall d | d in ds :: 1 <= d.cycle <= |cycles| && d.t == Part(cycles[d.cycle - 1], IdOf(d.t))
  }

  function SnapshotOf(c: Cycle, k: nat): Snapshot {
    Snapshot(k % 256, c.driveL, c.driveR, c.power, c.state)
  }

  /**
   * Over any channel that keeps order and does not repeat, whatever else is on
   * the bus, the Jetson's snapshot is the newest cycle that came through whole,
   * exactly as sent. Its four messages agree exactly when the watchdog answered
   * alike at all their readings.
   */
  lemma SnapshotIsOneCycle(sim: RoverSim, a: TelemetryAssembler, ds: seq<Delivery>)
    requires sim.Valid() && a.Valid() && Fragments(a.trace) == Wire(ds)
    requires InOrder(ds) && ToldApart(ds) && Genuine(ds, sim.cycles)
    ensures a.completeCount == |Complete(ds)| && a.tornCount == |Torn(ds)|
    ensures a.snapshot.None? <==> Complete(ds) == {}
    ensures |sim.cycles| == |sim.readings|
    ensures a.snapshot.Some? ==>
              NewestCycle(ds, sim.cycles, sim.readings, a.snapshot.value, sim.ctl.watchdogTimeoutMs)
  {
    hide *;
    AssemblerIsExact(a, ds);
    CyclesTold(sim);
    if a.snapshot.Some? {
      NewestCycleSent(ds, sim.cycles, sim.readings, a.snapshot.value, sim.ctl.watchdogTimeoutMs);
    }
  }

  /** The snapshot is the newest cycle of which everything came through, and says what that cycle's readings showed. */
  ghost predicate NewestCycle(ds: seq<Delivery>, cycles: seq<Cycle>, readings: seq<Readings>, s: Snapshot, timeout: u32)
    requires |cycles| == |readings|
  {
    exists k: nat | 1 <= k <= |cycles| && k in Complete(ds) ::
      && (forall j | j in Complete(ds) :: j <= k)
      && s == SnapshotOf(cycles[k - 1], k)
      && Tells(cycles[k - 1], readings[k - 1], timeout)
      && (timeout <= 65534 ==> AgreementTold(cycles[k - 1], readings[k - 1], timeout))
  }

  /**
   * The messages agree exactly when all readings that show fall on one side of
   * the timeout; while the silence is within the clock's range, exactly when it
   * does not cross the timeout during the cycle.
   */
  ghost predicate AgreementTold(c: Cycle, r: Readings, timeout: u32) {
    && (Coherent(c, timeout) <==> Steady(r, timeout))
    && (Runs.HeardWithinClock(r.trace, r.light) ==> (Coherent(c, timeout) <==> !Crosses(r, timeout)))
  }

  lemma CycleAgreement(c: Cycle, r: Readings, timeout: u32)
    requires timeout <= 65534 && Tells(c, r, timeout) && InTime(r) && Chronological(r.trace, r.outputs)
    ensures AgreementTold(c, r, timeout)
  {
    hide Tells, Coherent, Steady, Crosses, Runs.HeardWithinClock;
    CoherentIffSteady(c, r, timeout);
    if Runs.HeardWithinClock(r.trace, r.light) { SteadyIffNoCrossing(r, timeout); }
  }

  lemma NewestCycleSent(ds: seq<Delivery>, cycles: seq<Cycle>, readings: seq<Readings>, s: Snapshot, timeout: u32)
    requires Genuine(ds, cycles) && AllTold(cycles, readings, timeout)
    requires exists k | k in Complete(ds) :: (forall j | j in Complete(ds) :: j <= k) && IsSnapshotOf(ds, k, s)
    ensures NewestCycle(ds, cycles, readings, s, timeout)
  {
    hide Complete, Tells, AgreementTold, InTime, Chronological, IsSnapshotOf, Genuine, SnapshotOf;
    var k :| k in Complete(ds) && (forall j | j in Complete(ds) :: j <= k) && IsSnapshotOf(ds, k, s);
    SentSnapshot(ds, cycles, k, s);
    if timeout <= 65534 { CycleAgreement(cycles[k - 1], readings[k - 1], timeout); }
  }

  lemma CyclesTold(sim: RoverSim)
    requires sim.Valid()
    ensures AllTold(sim.cycles, sim.readings, sim.ctl.watchdogTimeoutMs) && |sim.cycles| == |sim.readings|
  {}

  lemma SentSnapshot(ds: seq<Delivery>, cycles: seq<Cycle>, k: nat, s: Snapshot)
    requires Genuine(ds, cycles) && IsSnapshotOf(ds, k, s)
    ensures 1 <= k <= |cycles| && s == SnapshotOf(cycles[k - 1], k)
  {
    assert Delivery(k, s.driveL) in ds && Delivery(k, s.driveR) in ds;
    assert Delivery(k, s.power) in ds && Delivery(k, s.state) in ds;
  }

  // --- a channel that loses nothing ------------------------------------------

  function Sent(cycles: seq<Cycle>, k: nat, id: u32): Delivery
    requires 1 <= k <= |cycles|
  {
    Delivery(k, Part(cycles[k - 1], id))
  }

  /** All four messages of every cycle up to the last have arrived. */
  ghost predicate Lossless(ds: seq<Delivery>, cycles: seq<Cycle>) {
    forall k: nat, id | 1 <= k <= |cycles| && id in TELEM_IDS :: Sent(cycles, k, id) in ds
  }

  /**
   * A loop that polls at least once a period, on a channel that loses nothing:
   * the Jetson has published exactly one snapshot per telemetry period, none
   * torn, and the newest is the latest cycle.
   */
  lemma OneSnapshotPerPeriod(sim: RoverSim, a: TelemetryAssembler, ds: seq<Delivery>)
    requires sim.Valid() && a.Valid() && Fragments(a.trace) == Wire(ds)
    requires InOrder(ds) && Genuine(ds, sim.cycles) && Lossless(ds, sim.cycles)
    requires var c := sim.ctl;
             0 < c.telemetryPeriodMs < TWO_31 && c.polls != [] && PolledWithin(c.start, c.polls, c.telemetryPeriodMs)
    ensures var c := sim.ctl;
            && c.start <= Latest(c.start, c.polls)
            && a.completeCount == (Latest(c.start, c.polls) - c.start) / c.telemetryPeriodMs + 1
            && a.tornCount == 0
            && |sim.cycles| == a.completeCount && sim.cycles != []
            && a.snapshot == Some(SnapshotOf(sim.cycles[|sim.cycles| - 1], |sim.cycles|))
  {
    hide InOrder, ToldApart, Fragments, Complete, Torn, RoverSim.Valid, TelemetryAssembler.Valid, Genuine, Lossless,
      PollAll, PolledWithin, NewestCycle, UpTo, SnapshotOf, Periods, Wrap32, Wire;
    var c := sim.ctl;
    CyclesWellFormed(sim);
    ExactPace(c.start, c.telemetryPeriodMs, c.polls);
    NothingConfused(ds, sim.cycles);
    SnapshotIsOneCycle(sim, a, ds);
    AllComplete(ds, sim.cycles);
    UpToSize(|sim.cycles|);
    NewestIsLast(ds, sim.cycles, sim.readings, a.snapshot, c.watchdogTimeoutMs);
  }

  lemma NewestIsLast(ds: seq<Delivery>, cycles: seq<Cycle>, readings: seq<Readings>, s: Option<Snapshot>, timeout: u32)
    requires cycles != [] && |cycles| == |readings| && Complete(ds) == UpTo(|cycles|)
    requires s.None? <==> Complete(ds) == {}
    requires s.Some? ==> NewestCycle(ds, cycles, readings, s.value, timeout)
    ensures s == Some(SnapshotOf(cycles[|cycles| - 1], |cycles|))
  {
    hide Complete, SnapshotOf, Tells, AgreementTold;
    assert |cycles| in Complete(ds);
  }

  lemma CyclesWellFormed(sim: RoverSim)
    requires sim.Valid()
    ensures |sim.cycles| == Fired(sim.ctl)
    ensures forall i | 0 <= i < |sim.cycles| :: WellFormed(sim.cycles[i])
  {}

  /**
   * The hypotheses about the channel, kept by what the loop sends: when some of
   * the four frames of one more cycle have arrived, none twice, there are as many
   * more genuine deliveries in order; and if all four arrived and nothing was
   * missing before, nothing is missing now.
   */
  lemma OneMoreCycle(h: seq<(u32, seq<bv8>)>, ds: seq<Delivery>, cycles: seq<Cycle>, c: Cycle, part: seq<Delivery>)
    requires WellFormed(c) && Fragments(h) == Wire(ds) && InOrder(ds) && Genuine(ds, cycles)
    requires InOrder(part) && forall d | d in part :: d in DeliveriesOf(c, |cycles| + 1)
    ensures forall d | d in part :: FrameOf(d) in FramesOf(c, (|cycles| + 1) % 256)
    ensures Fragments(h + Frames(part)) == Wire(ds + part)
    ensures InOrder(ds + part) && Genuine(ds + part, cycles + [c])
    ensures InOrder(DeliveriesOf(c, |cycles| + 1))
    ensures part == DeliveriesOf(c, |cycles| + 1) ==>
              && Frames(part) == FramesOf(c, (|cycles| + 1) % 256)
              && (Lossless(ds, cycles) ==> Lossless(ds + part, cycles + [c]))
  {
    hide Fragments, Wire, TelemetryFrame, InOrder, Lossless, Genuine, DeliveriesOf, FramesOf, Frames, FrameOf;
    var n := |cycles| + 1;
    FramesOfCycle(c, n);
    WholeCycleInOrder(c, n);
    PartOfFrames(DeliveriesOf(c, n), part);
    FramesArrive(h, ds, part);
    GenuineGrows(ds, cycles, c, part);
    InOrderGrows(ds, cycles, c, part);
    if Lossless(ds, cycles) { LosslessGrows(ds, cycles, c); }
  }

  lemma PartOfFrames(ds: seq<Delivery>, part: seq<Delivery>)
    requires forall d | d in part :: d in ds
    ensures forall d | d in part :: FrameOf(d) in Frames(ds)
  {
    hide FrameOf;
    forall d | d in part
      ensures FrameOf(d) in Frames(ds)
    {
      var i :| 0 <= i < |ds| && ds[i] == d;
      assert Frames(ds)[i] == FrameOf(d);
    }
  }

  /** All four frames in the order they are sent are such a part. */
  lemma WholeCycleInOrder(c: Cycle, n: nat)
    requires WellFormed(c)
    ensures InOrder(DeliveriesOf(c, n))
  {}

  function DeliveriesOf(c: Cycle, n: nat): seq<Delivery> {
    [Delivery(n, c.driveL), Delivery(n, c.driveR), Delivery(n, c.power), Delivery(n, c.state)]
  }

  function FrameOf(d: Delivery): (u32, seq<bv8>) {
    (IdOf(d.t), TelemetryFrame(d.t, d.cycle % 256))
  }

  function Frames(ds: seq<Delivery>): seq<(u32, seq<bv8>)> {
    seq(|ds|, i requires 0 <= i < |ds| => FrameOf(ds[i]))
  }

  lemma OneArrives(h: seq<(u32, seq<bv8>)>, ds: seq<Delivery>, d: Delivery)
    requires Fragments(h) == Wire(ds)
    ensures Fragments(h + [FrameOf(d)]) == Wire(ds + [d])
  {
    hide Fragments, Wire, TelemetryFrame, IdOf;
    Arrival(h, ds, d);
  }

  /** Any number of frames sent one after the other arrive as so many deliveries. */
  lemma {:induction false} FramesArrive(h: seq<(u32, seq<bv8>)>, ds: seq<Delivery>, more: seq<Delivery>)
    requires Fragments(h) == Wire(ds)
    ensures Fragments(h + Frames(more)) == Wire(ds + more)
    decreases |more|
  {
    hide Fragments, Wire, FrameOf;
    if more == [] {
      assert h + Frames(more) == h && ds + more == ds;
    } else {
      var front, d := more[..|more| - 1], more[|more| - 1];
      FramesArrive(h, ds, front);
      OneArrives(h + Frames(front), ds + front, d);
      assert h + Frames(more) == (h + Frames(front)) + [FrameOf(d)];
      assert ds + more == (ds + front) + [d];
    }
  }

  lemma FramesOfCycle(c: Cycle, n: nat)
    ensures FramesOf(c, n % 256) == Frames(DeliveriesOf(c, n))
  {
    hide TelemetryFrame, IdOf;
  }

  lemma GenuineGrows(ds: seq<Delivery>, cycles: seq<Cycle>, c: Cycle, part: seq<Delivery>)
    requires WellFormed(c) && Genuine(ds, cycles)
    requires forall d | d in part :: d in DeliveriesOf(c, |cycles| + 1)
    ensures Genuine(ds + part, cycles + [c])
  {
    var more := cycles + [c];
    forall d | d in ds + part
      ensures 1 <= d.cycle <= |more| && d.t == Part(more[d.cycle - 1], IdOf(d.t))
    {
      if d in ds { assert more[d.cycle - 1] == cycles[d.cycle - 1]; }
    }
  }

  lemma InOrderGrows(ds: seq<Delivery>, cycles: seq<Cycle>, c: Cycle, part: seq<Delivery>)
    requires InOrder(ds) && Genuine(ds, cycles) && InOrder(part)
    requires forall d | d in part :: d in DeliveriesOf(c, |cycles| + 1)
    ensures InOrder(ds + part)
  {
    var all := ds + part;
    forall i, j | 0 <= i < j < |all|
      ensures all[i].cycle <= all[j].cycle && (all[i].cycle == all[j].cycle ==> IdOf(all[i].t) != IdOf(all[j].t))
    {
      if i < |ds| {
        assert ds[i] in ds;
        if j >= |ds| { assert part[j - |ds|] in part; }
      } else {
        assert all[i] == part[i - |ds|] && all[j] == part[j - |ds|];
      }
    }
  }

  lemma LosslessGrows(ds: seq<Delivery>, cycles: seq<Cycle>, c: Cycle)
    requires Lossless(ds, cycles)
    ensures Lossless(ds + DeliveriesOf(c, |cycles| + 1), cycles + [c])
  {
    var all, more := ds + DeliveriesOf(c, |cycles| + 1), cycles + [c];
    forall k: nat, id | 1 <= k <= |more| && id in TELEM_IDS
      ensures Sent(more, k, id) in all
    {
      if k <= |cycles| { assert Sent(more, k, id) == Sent(cycles, k, id); }
    }
  }

  lemma NothingConfused(ds: seq<Delivery>, cycles: seq<Cycle>)
    requires InOrder(ds) && Genuine(ds, cycles) && Lossless(ds, cycles)
    ensures ToldApart(ds)
  {
    forall i | 0 <= i < |ds| - 1
      ensures !Confused(ds[i].cycle, ds[i + 1].cycle)
    {
      var k, n := ds[i].cycle, ds[i + 1].cycle;
      assert ds[i] in ds && ds[i + 1] in ds;
      if k < |cycles| {
        var next := Sent(cycles, k + 1, CAN_ID_TELEM_STATE);
        assert next in ds;
        var j :| 0 <= j < |ds| && ds[j] == next;
        assert n <= k + 1;
      }
      assert k <= n <= k + 1;
    }
  }

  lemma AllComplete(ds: seq<Delivery>, cycles: seq<Cycle>)
    requires InOrder(ds) && Genuine(ds, cycles) && Lossless(ds, cycles)
    requires forall i | 0 <= i < |cycles| :: WellFormed(cycles[i])
    ensures Complete(ds) == UpTo(|cycles|) && Torn(ds) == {}
  {
    hide Kinds, Delivered, InOrder, Lossless, WellFormed;
    forall k: nat
      ensures k in Delivered(ds) <==> 1 <= k <= |cycles|
      ensures 1 <= k <= |cycles| ==> Kinds(ds, k) == TELEM_IDS
    {
      DeliveredInRange(ds, cycles, k);
      if 1 <= k <= |cycles| { CycleComplete(ds, cycles, k); }
    }
  }

  lemma DeliveredInRange(ds: seq<Delivery>, cycles: seq<Cycle>, k: nat)
    requires Genuine(ds, cycles)
    ensures k in Delivered(ds) ==> 1 <= k <= |cycles|
  {}

  lemma CycleComplete(ds: seq<Delivery>, cycles: seq<Cycle>, k: nat)
    requires Lossless(ds, cycles) && 1 <= k <= |cycles| && WellFormed(cycles[k - 1])
    ensures k in Delivered(ds) && Kinds(ds, k) == TELEM_IDS
  {
    forall id | id in TELEM_IDS
      ensures id in Kinds(ds, k)
    {
      var d := Sent(cycles, k, id);
      assert d in ds && IdOf(d.t) == id;
    }
    assert Sent(cycles, k, CAN_ID_TELEM_STATE) in ds;
  }

  function UpTo(n: nat): (s: set<nat>)
    ensures forall k :: k in s <==> 1 <= k <= n
  {
    if n == 0 then {} else UpTo(n - 1) + {n}
  }

  lemma {:induction false} UpToSize(n: nat)
    ensures |UpTo(n)| == n
  {
    hide UpTo;
    UpToNext(n);
    if n > 0 {
      UpToSize(n - 1);
    }
  }

  lemma UpToNext(n: nat)
    ensures UpTo(n) == if n == 0 then {} else UpTo(n - 1) + {n}
  {}
}
