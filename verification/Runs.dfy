/** What RoverController guarantees over whole runs: any frames, at any times, in any order. */
module Runs {
  import opened Words
  import opened Config
  import opened Protocol
  import opened History
  import opened Pacing
  import opened Controller
  import Rules

  // --- the 32-bit clock ------------------------------------------------------

  /** The true age of the last accepted message. */
  function Age(h: seq<Rx>, now: nat): Option<int> {
    var a := Accepts(h);
    if a == [] then None else Some(now - a[|a| - 1].time)
  }

  /** The last accepted message is less than 2^32 ms old. */
  predicate HeardWithinClock(h: seq<Rx>, now: nat) {
    Age(h, now).Some? ==> Age(h, now).value < TWO_32
  }

  /** Nothing the controller remembers is 2^32 ms old or older. */
  predicate WithinClockRange(h: seq<Rx>, now: nat) {
    && HeardWithinClock(h, now)
    && (LastDegraded(h).Some? ==> now - LastDegraded(h).value < TWO_32)
  }

  lemma WrapRefinement(h: seq<Rx>, now: nat)
    requires Chronological(h, now) && WithinClockRange(h, now)
    ensures WrappedLink(Accepts(h), now) == TrueLink(Accepts(h), now)
    ensures WrappedDegraded(h, now) == TrueDegraded(h, now)
  {
    hide Accepts, LastDegraded;
    AcceptsAreReceived(h, now);
  }

  /**
   * Within the clock's range every answer of the 32-bit controller is the one
   * an ideal controller with an unbounded clock would give; answers that take
   * two readings of the clock, at each of them.
   */
  lemma AgreesWithIdeal(c: RoverController, w: bv16, base: bv16, first: nat, second: nat)
    requires c.Valid() && c.clock.time <= first <= second && WithinClockRange(c.trace, second)
    ensures var l, degraded := TrueLink(Accepts(c.trace), c.clock.time), TrueDegraded(c.trace, c.clock.time);
            var timeout := c.watchdogTimeoutMs;
            && c.Seen() == l
            && c.WatchdogTripped() == Tripped(l, timeout)
            && c.EffectiveStop() == !MayMove(l, timeout)
            && c.CmdAgeMs() == CmdAge(l)
            && c.RecentlyDegraded() == degraded
            && c.C2LinkState() == C2State(l, timeout)
            && c.IndicatorState() == Indicator(l, timeout)
    ensures var l, m := TrueLink(Accepts(c.trace), first), TrueLink(Accepts(c.trace), second);
            var timeout := c.watchdogTimeoutMs;
            && JetsonState(c.SeenAt(first), timeout, WrappedDegraded(c.trace, second))
               == JetsonState(l, timeout, TrueDegraded(c.trace, second))
            && (c.FaultsExplained(w, base, first, second)
                <==> Faults.Explains(w, base, Tripped(l, timeout), ProtocolError(c.trace), CrcError(c.trace),
                                     SeqGap(Accepts(c.trace)), C2State(m, timeout) == LINK_LOST))
  {
    hide Faults.Explains, Tripped, MayMove, CmdAge, JetsonState, C2State, Indicator, Accepts, WrappedLink, TrueLink,
      WrappedDegraded, TrueDegraded, ProtocolError, CrcError, SeqGap, Summarize, Chronological, WithinClockRange;
    InOrder(c);
    RangeShrinks(c.trace, c.clock.time, c.clock.time, second);
    RangeShrinks(c.trace, c.clock.time, first, second);
    RangeShrinks(c.trace, c.clock.time, second, second);
    WrapRefinement(c.trace, c.clock.time);
    WrapRefinement(c.trace, first);
    WrapRefinement(c.trace, second);
  }

  lemma RangeShrinks(h: seq<Rx>, now: nat, t: nat, later: nat)
    requires Chronological(h, now) && now <= t <= later && WithinClockRange(h, later)
    ensures Chronological(h, t) && WithinClockRange(h, t)
  {
    hide Accepts, LastDegraded;
  }

  lemma InOrder(c: RoverController)
    requires c.Valid()
    ensures Chronological(c.trace, c.clock.time)
  {}

  /**
   * A silence of 2^32 ms or more can look short. The watchdog misses a silence
   * exactly when it is that long and its length modulo 2^32 is below the timeout.
   */
  lemma WatchdogLapse(h: seq<Rx>, now: nat, timeout: u32)
    requires Chronological(h, now)
    ensures Tripped(TrueLink(Accepts(h), now), timeout) != Tripped(WrappedLink(Accepts(h), now), timeout)
       <==> Age(h, now).Some? && Age(h, now).value >= TWO_32 && Wrap32(Age(h, now).value) < timeout
    ensures MayMove(WrappedLink(Accepts(h), now), timeout) && !MayMove(TrueLink(Accepts(h), now), timeout)
       <==> Age(h, now).Some? && Age(h, now).value >= TWO_32 && Wrap32(Age(h, now).value) < timeout
            && PermitsMotion(Accepts(h)[|Accepts(h)| - 1].msg)
  {
    hide Accepts, PermitsMotion, Wrap32;
    AcceptsAreReceived(h, now);
    if Age(h, now).Some? { SmallWraps(Age(h, now).value); }
  }

  lemma AgeLapse(h: seq<Rx>, now: nat)
    requires Chronological(h, now)
    ensures CmdAge(WrappedLink(Accepts(h), now)) != CmdAge(TrueLink(Accepts(h), now))
       <==> Age(h, now).Some? && Age(h, now).value >= TWO_32 && Wrap32(Age(h, now).value) < CMD_AGE_MAX
  {
    hide Accepts, Wrap32;
    AcceptsAreReceived(h, now);
    if Age(h, now).Some? { SmallWraps(Age(h, now).value); }
  }

  lemma DegradationLapse(h: seq<Rx>, now: nat)
    requires Chronological(h, now)
    ensures WrappedDegraded(h, now) != TrueDegraded(h, now)
       <==> var t := LastDegraded(h);
            t.Some? && now - t.value >= TWO_32 && Wrap32(now - t.value) < LINK_DEGRADED_HOLD_MS
  {
    hide LastDegraded, Wrap32;
    AcceptsAreReceived(h, now);
    if LastDegraded(h).Some? { SmallWraps(now - LastDegraded(h).value); }
  }

  /** The command age and the degradation hold go wrong for the same reason, exactly as far as each can see. */
  lemma AnswersLapse(c: RoverController)
    requires c.Valid()
    ensures c.CmdAgeMs() != CmdAge(TrueLink(Accepts(c.trace), c.clock.time))
       <==> var age := Age(c.trace, c.clock.time);
            age.Some? && age.value >= TWO_32 && Wrap32(age.value) < CMD_AGE_MAX
    ensures c.RecentlyDegraded() != TrueDegraded(c.trace, c.clock.time)
       <==> var t := LastDegraded(c.trace);
            t.Some? && c.clock.time - t.value >= TWO_32 && Wrap32(c.clock.time - t.value) < LINK_DEGRADED_HOLD_MS
    ensures c.WatchdogTripped() != Tripped(TrueLink(Accepts(c.trace), c.clock.time), c.watchdogTimeoutMs)
       <==> var age := Age(c.trace, c.clock.time);
            age.Some? && age.value >= TWO_32 && Wrap32(age.value) < c.watchdogTimeoutMs
  {
    hide Summarize, Accepts, LastDegraded, Chronological, Tripped, CmdAge, WrappedLink, TrueLink, WrappedDegraded,
      TrueDegraded, Wrap32, PollAll;
    InOrder(c);
    AgeLapse(c.trace, c.clock.time);
    DegradationLapse(c.trace, c.clock.time);
    WatchdogLapse(c.trace, c.clock.time, c.watchdogTimeoutMs);
  }

  /** One MANUAL frame, then 2^32 ms of silence: the rover drives again. */
  lemma SilenceOfOneWrap(timeout: u32)
    requires 0 < timeout
    ensures var m := ControlMsg(500, -20, MODE_MANUAL, false, false, false, INDICATOR_OFF, false, 7);
            var a := Accepts([Rx(0, 0, CAN_ID_CONTROL, ControlFrame(CAN_ID_CONTROL, m))]);
            && Outputs(WrappedLink(a, TWO_32), timeout) == (500, -20)
            && Outputs(TrueLink(a, TWO_32), timeout) == (0, 0)
  {
    hide ControlFrame, Accepts;
    OneAccepted(0, ControlMsg(500, -20, MODE_MANUAL, false, false, false, INDICATOR_OFF, false, 7));
  }

  // --- motion ----------------------------------------------------------------

  /** Frame i is the last accepted one: it is the encoding of m, and m permits motion at this instant. */
  ghost predicate Commands(h: seq<Rx>, i: nat, now: nat, timeout: u32, m: ControlMsg)
    requires i < |h|
  {
    && h[i].id == CAN_ID_CONTROL && h[i].frame == ControlFrame(CAN_ID_CONTROL, m) && ValidControl(m)
    && (forall j | i < j < |h| :: !Accepted(h[j]))
    && Wrap32(now - h[i].time) < timeout
    && !m.stop && ((m.mode == 1 && !m.c2Lost) || (m.mode == 2 && !m.autonomyAbort))
  }

  /**
   * The outputs are nonzero exactly when the last accepted frame commands them:
   * sealed, valid, younger than the watchdog timeout on the clock, in a mode that
   * moves, and not stopped, aborted or out of the operator's reach.
   */
  lemma MotionSafety(h: seq<Rx>, now: nat, timeout: u32, drive: i16, steer: i16)
    requires (drive, steer) != (0, 0)
    ensures Outputs(WrappedLink(Accepts(h), now), timeout) == (drive, steer)
       <==> exists i, m | 0 <= i < |h| && Commands(h, i, now, timeout, m) :: m.driveCmd == drive && m.steerCmd == steer
    ensures Outputs(WrappedLink(Accepts(h), now), timeout) == (drive, steer)
        ==> -1000 <= drive <= 1000 && -1000 <= steer <= 1000
  {
    hide ControlFrame, ControlVerdict, ControlFields, ValidControl, Wrap32, Accepts;
    var a := Accepts(h);
    if Outputs(WrappedLink(a, now), timeout) == (drive, steer) {
      var i := LastAccepted(h);
      AcceptedLength(h[i]);
      var m := ControlFields(h[i].frame);
      EncodeOfDecode(CAN_ID_CONTROL, h[i].frame);
      InRange(m);
      assert Commands(h, i, now, timeout, m);
    }
    if i, m :| 0 <= i < |h| && Commands(h, i, now, timeout, m) && m.driveCmd == drive && m.steerCmd == steer {
      DecodeOfEncode(CAN_ID_CONTROL, m);
      AcceptedLast(h, i);
    }
  }

  lemma InRange(m: ControlMsg)
    requires ValidControl(m)
    ensures -1000 <= m.driveCmd <= 1000 && -1000 <= m.steerCmd <= 1000
  {}

  // --- rejected frames -------------------------------------------------------

  /** The history without its foreign and rejected frames. */
  function Clean(h: seq<Rx>): seq<Rx> {
    if h == [] then []
    else
      var g, r := Clean(h[..|h| - 1]), h[|h| - 1];
      if Accepted(r) then g + [r] else g
  }

  /** Every state of the cleaned run is one the full run passes through, and it has accepted the same. */
  lemma {:induction false} CleanRun(h: seq<Rx>, k: nat)
    requires k <= |h|
    ensures Clean(h[..k]) <= Clean(h)
    ensures Accepts(Clean(h)) == Accepts(h)
  {
    hide Accepted, ControlFields;
    if h != [] {
      var p, r := h[..|h| - 1], h[|h| - 1];
      if k < |h| {
        CleanRun(p, k);
        assert p[..k] == h[..k];
      } else {
        CleanRun(p, |p|);
        assert h[..k] == h;
      }
      Receive(Clean(p), r);
    }
  }

  /**
   * A controller that never saw the rejected frames gives the same answers: the
   * outputs, the watchdog, the command age, the C2 link, the light, and the
   * sequence statistics do not depend on them.
   */
  lemma RejectedFramesInvisible(c: RoverController, d: RoverController)
    requires c.Valid() && d.Valid() && c.clock == d.clock && c.watchdogTimeoutMs == d.watchdogTimeoutMs
    requires d.trace == Clean(c.trace)
    ensures c.Seen() == d.Seen()
    ensures c.WatchdogTripped() == d.WatchdogTripped() && c.EffectiveStop() == d.EffectiveStop()
    ensures Outputs(c.Seen(), c.watchdogTimeoutMs) == Outputs(d.Seen(), d.watchdogTimeoutMs)
    ensures c.CmdAgeMs() == d.CmdAgeMs() && c.C2LinkState() == d.C2LinkState()
    ensures c.IndicatorState() == d.IndicatorState()
    ensures c.lastControl == d.lastControl && c.haveSeq == d.haveSeq && (c.haveSeq ==> c.lastSeq == d.lastSeq)
    ensures c.seqGap == d.seqGap && c.seqGapsSeen == d.seqGapsSeen
    ensures c.framesLostEstimate == d.framesLostEstimate && c.controlFramesAccepted == d.controlFramesAccepted
  {
    hide Accepts, Tripped, MayMove, CmdAge, C2State, Indicator, Chronological, WrappedDegraded, PollAll, Wrap32,
      LastDegraded, LastVerdict, CrcError, ProtocolError, SeqGap, GapsSeen, Missing, CountBadCrc;
    CleanRun(c.trace, |c.trace|);
  }

  // --- sequence numbers ------------------------------------------------------

  /**
   * The sequence ledger balances: frames accepted after the first, less the
   * duplicates, plus the frames counted as lost, add up to the distance between
   * the first and the last sequence number, modulo 256.
   */
  lemma {:induction false} SequenceLedger(a: seq<Receipt>)
    requires a != []
    ensures (|a| - 1 - Duplicates(a) + Missing(a)) % 256 == (a[|a| - 1].msg.seqNo - a[0].msg.seqNo) % 256
  {
    if |a| > 1 {
      var p := a[..|a| - 1];
      SequenceLedger(p);
      CongruentSum(|p| - 1 - Duplicates(p) + Missing(p), p[|p| - 1].msg.seqNo - a[0].msg.seqNo,
                   a[|a| - 1].msg.seqNo - p[|p| - 1].msg.seqNo);
    }
  }

  lemma CongruentSum(x: int, y: int, d: int)
    requires x % 256 == y % 256
    ensures (x + d % 256) % 256 == (y + d) % 256
  {}

  /** The same on the controller's own counters. */
  lemma LedgerOfController(c: RoverController)
    requires c.Valid() && c.haveControl
    ensures var a := Accepts(c.trace);
            (c.controlFramesAccepted - 1 - Duplicates(a) + c.framesLostEstimate) % 256
              == (c.lastSeq - a[0].msg.seqNo) % 256
  {
    hide Accepts, Chronological, LastDegraded, LastVerdict, CrcError, ProtocolError, SeqGap, GapsSeen, Missing,
      CountBadCrc, Duplicates, Wrap32, PollAll;
    var a := Accepts(c.trace);
    SequenceLedger(a);
    LedgerWraps(|a|, Duplicates(a), Missing(a));
  }

  lemma LedgerWraps(n: int, d: int, m: int)
    ensures (Wrap32(n) - 1 - d + Wrap32(m)) % 256 == (n - 1 - d + m) % 256
  {
    assert n == 0x1_0000_0000 * (n / 0x1_0000_0000) + Wrap32(n);
    assert m == 0x1_0000_0000 * (m / 0x1_0000_0000) + Wrap32(m);
    SameLowByte(Wrap32(n) - 1 - d + Wrap32(m), 0x100_0000 * (n / 0x1_0000_0000 + m / 0x1_0000_0000));
  }

  /** Frame i carries the number of its sending, as the Jetson stamps it: modulo 256. */
  ghost predicate Stamped(a: seq<Receipt>, sent: seq<nat>) {
    && |a| == |sent|
    && (forall i | 0 <= i < |a| :: a[i].msg.seqNo == sent[i] % 256)
    && forall i | 0 < i < |sent| :: Apart(sent, i) > 0
  }

  function Apart(sent: seq<nat>, i: nat): int
    requires 0 < i < |sent|
  {
    var k: int := sent[i];
    k - sent[i - 1]
  }

  /** Fewer than 255 frames in a row were lost. */
  ghost predicate ShortLosses(sent: seq<nat>) {
    forall i | 0 < i < |sent| :: Apart(sent, i) <= 255
  }

  /**
   * On a channel that keeps order and does not duplicate, the loss estimate
   * never exceeds the frames lost between the first and the last accepted one,
   * and equals it exactly when no loss run reached 255 frames.
   */
  lemma {:induction false} LossEstimate(a: seq<Receipt>, sent: seq<nat>)
    requires a != [] && Stamped(a, sent)
    ensures var lost := sent[|sent| - 1] - sent[0] - (|sent| - 1);
            Missing(a) <= lost && (Missing(a) == lost <==> ShortLosses(sent))
    ensures ShortLosses(sent) ==> Duplicates(a) == 0
  {
    hide SeqDelta, Stamped, ShortLosses;
    if |a| == 1 {
      OneSent(a, sent);
    } else {
      var n := |a| - 1;
      StampedPrefix(a, sent);
      LossEstimate(a[..n], sent[..n]);
      GapOf(sent[n - 1], sent[n]);
    }
  }

  lemma OneSent(a: seq<Receipt>, sent: seq<nat>)
    requires |a| == 1 && Stamped(a, sent)
    ensures |sent| == 1 && ShortLosses(sent)
  {}

  lemma StampedPrefix(a: seq<Receipt>, sent: seq<nat>)
    requires |a| > 1 && Stamped(a, sent)
    ensures |sent| == |a|
    ensures var n := |a| - 1;
            && Stamped(a[..n], sent[..n])
            && sent[n - 1] < sent[n] && DeltaAt(a, n) == SeqDelta(sent[n - 1] % 256, sent[n] % 256)
            && (ShortLosses(sent) <==> ShortLosses(sent[..n]) && sent[n] - sent[n - 1] <= 255)
  {
    hide SeqDelta;
    var n := |a| - 1;
    assert Apart(sent, n) > 0;
    forall i | 0 < i < n
      ensures Apart(sent[..n], i) == Apart(sent, i)
    {
    }
  }

  lemma GapOf(j: nat, k: nat)
    requires j < k
    ensures var d := SeqDelta(j % 256, k % 256);
            && d == (k - j) % 256 && (d == k - j <==> k - j <= 255)
            && (d > 1 ==> d <= k - j) && (k - j <= 255 ==> d > 0)
  {
    var q, r := j / 256, k / 256;
    assert k % 256 - j % 256 == (k - j) + 256 * (q - r);
    SameLowByte(k - j, q - r);
  }

  // --- counters --------------------------------------------------------------

  /**
   * What the controller's counters say about the frames it received: how many
   * were accepted, ignored, out of sequence and spoilt by their CRC, modulo 2^32,
   * and which verdict the last one with the CONTROL identifier got.
   */
  lemma CountersOfController(c: RoverController)
    requires c.Valid()
    ensures c.controlFramesAccepted == Wrap32(|Rules.AcceptedAt(c.trace)|)
    ensures c.framesIgnored == Wrap32(|c.trace| - |Rules.AcceptedAt(c.trace)|)
    ensures c.seqGapsSeen == Wrap32(|Rules.SkippedAt(c.trace)|) && c.crcErrorsSeen == Wrap32(|Rules.BadCrcAt(c.trace)|)
    ensures c.seqGap <==> Rules.LastSkips(c.trace)
    ensures c.crcError <==> Rules.RejectedSince(c.trace, true)
    ensures c.protocolError <==> Rules.RejectedSince(c.trace, false)
    ensures forall i: nat | i < |c.trace| && c.trace[i].id == 0x100
                            && forall j | i < j < |c.trace| :: c.trace[j].id != 0x100 ::
              c.lastDecode == ControlVerdict(0x100, c.trace[i].frame)
    ensures (forall i: nat | i < |c.trace| :: c.trace[i].id != 0x100) ==> c.lastDecode == DECODE_OK
  {
    hide Accepts, Chronological, LastDegraded, LastVerdict, CrcError, ProtocolError, SeqGap, GapsSeen, Missing,
      CountBadCrc, Wrap32, PollAll, Rules.AcceptedAt, Rules.SkippedAt, Rules.BadCrcAt, Rules.LastSkips,
      Rules.RejectedSince, ControlVerdict;
    Rules.CountRule(c.trace);
    Rules.VerdictRule(c.trace);
    Rules.GapAtLast(c.trace);
    Rules.RejectionsSince(c.trace);
  }

  // --- reports ---------------------------------------------------------------

  /**
   * All reports about the Jetson agree: timed out, link LOST, and a command age
   * at or over the timeout are the same thing, and then the light shows FAULT,
   * C2 is not reported and the outputs are zero. The age agrees for every link
   * exactly when the timeout can be told apart from a saturated age.
   */
  lemma ReportsAgree(timeout: u32, degraded: bool)
    ensures (forall l: Link | l.Heard? ==> l.age >= 0 :: Tripped(l, timeout) <==> CmdAge(l) >= timeout)
       <==> timeout <= 65534
    ensures forall l: Link :: Tripped(l, timeout) <==> JetsonState(l, timeout, degraded) == LINK_LOST
    ensures forall l: Link :: Tripped(l, timeout) <==> C2State(l, timeout) == LINK_NOT_REPORTED
    ensures forall l: Link | Tripped(l, timeout) ::
              Indicator(l, timeout) == INDICATOR_FAULT && Outputs(l, timeout) == (0, 0)
    ensures forall l: Link :: CmdAge(l) == 0xFFFF <==> l.Silent?
  {
    if timeout > 65534 {
      var l := Heard(BOOT_CONTROL, timeout);
      assert Tripped(l, timeout) && CmdAge(l) < timeout;
    }
  }

  /** The light of a rover that may move tells its mode, and FAULT is never shown by one. */
  lemma LightTellsMode(l: Link, timeout: u32)
    requires MayMove(l, timeout)
    ensures Indicator(l, timeout) == INDICATOR_TELEOP <==> l.msg.mode == MODE_MANUAL
    ensures Indicator(l, timeout) in {INDICATOR_AUTONOMOUS, INDICATOR_ARRIVED} <==> l.msg.mode == MODE_AUTONOMOUS
    ensures Indicator(l, timeout) == INDICATOR_ARRIVED
       <==> l.msg.mode == MODE_AUTONOMOUS && l.msg.indicatorRequest == INDICATOR_ARRIVED
  {}

  /** Coherence in every reachable state of the controller, at one reading of the clock. */
  lemma CoherentReports(c: RoverController, w: bv16, base: bv16, degraded: bool)
    requires c.Valid() && c.watchdogTimeoutMs <= 65534
    requires c.FaultsExplained(w, base, c.clock.time, c.clock.time) && !Faults.HasFault(base, FAULT_COMM_TIMEOUT)
    ensures var lost := Faults.HasFault(w, FAULT_COMM_TIMEOUT);
            && (lost <==> JetsonState(c.Seen(), c.watchdogTimeoutMs, degraded) == LINK_LOST)
            && (lost <==> c.CmdAgeMs() >= c.watchdogTimeoutMs)
            && (lost <==> c.C2LinkState() == LINK_NOT_REPORTED)
            && (lost ==> c.IndicatorState() == INDICATOR_FAULT && c.EffectiveStop())
    ensures c.CmdAgeMs() == 0xFFFF <==> Accepts(c.trace) == []
    ensures !c.EffectiveStop() ==>
              && (c.IndicatorState() == INDICATOR_TELEOP <==> c.lastControl.mode == MODE_MANUAL)
              && (c.IndicatorState() in {INDICATOR_AUTONOMOUS, INDICATOR_ARRIVED}
                  <==> c.lastControl.mode == MODE_AUTONOMOUS)
  {
    hide Faults.HasFault, Tripped, MayMove, CmdAge, JetsonState, C2State, Indicator, Accepts, Summarize, Chronological,
      WrappedDegraded, PermitsMotion;
    var l, timeout := c.Seen(), c.watchdogTimeoutMs;
    ReportsAgree(timeout, degraded);
    LastMessage(c);
    MovingIsHeard(l, timeout);
    if MayMove(l, timeout) { LightTellsMode(l, timeout); }
  }

  lemma LastMessage(c: RoverController)
    requires c.Valid()
    ensures c.Seen().Heard? ==> c.Seen().msg == c.lastControl && c.Seen().age >= 0
    ensures c.Seen().Silent? <==> Accepts(c.trace) == []
  {
    hide Accepts;
  }

  lemma MovingIsHeard(l: Link, timeout: u32)
    ensures MayMove(l, timeout) ==> l.Heard? && !Tripped(l, timeout)
  {}

  // --- pacing ----------------------------------------------------------------

  /** A loop that polls at least once a period sends exactly one telemetry cycle a period. */
  lemma TelemetryPace(c: RoverController)
    requires c.Valid() && 0 < c.telemetryPeriodMs < TWO_31
    requires c.polls != [] && PolledWithin(c.start, c.polls, c.telemetryPeriodMs)
    ensures c.start <= Latest(c.start, c.polls)
    ensures var cycles := (Latest(c.start, c.polls) - c.start) / c.telemetryPeriodMs + 1;
            c.telemetrySeq == cycles % 256 && c.nextTelemetryMs == Wrap32(c.start + Periods(cycles, c.telemetryPeriodMs))
  {
    hide Summarize, Chronological, PollAll, PolledWithin;
    ExactPace(c.start, c.telemetryPeriodMs, c.polls);
  }
}
