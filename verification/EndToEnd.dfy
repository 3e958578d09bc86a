/** Jetson, channel and controller together: stopping times and loss counts. */
module EndToEnd {
  import opened Words
  import opened Config
  import opened Protocol
  import opened History
  import opened Controller
  import opened Runs
  import opened Jetson
  import Pacing
  import PyProtocol
  import Gf2
  import Frame

  /**
   * Frames are lost, repeated or overtaken in any pattern, but whatever the
   * controller accepts was sent, at most `delay` before it arrived.
   */
  ghost predicate Channel(log: seq<Sending>, trace: seq<Rx>, delay: int) {
    forall i | 0 <= i < |trace| && Accepted(trace[i]) ::
      exists k | 0 <= k < |log| :: Carries(log[k], trace[i], delay)
  }

  ghost predicate Carries(s: Sending, r: Rx, delay: int) {
    r.frame == ControlFrame(CAN_ID_CONTROL, s.msg) && s.time <= r.time <= s.time + delay
  }

  /** What line noise the CRC is made for does to a frame: cut short, two bits flipped, or a burst of at most eight. */
  ghost predicate Damaged(sent: seq<bv8>, received: seq<bv8>) {
    |received| != FRAME_DLC
    || (|sent| == |received|
        && (Gf2.IsBurst(Frame.Difference(sent, received))
            || exists i: nat, d: nat :: Gf2.IsPair(Frame.Difference(sent, received), i, d)))
  }

  /** Every reception on the CONTROL identifier is a sent frame in time, or one that was damaged. */
  ghost predicate NoisyChannel(log: seq<Sending>, trace: seq<Rx>, delay: int) {
    forall i | 0 <= i < |trace| && trace[i].id == CAN_ID_CONTROL ::
      exists k | 0 <= k < |log| ::
        Carries(log[k], trace[i], delay) || Damaged(ControlFrame(CAN_ID_CONTROL, log[k].msg), trace[i].frame)
  }

  /** Damage is always noticed, so on a noisy channel too whatever is accepted was sent, and in time. */
  lemma NoiseIsRejected(log: seq<Sending>, trace: seq<Rx>, delay: int)
    requires NoisyChannel(log, trace, delay)
    ensures Channel(log, trace, delay)
  {
    hide ControlFrame, ControlVerdict, Damaged;
    forall i | 0 <= i < |trace| && Accepted(trace[i])
      ensures exists k | 0 <= k < |log| :: Carries(log[k], trace[i], delay)
    {
      var k :| 0 <= k < |log|
        && (Carries(log[k], trace[i], delay) || Damaged(ControlFrame(CAN_ID_CONTROL, log[k].msg), trace[i].frame));
      if Damaged(ControlFrame(CAN_ID_CONTROL, log[k].msg), trace[i].frame) {
        DamageIsRejected(log[k].msg, trace[i].frame);
      }
    }
  }

  lemma DamageIsRejected(m: ControlMsg, received: seq<bv8>)
    requires Damaged(ControlFrame(CAN_ID_CONTROL, m), received)
    ensures ControlVerdict(CAN_ID_CONTROL, received) != DECODE_OK
  {
    hide ControlFrame, ControlFields, Frame.CrcMatches, Frame.Difference, Gf2.IsBurst, Gf2.IsPair;
    if |received| == FRAME_DLC {
      var sent := ControlFrame(CAN_ID_CONTROL, m);
      var i: nat, d: nat := 0, 0;
      if !Gf2.IsBurst(Frame.Difference(sent, received)) {
        i, d :| Gf2.IsPair(Frame.Difference(sent, received), i, d);
      }
      CorruptionRejected(CAN_ID_CONTROL, m, DriveL(0, 0), 0, sent, received, i, d);
    }
  }

  /** No heartbeat was heard after time h. */
  ghost predicate QuietAfter(beats: seq<int>, h: int) {
    forall i | 0 <= i < |beats| :: beats[i] <= h
  }

  /**
   * Once the last heartbeat is older than its timeout, the channel delay and the
   * watchdog timeout together, the rover stands still, and stays so.
   */
  lemma StopBound(log: seq<Sending>, beats: seq<int>, c2Timeout: int, trace: seq<Rx>, delay: int,
                  watchdog: u32, h: int, now: nat)
    requires Truthful(log, beats, c2Timeout) && QuietAfter(beats, h) && Channel(log, trace, delay)
    requires Chronological(trace, now) && HeardWithinClock(trace, now)
    requires now >= h + c2Timeout + delay + watchdog - 1
    ensures Outputs(WrappedLink(Accepts(trace), now), watchdog) == (0, 0)
  {
    hide ControlFrame, ControlVerdict, ControlFields, ValidControl, Outputs, Accepts, HeardWithinClock, Wrap32,
      PermitsMotion;
    var (drive, steer) := Outputs(WrappedLink(Accepts(trace), now), watchdog);
    if (drive, steer) != (0, 0) {
      MotionSafety(trace, now, watchdog, drive, steer);
      var i, m :| 0 <= i < |trace| && Commands(trace, i, now, watchdog, m)
        && m.driveCmd == drive && m.steerCmd == steer;
      DecodeOfEncode(CAN_ID_CONTROL, m);
      TrueAge(trace, i, now);
      var k :| 0 <= k < |log| && Carries(log[k], trace[i], delay);
      DecodeOfEncode(CAN_ID_CONTROL, log[k].msg);
      assert log[k].msg == m;
      ManualAndLost(m, beats[..log[k].heard], h, log[k].time, c2Timeout);
      assert false;
    }
  }

  /** Within the clock's range the last accepted frame's age on the clock is its true age. */
  lemma TrueAge(trace: seq<Rx>, i: nat, now: nat)
    requires Chronological(trace, now) && HeardWithinClock(trace, now)
    requires i < |trace| && Accepted(trace[i]) && forall j | i < j < |trace| :: !Accepted(trace[j])
    ensures Wrap32(now - trace[i].time) == now - trace[i].time
  {
    hide ControlVerdict, ControlFields, Accepts, LastDegraded;
    AcceptedLast(trace, i);
  }

  lemma ManualAndLost(m: ControlMsg, heard: seq<int>, h: int, sent: int, c2Timeout: int)
    requires m.mode == MODE_MANUAL && m.c2Lost == LostAt(heard, sent, c2Timeout)
    requires QuietAfter(heard, h) && sent >= h + c2Timeout
    ensures !PermitsMotion(m)
  {}

  /** Sendings at h and just before the heartbeat of h times out, as the loop makes them when polled then. */
  predicate LastWords(log: seq<Sending>, h: nat, c2Timeout: nat) {
    c2Timeout > 0
    && log == [Sending(h, 1, ManualCommand(300, 0, false, 1), 1),
               Sending(h + c2Timeout - 1, 2, ManualCommand(300, 0, false, 2), 1)]
  }

  /** The sending loop reaches that: a heartbeat at its first turn, none at the second. */
  method TwoTurns(h: nat, c2Timeout: nat, period: u32) returns (d: Driver)
    requires period < c2Timeout
    ensures d.Valid() && d.monitor.timeout == c2Timeout && d.monitor.beats == [h] && LastWords(d.link.log, h, c2Timeout)
  {
    hide Truthful, PyProtocol.Raw, ControlFrame, ControlVerdict, ControlFields, Pacing.Firings, Pacing.IdealAll, Scheduled,
      Numbered, ManualCommand, Commanded, ValidControl;
    d := new Driver(period, c2Timeout, h, true);
    var first := d.Turn(h, ["heartbeat"], 300, 0);
    assert d.monitor.beats == [h];
    var second := d.Turn(h + c2Timeout - 1, [], 300, 0);
    assert d.monitor.beats == [h];
  }

  /**
   * The bound is met by no smaller number: with the last sending of that loop
   * delivered as late as the channel allows, one millisecond earlier the rover
   * is still moving.
   */
  lemma StopBoundIsTight(d: Driver, c2Timeout: nat, delay: nat, watchdog: u32, h: nat, now: nat, trace: seq<Rx>)
    requires d.Valid() && d.monitor.timeout == c2Timeout && d.monitor.beats == [h]
    requires LastWords(d.link.log, h, c2Timeout)
    requires watchdog > 0 && now == h + c2Timeout + delay + watchdog - 2
    requires var arrival := h + c2Timeout - 1 + delay;
             trace == [Rx(arrival, arrival, CAN_ID_CONTROL, ControlFrame(CAN_ID_CONTROL, d.link.log[1].msg))]
    ensures Truthful(d.link.log, d.monitor.beats, c2Timeout) && QuietAfter(d.monitor.beats, h)
    ensures Channel(d.link.log, trace, delay) && Chronological(trace, now) && HeardWithinClock(trace, now)
    ensures Outputs(WrappedLink(Accepts(trace), now), watchdog) == (300, 0)
  {
    hide ControlFrame, Accepts, Accepted, ValidControl, Wrap32, Truthful, Pacing.Firings, Pacing.IdealAll, Scheduled,
      Numbered;
    OneAccepted(h + c2Timeout - 1 + delay, d.link.log[1].msg);
    assert Carries(d.link.log[1], trace[0], delay);
    SmallWraps(watchdog - 1);
  }

  /** The stop bound for the sending loop and the controller as they are. */
  lemma RoverStops(d: Driver, c: RoverController, delay: int, h: int)
    requires d.Valid() && c.Valid() && Channel(d.link.log, c.trace, delay)
    requires QuietAfter(d.monitor.beats, h) && HeardWithinClock(c.trace, c.clock.time)
    requires c.clock.time >= h + d.monitor.timeout + delay + c.watchdogTimeoutMs - 1
    ensures Outputs(c.Seen(), c.watchdogTimeoutMs) == (0, 0)
  {
    hide Summarize, Chronological, WrappedLink, Outputs, Accepts, Channel, QuietAfter, HeardWithinClock, Truthful;
    InOrder(c);
    StopBound(d.link.log, d.monitor.beats, d.monitor.timeout, c.trace, delay, c.watchdogTimeoutMs, h, c.clock.time);
  }

  /** A Jetson with no base-station link to watch never makes the rover move, at any time, however long. */
  lemma UnwatchedNeverMoves(d: Driver, c: RoverController, delay: int)
    requires d.Valid() && !d.watchesC2 && c.Valid() && Channel(d.link.log, c.trace, delay)
    ensures Outputs(c.Seen(), c.watchdogTimeoutMs) == (0, 0)
  {
    hide ControlFrame, ControlVerdict, ControlFields, ValidControl, Outputs, Accepts, Summarize, Chronological, Wrap32,
      WrappedLink, PermitsMotion;
    var (drive, steer) := Outputs(c.Seen(), c.watchdogTimeoutMs);
    if (drive, steer) != (0, 0) {
      MotionSafety(c.trace, c.clock.time, c.watchdogTimeoutMs, drive, steer);
      var i, m :| 0 <= i < |c.trace| && Commands(c.trace, i, c.clock.time, c.watchdogTimeoutMs, m)
        && m.driveCmd == drive && m.steerCmd == steer;
      DecodeOfEncode(CAN_ID_CONTROL, m);
      var k :| 0 <= k < |d.link.log| && Carries(d.link.log[k], c.trace[i], delay);
      DecodeOfEncode(CAN_ID_CONTROL, d.link.log[k].msg);
      assert false;
    }
  }

  /** The accepted messages are the sendings with these indices, in order and without repetition. */
  ghost predicate InOrderVia(log: seq<Sending>, a: seq<Receipt>, via: seq<nat>) {
    && |via| == |a|
    && (forall i | 0 <= i < |a| :: via[i] < |log| && log[via[i]].msg == a[i].msg)
    && forall i, j | 0 <= i < j < |a| :: via[i] < via[j]
  }

  function NumbersOf(log: seq<Sending>, via: seq<nat>): seq<nat>
    requires forall i | 0 <= i < |via| :: via[i] < |log|
  {
    seq(|via|, i requires 0 <= i < |via| => log[via[i]].number)
  }

  /**
   * On a channel that keeps order and does not repeat, what the sequence numbers
   * show as missing between the first and the last accepted frame is never more
   * than was lost, and all of it exactly when fewer than 255 were lost in a row.
   * The controller's counter has it modulo 2^32; below 2^32 losses the counter
   * is right exactly under that condition.
   */
  lemma LossesCounted(d: Driver, c: RoverController, via: seq<nat>)
    requires d.Valid() && c.Valid() && c.haveControl && InOrderVia(d.link.log, Accepts(c.trace), via)
    ensures var numbers := NumbersOf(d.link.log, via);
            var lost := numbers[|via| - 1] - numbers[0] - (|via| - 1);
            && c.framesLostEstimate == Wrap32(Missing(Accepts(c.trace)))
            && Missing(Accepts(c.trace)) <= lost
            && (Missing(Accepts(c.trace)) == lost <==> ShortLosses(numbers))
            && (lost < TWO_32 ==> (c.framesLostEstimate == lost <==> ShortLosses(numbers)))
  {
    hide Accepts, Chronological, LastDegraded, LastVerdict, CrcError, ProtocolError, SeqGap, GapsSeen, Missing,
      CountBadCrc, Truthful, ShortLosses, Scheduled, Pacing.Firings, Pacing.IdealAll, Pacing.PollAll, Wrap32;
    var a, numbers := Accepts(c.trace), NumbersOf(d.link.log, via);
    StampedNumbers(d.link.log, d.link.drawn, a, via);
    LossEstimate(a, numbers);
    SmallWraps(Missing(a));
    SmallWraps(numbers[|via| - 1] - numbers[0] - (|via| - 1));
  }

  /** Each accepted message was sent at most `delay` before it was accepted. */
  ghost predicate ArrivesWithin(log: seq<Sending>, a: seq<Receipt>, via: seq<nat>, delay: int)
    requires InOrderVia(log, a, via)
  {
    forall i | 0 <= i < |a| :: log[via[i]].time <= a[i].time <= log[via[i]].time + delay
  }

  /** The watchdog does not trip between one accepted frame and the next. */
  ghost predicate NeverTrips(a: seq<Receipt>, watchdog: u32) {
    forall i | 0 < i < |a| :: Silence(a, i) < watchdog
  }

  function Silence(a: seq<Receipt>, i: nat): int
    requires 0 < i < |a|
  {
    var t: int := a[i].time;
    t - a[i - 1].time
  }

  /**
   * 256 frames take at least 254 sending periods to send, so while the watchdog
   * does not trip no loss is long enough to hide in the sequence number: the
   * estimate is exact, whatever was lost.
   */
  lemma LossesCountedWhileAlive(d: Driver, c: RoverController, via: seq<nat>, delay: nat)
    requires d.Valid() && c.Valid() && c.haveControl && InOrderVia(d.link.log, Accepts(c.trace), via)
    requires ArrivesWithin(d.link.log, Accepts(c.trace), via, delay)
    requires NeverTrips(Accepts(c.trace), c.watchdogTimeoutMs)
    requires c.watchdogTimeoutMs + delay <= Pacing.Periods(254, d.period)
    ensures var numbers := NumbersOf(d.link.log, via);
            var lost := numbers[|via| - 1] - numbers[0] - (|via| - 1);
            ShortLosses(numbers) && Missing(Accepts(c.trace)) == lost && c.framesLostEstimate == Wrap32(lost)
  {
    hide Accepts, Missing, Wrap32, Truthful, Pacing.Firings, Pacing.IdealAll, Pacing.PollAll, Summarize, Chronological,
      Numbered, RoverController.Valid, Pacing.Periods, Stamped;
    LossesCounted(d, c, via);
    var a, log, numbers := Accepts(c.trace), d.link.log, NumbersOf(d.link.log, via);
    forall i | 0 < i < |numbers|
      ensures Apart(numbers, i) <= 255
    {
      var j, k := via[i - 1], via[i];
      assert Silence(a, i) < c.watchdogTimeoutMs;
      Pacing.FiringsTakeTime(d.start, d.period, d.turns, j, k);
      if k - j >= 256 { Pacing.PeriodsGrow(254, k - j - 2, d.period); }
    }
  }

  lemma StampedNumbers(log: seq<Sending>, last: nat, a: seq<Receipt>, via: seq<nat>)
    requires Numbered(log, last) && InOrderVia(log, a, via)
    ensures Stamped(a, NumbersOf(log, via))
  {
    var numbers := NumbersOf(log, via);
    forall i | 0 < i < |numbers|
      ensures Apart(numbers, i) > 0
    {
      assert via[i - 1] < via[i];
    }
  }
}
