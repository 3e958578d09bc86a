/** The rover keeps moving through what the link is meant to tolerate: late turns, delays and lost frames. */
module Availability {
  import opened Words
  import opened Config
  import opened Protocol
  import opened History
  import opened Pacing
  import opened Controller
  import opened Runs
  import opened Jetson
  import opened EndToEnd

  function TimesOf(log: seq<Sending>): seq<int> {
    seq(|log|, i requires 0 <= i < |log| => log[i].time)
  }

  /** Sendings follow each other at most p apart, up to now. */
  ghost predicate Paced(times: seq<int>, p: int, now: int) {
    && (forall i | 0 < i < |times| :: 0 <= Gap(times, i) <= p)
    && (times != [] ==> now - times[|times| - 1] <= p)
  }

  function Gap(times: seq<int>, i: nat): int
    requires 0 < i < |times|
  {
    times[i] - times[i - 1]
  }

  ghost predicate Arrives(s: Sending, trace: seq<Rx>, delay: int) {
    exists r | 0 <= r < |trace| :: trace[r].id == CAN_ID_CONTROL && Carries(s, trace[r], delay)
  }

  /** Of every k + 1 sendings in a row whose time to arrive is over, at least one has arrived. */
  ghost predicate AtMostLost(log: seq<Sending>, trace: seq<Rx>, k: nat, delay: int, now: int) {
    forall i: nat | i + k < |log| && log[i + k].time + delay <= now :: OneArrives(log, trace, i, k, delay)
  }

  ghost predicate OneArrives(log: seq<Sending>, trace: seq<Rx>, i: nat, k: nat, delay: int)
    requires i + k < |log|
  {
    exists j | i <= j <= i + k :: Arrives(log[j], trace, delay)
  }

  /** Every sending carries a message the controller accepts. */
  ghost predicate Acceptable(log: seq<Sending>) {
    forall i | 0 <= i < |log| :: ValidControl(log[i].msg)
  }

  // --- sending times ---------------------------------------------------------

  lemma {:induction false} Spread(times: seq<int>, p: nat, now: int, i: nat, j: nat)
    requires Paced(times, p, now) && i <= j < |times|
    ensures 0 <= times[j] - times[i] <= Periods(j - i, p)
    decreases j
  {
    hide Periods;
    OneMorePeriod(0, p);
    if i < j {
      Spread(times, p, now, i, j - 1);
      assert 0 <= Gap(times, j) <= p;
      OneMorePeriod(j - 1 - i, p);
    }
  }

  /** How many sendings were made no later than t. */
  lemma SentBy(times: seq<int>, t: int, p: nat, now: int) returns (n: nat)
    requires Paced(times, p, now)
    ensures n <= |times| && (n < |times| ==> t < times[n]) && (n > 0 ==> times[n - 1] <= t)
  {
    n := 0;
    while n < |times| && times[n] <= t
      invariant n <= |times| && (n > 0 ==> times[n - 1] <= t)
    {
      n := n + 1;
    }
  }

  /** What the delay adds to an age: the sending that would end it is already on its way. */
  function Lag(delay: nat): nat {
    if delay == 0 then 0 else delay - 1
  }

  /** The last sending whose time to arrive is over is at most one gap and the lag old. */
  lemma LastDue(times: seq<int>, p: nat, delay: nat, now: int) returns (n: nat)
    requires Paced(times, p, now)
    ensures n <= |times|
    ensures n > 0 ==> now - Lag(delay) - p <= times[n - 1] <= now - delay
    ensures n == 0 && times != [] ==> now - delay < times[0]
  {
    n := SentBy(times, now - delay, p, now);
    if 0 < n < |times| { assert 0 <= Gap(times, n) <= p; }
  }

  lemma LastNotLater(trace: seq<Rx>, now: nat)
    requires Chronological(trace, now) && Accepts(trace) != []
    ensures Accepts(trace)[|Accepts(trace)| - 1].time <= now
  {
    hide Accepts;
    AcceptsAreReceived(trace, now);
  }

  // --- the age of the last accepted frame ------------------------------------

  lemma ArrivedIsAccepted(s: Sending, trace: seq<Rx>, delay: int, now: nat)
    requires Chronological(trace, now) && Arrives(s, trace, delay) && ValidControl(s.msg)
    ensures Accepts(trace) != [] && Accepts(trace)[|Accepts(trace)| - 1].time >= s.time
  {
    hide ControlFrame, ControlVerdict, ControlFields, ValidControl, Accepts;
    var r :| 0 <= r < |trace| && trace[r].id == CAN_ID_CONTROL && Carries(s, trace[r], delay);
    DecodeOfEncode(CAN_ID_CONTROL, s.msg);
    LastAcceptedAfter(trace, r, now);
  }

  lemma {:induction false} LastAcceptedAfter(trace: seq<Rx>, r: nat, now: nat)
    requires Chronological(trace, now) && r < |trace| && Accepted(trace[r])
    ensures Accepts(trace) != [] && Accepts(trace)[|Accepts(trace)| - 1].time >= trace[r].time
  {
    hide ControlVerdict, ControlFields;
    var p, last := trace[..|trace| - 1], trace[|trace| - 1];
    if r < |p| && !Accepted(last) {
      LastAcceptedAfter(p, r, now);
    }
  }

  /** What was accepted was sent, so not before the first sending. */
  lemma NotBeforeFirst(log: seq<Sending>, trace: seq<Rx>, p: nat, delay: int, now: nat)
    requires Paced(TimesOf(log), p, now) && Channel(log, trace, delay) && Accepts(trace) != []
    ensures log != [] && Accepts(trace)[|Accepts(trace)| - 1].time >= log[0].time
  {
    hide ControlFrame, ControlVerdict, ControlFields, Accepts;
    var i := LastAccepted(trace);
    var k :| 0 <= k < |log| && Carries(log[k], trace[i], delay);
    Spread(TimesOf(log), p, now, 0, k);
  }

  /**
   * With at most k frames lost in a row, the last accepted one is never older
   * than k + 1 sending gaps and the lag, from the first acceptance on.
   */
  lemma RecentlyAccepted(log: seq<Sending>, trace: seq<Rx>, p: nat, k: nat, delay: nat, now: nat)
    requires Acceptable(log) && Paced(TimesOf(log), p, now) && AtMostLost(log, trace, k, delay, now)
    requires Channel(log, trace, delay) && Chronological(trace, now) && Accepts(trace) != []
    ensures now - Accepts(trace)[|Accepts(trace)| - 1].time <= Periods(k + 1, p) + Lag(delay)
  {
    hide ControlFrame, ValidControl, Accepts, Periods, Arrives, Paced, Channel, Chronological;
    var times := TimesOf(log);
    var n := LastDue(times, p, delay, now);
    OneMorePeriod(k, p);
    OneMorePeriod(0, p);
    PeriodsGrow(0, k, p);
    if n > k {
      var i := n - 1 - k;
      assert log[i + k].time == times[n - 1];
      assert OneArrives(log, trace, i, k, delay);
      var j :| i <= j <= i + k && Arrives(log[j], trace, delay);
      ArrivedIsAccepted(log[j], trace, delay, now);
      Spread(times, p, now, i, j);
      Spread(times, p, now, i, n - 1);
    } else {
      NotBeforeFirst(log, trace, p, delay, now);
      LastNotLater(trace, now);
      if n > 0 {
        Spread(times, p, now, 0, n - 1);
        PeriodsGrow(n - 1, k, p);
      }
    }
  }

  /** Sending i of a loop that sends every p ms, hears a heartbeat at each, and knows the base station there. */
  function Regular(i: nat, p: nat): Sending {
    Sending(Periods(i, p), i + 1, ManualCommand(300, 0, false, i + 1), i + 1)
  }

  /**
   * The bound is reached, for every gap, every k and every delay: sendings p
   * apart, the first arrives at once, the next k are lost, and the one after is
   * still on its way.
   */
  lemma BoundIsReached(p: nat, k: nat, delay: nat) returns (log: seq<Sending>, trace: seq<Rx>, now: nat)
    requires p > 0
    ensures Acceptable(log) && Numbered(log, |log|) && Truthful(log, TimesOf(log), 1)
    ensures Paced(TimesOf(log), p, now) && AtMostLost(log, trace, k, delay, now)
    ensures Channel(log, trace, delay) && Chronological(trace, now) && Accepts(trace) != []
    ensures now - Accepts(trace)[|Accepts(trace)| - 1].time == Periods(k + 1, p) + Lag(delay)
  {
    hide ControlFrame, ControlVerdict, ControlFields, Periods, ValidControl, ManualCommand, Paced, AtMostLost, Channel,
      Accepts, Arrives, TimesOf, Numbered, Truthful, Acceptable;
    OneMorePeriod(0, p);
    PeriodsGrow(0, k + 1, p);
    now := Periods(k + 1, p) + Lag(delay);
    var n := if delay == 0 then k + 1 else now / p + 1;
    if delay > 0 { CountUpTo(now, p); }
    log := seq(n, i requires 0 <= i < n => Regular(i, p));
    trace := [Rx(0, 0, CAN_ID_CONTROL, ControlFrame(CAN_ID_CONTROL, log[0].msg))];
    RegularLog(log, p);
    OneMorePeriod(k, p);
    EvenlyPaced(log, p, now);
    FirstArrives(log, trace, delay, now);
    Covered(log, trace, p, k, delay, now);
  }

  lemma CountUpTo(now: nat, p: nat)
    requires p > 0
    ensures Periods(now / p, p) <= now <= Periods(now / p + 1, p)
  {}

  lemma RegularLog(log: seq<Sending>, p: nat)
    requires log != [] && forall i | 0 <= i < |log| :: log[i] == Regular(i, p)
    ensures Acceptable(log) && Numbered(log, |log|) && Truthful(log, TimesOf(log), 1)
  {
    hide Periods, ValidControl;
    var beats := TimesOf(log);
    forall i | 0 <= i < |log|
      ensures ValidControl(log[i].msg) && log[i].msg.mode == MODE_MANUAL && !log[i].msg.stop && log[i].heard <= |beats|
      ensures log[i].msg.c2Lost == LostAt(beats[..log[i].heard], log[i].time, 1)
      ensures log[i].msg.seqNo == log[i].number % 256 && log[i].number <= |log|
    {
      assert beats[..i + 1][i] == log[i].time;
    }
  }

  lemma EvenlyPaced(log: seq<Sending>, p: nat, now: int)
    requires log != [] && Periods(|log| - 1, p) <= now <= Periods(|log|, p)
    requires forall i | 0 <= i < |log| :: log[i].time == Periods(i, p)
    ensures Paced(TimesOf(log), p, now)
  {
    hide Periods;
    var times := TimesOf(log);
    forall i | 0 < i < |times|
      ensures Gap(times, i) == p
    {
      OneMorePeriod(i - 1, p);
    }
    OneMorePeriod(|log| - 1, p);
  }

  /** Only windows that start with the first sending are over. */
  lemma Covered(log: seq<Sending>, trace: seq<Rx>, p: nat, k: nat, delay: nat, now: int)
    requires now == Periods(k + 1, p) + Lag(delay) && (delay == 0 ==> |log| == k + 1)
    requires forall i | 0 <= i < |log| :: log[i].time == Periods(i, p)
    requires log != [] && Arrives(log[0], trace, delay)
    ensures AtMostLost(log, trace, k, delay, now)
  {
    hide Periods, Arrives;
    forall i: nat | i + k < |log| && log[i + k].time + delay <= now
      ensures OneArrives(log, trace, i, k, delay)
    {
      if i > 0 {
        PeriodsGrow(k + 1, i + k, p);
        assert false;
      }
    }
  }

  lemma FirstArrives(log: seq<Sending>, trace: seq<Rx>, delay: nat, now: nat)
    requires log != [] && log[0].time == 0 && ValidControl(log[0].msg)
    requires trace == [Rx(0, 0, CAN_ID_CONTROL, ControlFrame(CAN_ID_CONTROL, log[0].msg))]
    ensures Arrives(log[0], trace, delay) && Channel(log, trace, delay) && Chronological(trace, now)
    ensures Accepts(trace) == [Receipt(0, log[0].msg)]
  {
    hide ControlFrame, ValidControl, Accepts, Accepted;
    OneAccepted(0, log[0].msg);
    assert Carries(log[0], trace[0], delay);
  }

  // --- the sending loop and the controller -----------------------------------

  lemma DriverIsPaced(d: Driver, g: nat, now: nat)
    requires d.Valid() && d.turns != [] && PolledWithin(d.start, d.turns, g + 1)
    requires Latest(d.start, d.turns) <= now <= Latest(d.start, d.turns) + g
    ensures Acceptable(d.link.log) && d.link.log != [] && Paced(TimesOf(d.link.log), d.period + g, now)
  {
    hide IdealAll, Firings, ValidControl, LostAt;
    var times, f := TimesOf(d.link.log), Firings(d.start, d.period, d.turns);
    FiringGaps(d.start, d.period, d.turns, g);
    forall i | 0 < i < |times|
      ensures 0 <= Gap(times, i) <= d.period + g
    {
      assert Gap(times, i) == Step(f, i);
    }
  }

  /** The message in force: the one last accepted, which was sent at most `age` ago. */
  ghost predicate InForce(log: seq<Sending>, m: ControlMsg, now: int, age: int) {
    exists i | 0 <= i < |log| :: log[i].msg == m && now - log[i].time <= age
  }

  /**
   * Turns of the sending loop come at most g apart, at most k frames are lost in
   * a row, and those that arrive take at most `delay`: if (k + 1) sending gaps
   * and the lag fit below the watchdog timeout, the watchdog never trips after
   * the first acceptance, and the outputs are always those of a recent command.
   */
  lemma StaysAlive(d: Driver, c: RoverController, g: nat, k: nat, delay: nat)
    requires d.Valid() && c.Valid() && Channel(d.link.log, c.trace, delay) && Accepts(c.trace) != []
    requires d.turns != [] && PolledWithin(d.start, d.turns, g + 1)
    requires Latest(d.start, d.turns) <= c.clock.time <= Latest(d.start, d.turns) + g
    requires AtMostLost(d.link.log, c.trace, k, delay, c.clock.time)
    requires Periods(k + 1, d.period + g) + Lag(delay) < c.watchdogTimeoutMs
    ensures !c.WatchdogTripped()
    ensures var m := c.lastControl;
            && InForce(d.link.log, m, c.clock.time, Periods(k + 1, d.period + g) + Lag(delay) + delay)
            && Outputs(c.Seen(), c.watchdogTimeoutMs) == if m.c2Lost then (0, 0) else (m.driveCmd, m.steerCmd)
    ensures |d.link.log| == |d.given|
    ensures var (drive, steer) := Outputs(c.Seen(), c.watchdogTimeoutMs);
            GivenLately(d.link.log, d.given, d.monitor.beats, d.monitor.timeout, drive, steer, c.clock.time,
                        Periods(k + 1, d.period + g) + Lag(delay) + delay)
  {
    hide Accepts, Summarize, Channel, Chronological, AtMostLost, Periods, PolledWithin, Truthful, Firings, IdealAll,
      Scheduled, PollAll, InForce;
    DriverIsPaced(d, g, c.clock.time);
    InOrder(c);
    RecentlyAccepted(d.link.log, c.trace, d.period + g, k, delay, c.clock.time);
    var sent := InForceIsManual(d, c, delay, Periods(k + 1, d.period + g) + Lag(delay));
    SeenTruly(c);
    SentAsGiven(d, sent);
  }

  lemma SentAsGiven(d: Driver, k: nat)
    requires d.Valid() && k < |d.link.log|
    ensures |d.link.log| == |d.given| && d.link.log[k].heard <= |d.monitor.beats|
    ensures var s := d.link.log[k];
            && (s.msg.driveCmd, s.msg.steerCmd) == d.given[k]
            && s.msg.c2Lost == LostAt(d.monitor.beats[..s.heard], s.time, d.monitor.timeout)
  {
    hide Firings, IdealAll, Scheduled, Numbered, LostAt, ValidControl;
  }

  lemma SeenTruly(c: RoverController)
    requires c.Valid() && Accepts(c.trace) != []
    requires c.clock.time - Accepts(c.trace)[|Accepts(c.trace)| - 1].time < TWO_32
    ensures var r := Accepts(c.trace)[|Accepts(c.trace)| - 1]; c.Seen() == Heard(r.msg, c.clock.time - r.time)
  {
    hide Accepts, LastDegraded, Summarize, PollAll, Wrap32, Chronological;
    InOrder(c);
    AcceptsAreReceived(c.trace, c.clock.time);
    SmallWraps(c.clock.time - Accepts(c.trace)[|Accepts(c.trace)| - 1].time);
  }

  lemma InForceIsManual(d: Driver, c: RoverController, delay: nat, age: int) returns (k: nat)
    requires d.Valid() && c.Valid() && Channel(d.link.log, c.trace, delay) && Accepts(c.trace) != []
    requires c.clock.time - Accepts(c.trace)[|Accepts(c.trace)| - 1].time <= age
    ensures c.lastControl == Accepts(c.trace)[|Accepts(c.trace)| - 1].msg
    ensures c.lastControl.mode == MODE_MANUAL
    ensures !c.lastControl.stop
    ensures InForce(d.link.log, c.lastControl, c.clock.time, age + delay)
    ensures k < |d.link.log| && d.link.log[k].msg == c.lastControl && c.clock.time - d.link.log[k].time <= age + delay
  {
    hide ControlFrame, ControlVerdict, ControlFields, ValidControl, Accepts, Firings, IdealAll, PollAll, Commanded;
    var i := LastAccepted(c.trace);
    k :| 0 <= k < |d.link.log| && Carries(d.link.log[k], c.trace[i], delay);
    DecodeOfEncode(CAN_ID_CONTROL, d.link.log[k].msg);
    assert d.link.log[k].msg == c.lastControl;
  }

  /** The outputs are the pair given to a turn at most `age` ago, or zero if the base station was lost at that turn. */
  ghost predicate GivenLately(log: seq<Sending>, given: seq<(int, int)>, beats: seq<int>, c2Timeout: int,
                              drive: int, steer: int, now: int, age: int)
    requires |log| == |given|
  {
    exists k: nat ::
      && k < |log| && now - log[k].time <= age && log[k].heard <= |beats|
      && (drive, steer) == if LostAt(beats[..log[k].heard], log[k].time, c2Timeout) then (0, 0) else given[k]
  }
}
