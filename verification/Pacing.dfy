/**
 * The self-pacing telemetry schedule of RoverController::telemetryDue,
 * firmware/src/rover_controller.cpp, and what it guarantees over whole runs.
 */
module Pacing {
  import opened Words

  /** The scheduler's fields: the wrapped deadline and the telemetry sequence number. */
  datatype Pacer = Pacer(next: u32, seqNo: u8)

  /** One poll on the 32-bit clock. */
  function Poll(p: Pacer, now: u32, period: u32): (Pacer, bool) {
    if Signed32(Sub32(now, p.next)) < 0 then (p, false)
    else
      var next := Add32(p.next, period);
      var stalled := Signed32(Sub32(now, next)) > Signed32(period);
      (Pacer(if stalled then Add32(now, period) else next, (p.seqNo + 1) % 256), true)
  }

  /** The scheduler after polls at the given unbounded times, and how often it fired. */
  function PollAll(start: nat, period: u32, polls: seq<nat>): (Pacer, nat) {
    if polls == [] then (Pacer(Wrap32(start), 0), 0)
    else
      var (p, fires) := PollAll(start, period, polls[..|polls| - 1]);
      var (p', due) := Poll(p, Wrap32(polls[|polls| - 1]), period);
      (p', if due then fires + 1 else fires)
  }

  lemma PollAllSnoc(start: nat, period: u32, polls: seq<nat>, now: nat)
    ensures var (p, fires) := PollAll(start, period, polls);
            var (p', due) := Poll(p, Wrap32(now), period);
            PollAll(start, period, polls + [now]) == (p', if due then fires + 1 else fires)
  {
    hide Poll, Wrap32;
    assert (polls + [now])[..|polls|] == polls;
  }

  /** The same schedule with a deadline that never wraps. */
  function IdealPoll(next: int, now: nat, period: u32): (int, bool) {
    if now < next then (next, false)
    else if now - (next + period) > period then (now + period, true)
    else (next + period, true)
  }

  function IdealAll(start: nat, period: u32, polls: seq<nat>): (int, nat) {
    if polls == [] then (start, 0)
    else
      var (next, fires) := IdealAll(start, period, polls[..|polls| - 1]);
      var (next', due) := IdealPoll(next, polls[|polls| - 1], period);
      (next', if due then fires + 1 else fires)
  }

  /** The length of k periods. */
  function Periods(k: int, period: int): int {
    k * period
  }

  lemma OneMorePeriod(k: int, period: int)
    ensures Periods(k + 1, period) == Periods(k, period) + period && Periods(0, period) == 0
  {}

  lemma PeriodsGrow(j: int, k: int, period: nat)
    requires j <= k
    ensures Periods(j, period) <= Periods(k, period)
  {
    assert j * period <= k * period;
  }

  lemma NextSeqNo(fires: nat)
    ensures (fires % 256 + 1) % 256 == (fires + 1) % 256
  {}

  /** The clock value before poll i. */
  function Before(start: nat, polls: seq<nat>, i: nat): nat
    requires i < |polls|
  {
    if i == 0 then start else polls[i - 1]
  }

  /** Polls come in order, the first no earlier than the start, and each less than `gap` after the one before. */
  ghost predicate PolledWithin(start: nat, polls: seq<nat>, gap: int) {
    forall i | 0 <= i < |polls| :: Before(start, polls, i) <= polls[i] < Before(start, polls, i) + gap
  }

  function Latest(start: nat, polls: seq<nat>): nat {
    if polls == [] then start else polls[|polls| - 1]
  }

  lemma PolledWithinPrefix(start: nat, polls: seq<nat>, gap: int)
    requires polls != [] && PolledWithin(start, polls, gap)
    ensures PolledWithin(start, polls[..|polls| - 1], gap)
    ensures var t := polls[|polls| - 1]; var u := Latest(start, polls[..|polls| - 1]); u <= t < u + gap
  {
    var q := polls[..|polls| - 1];
    assert Before(start, polls, |q|) == Latest(start, q);
    forall i | 0 <= i < |q|
      ensures Before(start, q, i) <= q[i] < Before(start, q, i) + gap
    {
      assert Before(start, q, i) == Before(start, polls, i) && q[i] == polls[i];
    }
  }

  // --- the wrapped schedule refines the ideal one ----------------------------

  /** Where the ideal deadline can be after a poll at time t. */
  lemma {:induction false} DeadlineNear(start: nat, period: u32, polls: seq<nat>, gap: int)
    requires PolledWithin(start, polls, gap)
    ensures var (next, fires) := IdealAll(start, period, polls); var t := Latest(start, polls);
            t - period <= next <= t + period && start + Periods(fires, period) <= next
    ensures start <= Latest(start, polls)
  {
    hide Periods;
    OneMorePeriod(0, period);
    if polls != [] {
      var q := polls[..|polls| - 1];
      PolledWithinPrefix(start, polls, gap);
      DeadlineNear(start, period, q, gap);
      OneMorePeriod(IdealAll(start, period, q).1, period);
    }
  }

  lemma WrappedPoll(p: Pacer, next: int, now: nat, period: u32)
    requires p.next == Wrap32(next)
    requires now - next < TWO_31 && next - now <= period && 0 < period < TWO_31
    ensures var (p', due) := Poll(p, Wrap32(now), period);
            var (next', idealDue) := IdealPoll(next, now, period);
            due == idealDue && p'.next == Wrap32(next')
            && p'.seqNo == if due then (p.seqNo + 1) % 256 else p.seqNo
  {
    hide Signed32, Sub32, Wrap32;
    SignedDifference(now, next);
    if now >= next {
      SumWraps(next, period);
      SumWraps(now, period);
      SignedDifference(now, next + period);
      assert Signed32(period) == period by { SmallIsPositive(period); }
    }
  }

  /**
   * Exactly where the 32-bit schedule goes wrong: a deadline passed so long ago
   * that the signed difference turns negative is taken for one still to come.
   */
  lemma PollLapse(p: Pacer, next: int, now: nat, period: u32)
    requires p.next == Wrap32(next) && next - now <= period && 0 < period < TWO_31
    ensures Poll(p, Wrap32(now), period).1 != IdealPoll(next, now, period).1
       <==> now - next >= TWO_31 && Wrap32(now - next) >= TWO_31
  {
    hide Wrap32;
    DifferenceWraps(now, next);
    if now - next < TWO_31 {
      WrappedPoll(p, next, now, period);
    }
  }

  /**
   * When the next firing comes: after a poll that fired, a later poll fires from
   * one period after the old deadline on, or, when that poll was more than two
   * periods late, from one period after itself on.
   */
  lemma NextFiring(p: Pacer, next: int, now: nat, t: nat, period: u32)
    requires p.next == Wrap32(next) && 0 < period < TWO_31
    requires next <= now <= t && now - next < TWO_31 && t - now < TWO_31 - period
    ensures var (p', due) := Poll(p, Wrap32(now), period);
            && due
            && (Poll(p', Wrap32(t), period).1
                <==> t >= if now - next > 2 * period then now + period else next + period)
  {
    hide Poll, Wrap32;
    WrappedPoll(p, next, now, period);
    WrappedPoll(Poll(p, Wrap32(now), period).0, IdealPoll(next, now, period).0, t, period);
  }

  /** A loop that stalls for 2^31 ms misses a deadline it should long have met. */
  lemma StallOfHalfAWrap()
    ensures !Poll(Pacer(50, 1), Wrap32(TWO_31 + 50), 50).1 && IdealPoll(50, TWO_31 + 50, 50).1
  {}

  lemma SmallIsPositive(a: u32)
    requires a < TWO_31
    ensures Signed32(a) == a
  {}

  /**
   * As long as poll gap + period stays below 2^31, the 32-bit schedule answers
   * every poll as the unbounded one does, across any number of clock wraps.
   */
  lemma {:induction false} WrappedRefinesIdeal(start: nat, period: u32, polls: seq<nat>)
    requires 0 < period < TWO_31 && PolledWithin(start, polls, TWO_31 - period)
    ensures var (p, fires) := PollAll(start, period, polls);
            var (next, idealFires) := IdealAll(start, period, polls);
            fires == idealFires && p.next == Wrap32(next) && p.seqNo == fires % 256
  {
    hide Poll, IdealPoll, Wrap32, Periods;
    if polls != [] {
      var q, now := polls[..|polls| - 1], polls[|polls| - 1];
      PolledWithinPrefix(start, polls, TWO_31 - period);
      WrappedRefinesIdeal(start, period, q);
      DeadlineNear(start, period, q, TWO_31 - period);
      WrappedPoll(PollAll(start, period, q).0, IdealAll(start, period, q).0, now, period);
      NextSeqNo(PollAll(start, period, q).1);
    }
  }

  // --- counting --------------------------------------------------------------

  /** Total firings by time t never exceed one per elapsed period, plus the first. */
  lemma {:induction false} NeverTooMany(start: nat, period: u32, polls: seq<nat>)
    requires 0 < period < TWO_31 && PolledWithin(start, polls, TWO_31 - period)
    ensures PollAll(start, period, polls).1 <= (Latest(start, polls) - start) / period + 1
    ensures start <= Latest(start, polls)
  {
    hide PollAll, IdealAll, Periods;
    WrappedRefinesIdeal(start, period, polls);
    DeadlineNear(start, period, polls, TWO_31 - period);
    var fires: int := PollAll(start, period, polls).1;
    OneMorePeriod(fires - 1, period);
    Quotient(fires - 1, Latest(start, polls) - start, period);
  }

  lemma Quotient(k: int, d: nat, period: u32)
    requires period > 0
    ensures Periods(k, period) <= d <==> k <= d / period
  {
    var q := d / period;
    assert q * period <= d < (q + 1) * period;
    if k <= q { assert k * period <= q * period; } else { assert (q + 1) * period <= k * period; }
  }

  /**
   * Polled at least once a period, the schedule fires exactly once a period:
   * after a poll at time t it has fired floor((t - start) / period) + 1 times,
   * its deadline is on the grid, and the sequence number counts the firings.
   */
  lemma ExactPace(start: nat, period: u32, polls: seq<nat>)
    requires 0 < period < TWO_31 && polls != [] && PolledWithin(start, polls, period)
    ensures start <= Latest(start, polls)
    ensures var (p, fires) := PollAll(start, period, polls);
            fires == (Latest(start, polls) - start) / period + 1
            && p == Pacer(Wrap32(start + Periods(fires, period)), fires % 256)
  {
    hide PollAll, IdealAll, Periods, Wrap32;
    OnGrid(start, period, polls);
    DeadlineNear(start, period, polls, period);
    var fires: int, d := PollAll(start, period, polls).1, Latest(start, polls) - start;
    OneMorePeriod(fires - 1, period);
    Quotient(fires - 1, d, period);
    Quotient(fires, d, period);
  }

  lemma {:induction false} OnGrid(start: nat, period: u32, polls: seq<nat>)
    requires 0 < period < TWO_31 && PolledWithin(start, polls, period)
    ensures var (p, fires) := PollAll(start, period, polls);
            var (next, idealFires) := IdealAll(start, period, polls);
            var t := Latest(start, polls);
            fires == idealFires && p == Pacer(Wrap32(next), fires % 256) && next == start + Periods(fires, period)
            && if polls == [] then next == t else t < next <= t + period
  {
    hide Poll, Periods, Wrap32;
    OneMorePeriod(0, period);
    if polls != [] {
      var q, now := polls[..|polls| - 1], polls[|polls| - 1];
      PolledWithinPrefix(start, polls, period);
      OnGrid(start, period, q);
      var (p, fires) := PollAll(start, period, q);
      var next := IdealAll(start, period, q).0;
      OneMorePeriod(fires, period);
      NextSeqNo(fires);
      WrappedPoll(p, next, now, period);
    }
  }

  // --- spacing of the firings ------------------------------------------------

  /** The polls that fire, on the deadline that never wraps. */
  function Firings(start: nat, period: u32, polls: seq<nat>): seq<nat> {
    if polls == [] then []
    else
      var q, now := polls[..|polls| - 1], polls[|polls| - 1];
      var f := Firings(start, period, q);
      if IdealPoll(IdealAll(start, period, q).0, now, period).1 then f + [now] else f
  }

  lemma FiringsSnoc(start: nat, period: u32, polls: seq<nat>, now: nat)
    ensures var f := Firings(start, period, polls);
            var (next, due) := IdealPoll(IdealAll(start, period, polls).0, now, period);
            && Firings(start, period, polls + [now]) == (if due then f + [now] else f)
            && IdealAll(start, period, polls + [now]).0 == next
  {
    hide IdealPoll;
    assert (polls + [now])[..|polls|] == polls;
  }

  /** Consecutive firings are at most `gap` apart, and never earlier than the one before. */
  ghost predicate Spaced(f: seq<nat>, gap: int) {
    forall i | 0 < i < |f| :: 0 <= Step(f, i) <= gap
  }

  function Step(f: seq<nat>, i: nat): int
    requires 0 < i < |f|
  {
    var t: int := f[i];
    t - f[i - 1]
  }

  lemma SpacedSnoc(f: seq<nat>, gap: int, t: nat)
    requires Spaced(f, gap) && (f != [] ==> f[|f| - 1] <= t <= f[|f| - 1] + gap)
    ensures Spaced(f + [t], gap)
  {
    var g := f + [t];
    forall i | 0 < i < |g|
      ensures 0 <= Step(g, i) <= gap
    {
      if i < |f| { assert Step(g, i) == Step(f, i); }
    }
  }

  /** Polled at gaps of at most g, it fires at gaps of at most one period and g. */
  lemma {:induction false} FiringGaps(start: nat, period: u32, polls: seq<nat>, g: nat)
    requires polls != [] && PolledWithin(start, polls, g + 1)
    ensures var f, next, t := Firings(start, period, polls), IdealAll(start, period, polls).0, Latest(start, polls);
            && f != [] && Spaced(f, period + g)
            && f[|f| - 1] <= t && next <= f[|f| - 1] + period && (t < next || t == f[|f| - 1])
  {
    hide IdealAll, PolledWithin, Spaced;
    var q, now := polls[..|polls| - 1], polls[|polls| - 1];
    assert q + [now] == polls;
    PolledWithinPrefix(start, polls, g + 1);
    FiringsSnoc(start, period, q, now);
    var f := Firings(start, period, q);
    if q == [] {
      NothingPolled(start, period);
      SpacedSnoc([], period + g, now);
    } else {
      FiringGaps(start, period, q, g);
      if f[|f| - 1] <= now <= f[|f| - 1] + period + g { SpacedSnoc(f, period + g, now); }
    }
  }

  lemma NothingPolled(start: nat, period: u32)
    ensures IdealAll(start, period, []) == (start, 0) && Firings(start, period, []) == [] && Spaced([], period)
    ensures forall gap :: Spaced([], gap)
  {}

  /** However it is polled, n further firings take at least n - 2 periods. */
  lemma {:induction false} FiringsTakeTime(start: nat, period: u32, polls: seq<nat>, i: nat, j: nat)
    requires i <= j < |Firings(start, period, polls)|
    ensures var f := Firings(start, period, polls); f[i] + Periods(j - i - 2, period) <= f[j]
  {
    hide Periods, IdealPoll;
    var q, now := polls[..|polls| - 1], polls[|polls| - 1];
    assert q + [now] == polls;
    FiringsSnoc(start, period, q, now);
    var f := Firings(start, period, q);
    if j < |f| {
      FiringsTakeTime(start, period, q, i, j);
    } else if i < j {
      DeadlineAfter(start, period, q, i);
      Due(IdealAll(start, period, q).0, now, period);
    } else {
      OneMorePeriod(-1, period);
      OneMorePeriod(-2, period);
    }
  }

  lemma Due(next: int, now: nat, period: u32)
    requires IdealPoll(next, now, period).1
    ensures next <= now && IdealPoll(next, now, period).0 >= next + period
    ensures IdealPoll(next, now, period).0 >= now - period
  {}

  /** The deadline keeps its distance from every firing. */
  lemma {:induction false} DeadlineAfter(start: nat, period: u32, polls: seq<nat>, i: nat)
    requires i < |Firings(start, period, polls)|
    ensures var f := Firings(start, period, polls);
            f[i] + Periods(|f| - i - 2, period) <= IdealAll(start, period, polls).0
  {
    hide Periods, IdealPoll, IdealAll;
    var q, now := polls[..|polls| - 1], polls[|polls| - 1];
    assert q + [now] == polls;
    FiringsSnoc(start, period, q, now);
    var f, next := Firings(start, period, q), IdealAll(start, period, q).0;
    if IdealPoll(next, now, period).1 {
      Due(next, now, period);
      if i < |f| {
        DeadlineAfter(start, period, q, i);
        OneMorePeriod(|f| - i - 2, period);
      } else {
        OneMorePeriod(-1, period);
      }
    } else {
      NotDue(next, now, period);
      DeadlineAfter(start, period, q, i);
    }
  }

  lemma NotDue(next: int, now: nat, period: u32)
    requires !IdealPoll(next, now, period).1
    ensures IdealPoll(next, now, period).0 == next
  {}

  // --- bursts ----------------------------------------------------------------

  /** How many successive polls at one clock value fire when the deadline is `late` ms past. */
  function Burst(late: int, period: u32): nat
    requires period > 0
  {
    if late < 0 then 0 else if late > 2 * period then 1 else late / period + 1
  }

  /** The number of firings of k polls at one clock value. */
  function Repeat(next: int, now: nat, period: u32, k: nat): nat
    decreases k
  {
    if k == 0 then 0
    else
      var (next', due) := IdealPoll(next, now, period);
      (if due then 1 else 0) + Repeat(next', now, period, k - 1)
  }

  /**
   * k polls at one clock value fire min(k, Burst) times: at most three, three
   * only when the deadline is exactly two periods past, and one after a stall
   * of more than two periods.
   */
  lemma {:induction false} BurstExact(next: int, now: nat, period: u32, k: nat)
    requires period > 0
    ensures Repeat(next, now, period, k) == if k < Burst(now - next, period) then k else Burst(now - next, period)
    ensures Burst(now - next, period) <= 3
    ensures Burst(now - next, period) == 3 <==> now - next == 2 * period
    decreases k
  {
    var late := now - next;
    if 0 <= late <= 2 * period { SmallQuotient(late, period); }
    if k > 0 {
      var (next', due) := IdealPoll(next, now, period);
      BurstExact(next', now, period, k - 1);
      if 0 <= now - next' <= 2 * period { SmallQuotient(now - next', period); }
    }
  }

  lemma SmallQuotient(late: nat, period: int)
    requires 0 < period && late <= 2 * period
    ensures late / period == if late < period then 0 else if late < 2 * period then 1 else 2
  {}

  function Again(now: nat, k: nat): seq<nat> {
    seq(k, _ => now)
  }

  /**
   * The burst law on the 32-bit schedule: k further polls at one clock value
   * fire min(k, Burst(late)) times, `late` being the controller's own reading of
   * how far its deadline is past.
   */
  lemma {:induction false} BurstOnClock(start: nat, period: u32, polls: seq<nat>, now: nat, k: nat)
    requires 0 < period < TWO_31 && PolledWithin(start, polls + [now], TWO_31 - period)
    ensures var (p, fires) := PollAll(start, period, polls);
            var burst := Burst(Signed32(Sub32(Wrap32(now), p.next)), period);
            PollAll(start, period, polls + Again(now, k)).1 == fires + (if k < burst then k else burst)
            && burst <= 3
  {
    hide PollAll, IdealAll, PolledWithin, Burst, Repeat, Sub32, Signed32, Wrap32, IdealPoll;
    Fires(start, period, polls, now, k);
    PolledWithinSnoc(start, polls, now, TWO_31 - period);
    WrappedRefinesIdeal(start, period, polls);
    DeadlineNear(start, period, polls, TWO_31 - period);
    var next := IdealAll(start, period, polls).0;
    SignedDifference(now, next);
    BurstExact(next, now, period, k);
  }

  lemma PolledWithinSnoc(start: nat, polls: seq<nat>, now: nat, gap: int)
    requires gap > 0
    ensures PolledWithin(start, polls + [now], gap)
       <==> PolledWithin(start, polls, gap) && Latest(start, polls) <= now < Latest(start, polls) + gap
  {
    hide PolledWithin, Latest;
    var q := polls + [now];
    assert q[..|q| - 1] == polls;
    if PolledWithin(start, q, gap) { PolledWithinPrefix(start, q, gap); }
    if PolledWithin(start, polls, gap) && Latest(start, polls) <= now < Latest(start, polls) + gap {
      PolledOnceMore(start, polls, now, gap);
    }
  }

  lemma PolledOnceMore(start: nat, polls: seq<nat>, now: nat, gap: int)
    requires PolledWithin(start, polls, gap) && Latest(start, polls) <= now < Latest(start, polls) + gap
    ensures PolledWithin(start, polls + [now], gap)
  {
    var q := polls + [now];
    forall i | 0 <= i < |q|
      ensures Before(start, q, i) <= q[i] < Before(start, q, i) + gap
    {
      if i < |polls| { assert Before(start, q, i) == Before(start, polls, i); }
    }
  }

  /** What further polls at one clock value add, on the ideal deadline. */
  lemma {:induction false} Fires(start: nat, period: u32, polls: seq<nat>, now: nat, k: nat)
    requires 0 < period < TWO_31 && PolledWithin(start, polls + [now], TWO_31 - period)
    ensures PollAll(start, period, polls + Again(now, k)).1
         == PollAll(start, period, polls).1 + Repeat(IdealAll(start, period, polls).0, now, period, k)
    decreases k
  {
    hide PollAll, IdealAll, PolledWithin, IdealPoll;
    if k == 0 {
      assert polls + Again(now, k) == polls;
    } else {
      var q := polls + [now];
      assert polls + Again(now, k) == q + Again(now, k - 1);
      PolledWithinSnoc(start, q, now, TWO_31 - period);
      Fires(start, period, q, now, k - 1);
      WrappedRefinesIdeal(start, period, q);
      PolledWithinSnoc(start, polls, now, TWO_31 - period);
      WrappedRefinesIdeal(start, period, polls);
      IdealSnoc(start, period, polls, now);
    }
  }

  lemma IdealSnoc(start: nat, period: u32, polls: seq<nat>, now: nat)
    ensures var (next, fires) := IdealAll(start, period, polls);
            var (next', due) := IdealPoll(next, now, period);
            IdealAll(start, period, polls + [now]) == (next', if due then fires + 1 else fires)
  {
    hide IdealPoll;
    assert (polls + [now])[..|polls|] == polls;
  }

  /** With the 50 ms period, three polls at 100 ms after the start, none before: all three fire. */
  lemma ThreeAtOnce()
    ensures PollAll(0, 50, Again(100, 3)).1 == 3
  {
    hide PollAll;
    PollAllNothing(0, 50);
    assert [] + Again(100, 3) == Again(100, 3);
    assert PolledWithin(0, [] + [100], TWO_31 - 50);
    BurstOnClock(0, 50, [], 100, 3);
  }

  lemma PollAllNothing(start: nat, period: u32)
    ensures PollAll(start, period, []) == (Pacer(Wrap32(start), 0), 0)
  {}
}
