/**
 * What the controller does and reports, said on the received frames alone: on
 * the bytes of the last accepted one, its age on the clock, and which frames
 * around it were spoilt.
 */
module Rules {
  import opened Words
  import opened Config
  import opened Protocol
  import opened History
  import opened Layout
  import Frame
  import Faults

  /**
   * Which receptions are accepted: those with the CONTROL identifier and eight
   * bytes whose CRC is right, mode, flags and indicator defined, and drive and
   * steer within 1000.
   */
  lemma AcceptedRule(r: Rx)
    ensures Accepted(r) <==>
            && r.id == 0x100 && |r.frame| == 8 && r.frame[7] == Frame.FrameCrc(0x100, r.frame[..7])
            && Val(r.frame[4]) <= 2 && r.frame[5] & 0x80 == 0 && Val((r.frame[5] & 0x38) >> 3) <= 4
            && -1000 <= SignedField(Val(r.frame[0]) + 0x100 * Val(r.frame[1])) <= 1000
            && -1000 <= SignedField(Val(r.frame[2]) + 0x100 * Val(r.frame[3])) <= 1000
  {
    hide ControlVerdict, Frame.FrameCrc, Val;
    VerdictOnBytes(r.id, r.frame);
  }

  /** Frame i is the last accepted one. */
  ghost predicate LastFrame(h: seq<Rx>, i: nat) {
    i < |h| && Accepted(h[i]) && forall j | i < j < |h| :: !Accepted(h[j])
  }

  /** It is, and is younger than the timeout on the clock. */
  ghost predicate Fresh(h: seq<Rx>, i: nat, now: nat, timeout: u32) {
    LastFrame(h, i) && Wrap32(now - h[i].time) < timeout
  }

  /** Nothing was accepted, or not lately. */
  ghost predicate Lost(h: seq<Rx>, now: nat, timeout: u32) {
    forall i: nat :: !Fresh(h, i, now, timeout)
  }

  /** Frame i was accepted, and j was the one accepted before it. */
  ghost predicate Follows(h: seq<Rx>, j: nat, i: nat) {
    j < i < |h| && Accepted(h[j]) && Accepted(h[i]) && forall k | j < k < i :: !Accepted(h[k])
  }

  /** The sequence byte of a frame that has one. */
  function Number(r: Rx): int {
    if |r.frame| == 8 then Val(r.frame[6]) else 0
  }

  /** Frame i was accepted out of sequence. */
  ghost predicate Skips(h: seq<Rx>, i: nat) {
    exists j: nat :: Follows(h, j, i) && OutOfStep(Number(h[j]), Number(h[i]))
  }

  /** The second number is not the one after the first, modulo 256. */
  predicate OutOfStep(previous: int, current: int) {
    (current - previous) % 256 != 1
  }

  /** Frame i spoilt the link: its CRC was wrong, or it was accepted out of sequence. */
  ghost predicate Spoils(h: seq<Rx>, i: nat) {
    i < |h| && ((h[i].id == 0x100 && ControlVerdict(0x100, h[i].frame) == DECODE_BAD_CRC) || Skips(h, i))
  }

  /** Frame i is the last that did. */
  ghost predicate LastSpoiler(h: seq<Rx>, i: nat) {
    Spoils(h, i) && forall k: nat | k > i :: !Spoils(h, k)
  }

  /** The last one was noticed less than a second ago on the clock. */
  ghost predicate SpoiltLately(h: seq<Rx>, now: nat) {
    exists i: nat :: LastSpoiler(h, i) && i < |h| && Wrap32(now - h[i].noticed) < 1000
  }

  // --- the link as the history functions see it ------------------------------

  lemma LastFrameHeard(h: seq<Rx>, i: nat, now: nat)
    requires LastFrame(h, i)
    ensures |h[i].frame| == 8 && ValidControl(ControlFields(h[i].frame))
    ensures WrappedLink(Accepts(h), now) == Heard(ControlFields(h[i].frame), Wrap32(now - h[i].time))
  {
    hide ControlVerdict, ControlFields, ValidControl, Accepts, Wrap32;
    AcceptedLast(h, i);
    AcceptedLength(h[i]);
    EncodeOfDecode(CAN_ID_CONTROL, h[i].frame);
  }

  lemma SomeLastFrame(h: seq<Rx>)
    requires Accepts(h) != []
    ensures exists i: nat :: LastFrame(h, i)
  {
    hide Accepted, ControlFields;
    var i := LastAccepted(h);
    assert LastFrame(h, i);
  }

  lemma NoLastFrame(h: seq<Rx>, now: nat)
    requires forall i: nat :: !LastFrame(h, i)
    ensures WrappedLink(Accepts(h), now) == Silent
  {
    hide Accepts, LastFrame;
    if Accepts(h) != [] {
      SomeLastFrame(h);
      assert false;
    }
  }

  lemma OneLastFrame(h: seq<Rx>, i: nat, j: nat)
    requires LastFrame(h, i) && LastFrame(h, j)
    ensures i == j
  {}

  lemma OnlyFresh(h: seq<Rx>, i: nat, now: nat, timeout: u32)
    requires LastFrame(h, i) && !Fresh(h, i, now, timeout)
    ensures Lost(h, now, timeout)
  {
    hide LastFrame;
    forall j: nat
      ensures !Fresh(h, j, now, timeout)
    {
      if LastFrame(h, j) { OneLastFrame(h, i, j); }
    }
  }

  /** The watchdog has tripped exactly when no frame is fresh. */
  lemma TrippedWhenLost(h: seq<Rx>, now: nat, timeout: u32)
    ensures Tripped(WrappedLink(Accepts(h), now), timeout) <==> Lost(h, now, timeout)
  {
    hide Accepts, ControlFields, LastFrame, Wrap32;
    if exists i: nat :: LastFrame(h, i) {
      var i: nat :| LastFrame(h, i);
      LastFrameHeard(h, i, now);
      if !Fresh(h, i, now, timeout) { OnlyFresh(h, i, now, timeout); }
    } else {
      NoLastFrame(h, now);
    }
  }

  // --- motion ----------------------------------------------------------------

  lemma FlagBits(b: bv8)
    ensures b & 0x41 == 0 <==> b & 0x01 == 0 && b & 0x40 == 0
    ensures b & 0x03 == 0 <==> b & 0x01 == 0 && b & 0x02 == 0
  {}

  lemma ModeByte(b: bv8)
    ensures (Val(b) == 0 <==> b == 0) && (Val(b) == 1 <==> b == 1) && (Val(b) == 2 <==> b == 2)
  {}

  /**
   * A fresh frame drives the rover with the numbers in its first four bytes when
   * its mode is MANUAL and neither stop nor base-station loss is set, or its mode
   * is AUTONOMOUS and neither stop nor abort is; every other one stops it.
   */
  lemma MotionRule(h: seq<Rx>, i: nat, now: nat, timeout: u32)
    requires Fresh(h, i, now, timeout)
    ensures |h[i].frame| == 8
    ensures var f := h[i].frame;
            Outputs(WrappedLink(Accepts(h), now), timeout)
              == if (f[4] == 1 && f[5] & 0x41 == 0) || (f[4] == 2 && f[5] & 0x03 == 0)
                 then (SignedField(Val(f[0]) + 0x100 * Val(f[1])), SignedField(Val(f[2]) + 0x100 * Val(f[3])))
                 else (0, 0)
  {
    hide Accepts, ControlFields, Wrap32, Val, ValidControl, SignedField;
    LastFrameHeard(h, i, now);
    var f := h[i].frame;
    ControlOnBytes(f);
    FlagBits(f[5]);
    ModeByte(f[4]);
  }

  /** Some fresh frame drives the rover. */
  ghost predicate Driven(h: seq<Rx>, now: nat, timeout: u32) {
    exists i: nat :: Fresh(h, i, now, timeout) && Drives(h[i].frame)
  }

  predicate Drives(f: seq<bv8>) {
    |f| == 8 && ((f[4] == 1 && f[5] & 0x41 == 0) || (f[4] == 2 && f[5] & 0x03 == 0))
  }

  lemma MovesWhenDriven(h: seq<Rx>, now: nat, timeout: u32)
    ensures MayMove(WrappedLink(Accepts(h), now), timeout) <==> Driven(h, now, timeout)
  {
    hide Accepts, Accepted, ControlFields, Wrap32, Val, Lost, ValidControl;
    TrippedWhenLost(h, now, timeout);
    forall i: nat | Fresh(h, i, now, timeout)
      ensures MayMove(WrappedLink(Accepts(h), now), timeout) <==> Drives(h[i].frame)
    {
      LastFrameHeard(h, i, now);
      ControlOnBytes(h[i].frame);
      FlagBits(h[i].frame[5]);
      ModeByte(h[i].frame[4]);
    }
    if MayMove(WrappedLink(Accepts(h), now), timeout) { SomeFresh(h, now, timeout); }
  }

  lemma SomeFresh(h: seq<Rx>, now: nat, timeout: u32)
    requires !Tripped(WrappedLink(Accepts(h), now), timeout)
    ensures exists i: nat :: Fresh(h, i, now, timeout)
  {
    hide Fresh, Accepts;
    TrippedWhenLost(h, now, timeout);
  }

  lemma LostStandsStill(h: seq<Rx>, now: nat, timeout: u32)
    requires Lost(h, now, timeout)
    ensures Outputs(WrappedLink(Accepts(h), now), timeout) == (0, 0)
  {
    hide Accepts, Fresh, Lost;
    TrippedWhenLost(h, now, timeout);
  }

  /** Stop stops in every mode, an abort only in AUTONOMOUS: MANUAL drives on through it. */
  lemma StopAndAbort(h: seq<Rx>, i: nat, now: nat, timeout: u32)
    requires LastFrame(h, i)
    ensures |h[i].frame| == 8
    ensures h[i].frame[5] & 0x01 != 0 ==> Outputs(WrappedLink(Accepts(h), now), timeout) == (0, 0)
    ensures h[i].frame[4] == 2 && h[i].frame[5] & 0x02 != 0 ==> Outputs(WrappedLink(Accepts(h), now), timeout) == (0, 0)
    ensures Fresh(h, i, now, timeout) && h[i].frame[4] == 1
            && h[i].frame[5] & 0x41 == 0 && h[i].frame[5] & 0x02 != 0 ==>
              var f := h[i].frame;
              Outputs(WrappedLink(Accepts(h), now), timeout)
                == (SignedField(Val(f[0]) + 0x100 * Val(f[1])), SignedField(Val(f[2]) + 0x100 * Val(f[3])))
  {
    hide Accepts, Wrap32, Val, Outputs, SignedField, WrappedLink;
    LastFrameHeard(h, i, now);
    FlagBits(h[i].frame[5]);
    if Fresh(h, i, now, timeout) {
      MotionRule(h, i, now, timeout);
    } else {
      assert Lost(h, now, timeout) by { OnlyFresh(h, i, now, timeout); }
      LostStandsStill(h, now, timeout);
    }
  }

  // --- the light -------------------------------------------------------------

  /**
   * The light of a fresh frame: OFF in DISABLED; in MANUAL TELEOP, or FAULT with
   * the base station lost; in AUTONOMOUS ARRIVED when asked for, else AUTONOMOUS.
   * Neither stop nor abort matters. Without a fresh frame it is FAULT.
   */
  lemma LightRule(h: seq<Rx>, now: nat, timeout: u32)
    ensures forall i: nat | Fresh(h, i, now, timeout) ::
              var f := h[i].frame;
              |f| == 8 && Indicator(WrappedLink(Accepts(h), now), timeout)
                == if f[4] == 0 then 0
                   else if f[4] == 1 then (if f[5] & 0x40 != 0 then 4 else 1)
                   else if Val((f[5] & 0x38) >> 3) == 3 then 3 else 2
    ensures Lost(h, now, timeout) ==> Indicator(WrappedLink(Accepts(h), now), timeout) == 4
  {
    hide Accepts, Accepted, ControlFields, Wrap32, Val, Lost;
    TrippedWhenLost(h, now, timeout);
    forall i: nat | Fresh(h, i, now, timeout)
      ensures var f := h[i].frame;
              |f| == 8 && Indicator(WrappedLink(Accepts(h), now), timeout)
                == if f[4] == 0 then 0
                   else if f[4] == 1 then (if f[5] & 0x40 != 0 then 4 else 1)
                   else if Val((f[5] & 0x38) >> 3) == 3 then 3 else 2
    {
      LastFrameHeard(h, i, now);
      ControlOnBytes(h[i].frame);
      ModeByte(h[i].frame[4]);
    }
  }

  /** The same for every link that is not tripped and whose message is valid. */
  lemma LightOfMessage(l: Link, timeout: u32)
    requires l.Heard? && l.age < timeout && ValidControl(l.msg)
    ensures Indicator(l, timeout) == 0 <==> l.msg.mode == 0
    ensures Indicator(l, timeout) == 1 <==> l.msg.mode == 1 && !l.msg.c2Lost
    ensures Indicator(l, timeout) == 4 <==> l.msg.mode == 1 && l.msg.c2Lost
    ensures Indicator(l, timeout) == 3 <==> l.msg.mode == 2 && l.msg.indicatorRequest == 3
    ensures Indicator(l, timeout) == 2 <==> l.msg.mode == 2 && l.msg.indicatorRequest != 3
    ensures forall stop, abort ::
              Indicator(Heard(l.msg.(stop := stop, autonomyAbort := abort), l.age), timeout) == Indicator(l, timeout)
  {}

  // --- the base-station link, the mode and the age ---------------------------

  /** What a fresh frame says about the base station; without one, NOT_REPORTED. */
  lemma C2Rule(h: seq<Rx>, now: nat, timeout: u32)
    ensures forall i: nat | Fresh(h, i, now, timeout) ::
              |h[i].frame| == 8
              && C2State(WrappedLink(Accepts(h), now), timeout) == if h[i].frame[5] & 0x40 != 0 then 2 else 0
    ensures Lost(h, now, timeout) ==> C2State(WrappedLink(Accepts(h), now), timeout) == 3
  {
    hide Accepts, Accepted, ControlFields, Wrap32, Lost;
    TrippedWhenLost(h, now, timeout);
    forall i: nat | Fresh(h, i, now, timeout)
      ensures |h[i].frame| == 8
      ensures C2State(WrappedLink(Accepts(h), now), timeout) == if h[i].frame[5] & 0x40 != 0 then 2 else 0
    {
      LastFrameHeard(h, i, now);
      ControlOnBytes(h[i].frame);
    }
  }

  /** The mode echo is the last accepted frame's mode byte; the age its age on the clock, up to 65534 ms. */
  lemma EchoRule(h: seq<Rx>, now: nat)
    ensures forall i: nat | LastFrame(h, i) ::
              && |h[i].frame| == 8 && ModeOf(WrappedLink(Accepts(h), now)) == Val(h[i].frame[4])
              && CmdAge(WrappedLink(Accepts(h), now))
                 == if Wrap32(now - h[i].time) < 65534 then Wrap32(now - h[i].time) else 65534
    ensures (forall i: nat :: !LastFrame(h, i)) ==>
              ModeOf(WrappedLink(Accepts(h), now)) == 0 && CmdAge(WrappedLink(Accepts(h), now)) == 65535
  {
    hide Accepts, Accepted, ControlFields, Wrap32, Val;
    if forall i: nat :: !LastFrame(h, i) { NoLastFrame(h, now); }
    forall i: nat | LastFrame(h, i)
      ensures |h[i].frame| == 8 && ModeOf(WrappedLink(Accepts(h), now)) == Val(h[i].frame[4])
      ensures CmdAge(WrappedLink(Accepts(h), now))
           == if Wrap32(now - h[i].time) < 65534 then Wrap32(now - h[i].time) else 65534
    {
      LastFrameHeard(h, i, now);
      ControlOnBytes(h[i].frame);
    }
  }

  // --- sequence gaps and spoilt frames ---------------------------------------

  lemma NumberOfAccepted(r: Rx)
    requires Accepted(r)
    ensures |r.frame| == 8 && Number(r) == ControlFields(r.frame).seqNo
  {
    hide ControlVerdict, ControlFields, Val;
    AcceptedLength(r);
    ControlOnBytes(r.frame);
  }

  lemma OneBefore(h: seq<Rx>, i: nat, j: nat, k: nat)
    requires Follows(h, i, k) && Follows(h, j, k)
    ensures i == j
  {}

  /** An accepted newest frame skips exactly when the last two accepted numbers are not consecutive. */
  lemma GapOfNewest(h: seq<Rx>)
    requires h != [] && Accepted(h[|h| - 1])
    ensures SeqGap(Accepts(h)) <==> Skips(h, |h| - 1)
  {
    hide *;
    var p, r := h[..|h| - 1], h[|h| - 1];
    assert h == p + [r];
    AcceptedLength(r);
    ReceiveAccepted(p, r);
    GapOfPair(Accepts(p), Receipt(r.time, ControlFields(r.frame)));
    if Accepts(p) == [] {
      NoneAccepted(p);
      NothingBefore(p, r);
    } else {
      SkipsAfterLast(p, r);
    }
  }

  lemma ReceiveAccepted(p: seq<Rx>, r: Rx)
    requires Accepted(r)
    ensures |r.frame| == 8 && Accepts(p + [r]) == Accepts(p) + [Receipt(r.time, ControlFields(r.frame))]
  {
    hide Accepted, ControlFields, Accepts;
    AcceptedLength(r);
    Receive(p, r);
  }

  lemma SkipsAfterLast(p: seq<Rx>, r: Rx)
    requires Accepted(r) && Accepts(p) != []
    ensures |r.frame| == 8
    ensures Skips(p + [r], |p|)
       <==> OutOfStep(Accepts(p)[|Accepts(p)| - 1].msg.seqNo, ControlFields(r.frame).seqNo)
  {
    hide Accepted, ControlFields, Accepts, Number, Follows, Skips, OutOfStep;
    var i := LastAccepted(p);
    NumberOfAccepted(p[i]);
    NumberOfAccepted(r);
    FollowsLast(p, r, i);
    SkipsWhen(p + [r], i, |p|);
  }

  lemma GapOfPair(a: seq<Receipt>, x: Receipt)
    ensures SeqGap(a + [x]) <==> a != [] && OutOfStep(a[|a| - 1].msg.seqNo, x.msg.seqNo)
  {}

  lemma NothingBefore(p: seq<Rx>, r: Rx)
    requires forall j: nat | j < |p| :: !Accepted(p[j])
    ensures !Skips(p + [r], |p|)
  {
    hide Accepted, Number;
  }

  lemma FollowsLast(p: seq<Rx>, r: Rx, i: nat)
    requires i < |p| && Accepted(p[i]) && Accepted(r) && forall j | i < j < |p| :: !Accepted(p[j])
    ensures Follows(p + [r], i, |p|)
  {
    hide Accepted;
  }

  lemma SkipsWhen(h: seq<Rx>, i: nat, n: nat)
    requires Follows(h, i, n)
    ensures Skips(h, n) <==> OutOfStep(Number(h[i]), Number(h[n]))
  {
    hide Accepted, Number, OutOfStep;
    forall j: nat | Follows(h, j, n)
      ensures j == i
    {
      OneBefore(h, i, j, n);
    }
  }

  lemma NoneAccepted(h: seq<Rx>)
    requires Accepts(h) == []
    ensures forall j: nat | j < |h| :: !Accepted(h[j])
  {
    hide Accepted, ControlFields;
    if h != [] { NoneAccepted(h[..|h| - 1]); }
  }

  lemma SkipsStay(h: seq<Rx>, r: Rx, i: nat)
    requires i < |h|
    ensures Skips(h + [r], i) <==> Skips(h, i)
  {
    hide Accepted, Number;
    var g := h + [r];
    forall j: nat
      ensures Follows(g, j, i) <==> Follows(h, j, i)
    {
      FollowsStay(h, r, j, i);
    }
  }

  lemma FollowsStay(h: seq<Rx>, r: Rx, j: nat, i: nat)
    requires i < |h|
    ensures Follows(h + [r], j, i) <==> Follows(h, j, i)
  {
    hide Accepted;
    var g := h + [r];
    assert forall k | 0 <= k < |h| :: g[k] == h[k];
    if Follows(g, j, i) {
      forall k | j < k < i
        ensures !Accepted(h[k])
      {
        assert !Accepted(g[k]);
      }
    }
  }

  lemma SpoilsStay(h: seq<Rx>, r: Rx, i: nat)
    requires i < |h|
    ensures Spoils(h + [r], i) <==> Spoils(h, i)
  {
    hide ControlVerdict, Skips;
    SkipsStay(h, r, i);
  }

  lemma SpoilsAtEnd(h: seq<Rx>)
    requires h != []
    ensures Degrades(h) <==> Spoils(h, |h| - 1)
  {
    hide ControlVerdict, Accepts, Skips;
    if Accepted(h[|h| - 1]) {
      GapOfNewest(h);
    } else {
      RejectedSkipsNothing(h, |h| - 1);
    }
  }

  lemma RejectedSkipsNothing(h: seq<Rx>, i: nat)
    requires i < |h| && !Accepted(h[i])
    ensures !Skips(h, i)
  {}

  /** The remembered degradation is the noticing of the last frame that spoilt the link. */
  lemma {:induction false} LastSpoilt(h: seq<Rx>) returns (i: nat)
    ensures LastDegraded(h).None? ==> forall k: nat :: !Spoils(h, k)
    ensures LastDegraded(h).Some? ==> LastSpoiler(h, i) && i < |h| && h[i].noticed == LastDegraded(h).value
  {
    hide Degrades, Spoils;
    SpoilsInRange(h);
    i := 0;
    if h != [] {
      var n := |h| - 1;
      var p, r := h[..n], h[n];
      assert h == p + [r];
      SpoilsAtEnd(h);
      if Degrades(h) {
        i := n;
      } else {
        i := LastSpoilt(p);
        SpoilersStay(p, r);
      }
    }
  }

  lemma SpoilersStay(p: seq<Rx>, r: Rx)
    requires !Spoils(p + [r], |p|)
    ensures (forall k: nat :: !Spoils(p, k)) ==> forall k: nat :: !Spoils(p + [r], k)
    ensures forall i: nat | LastSpoiler(p, i) :: LastSpoiler(p + [r], i)
  {
    hide Spoils;
    var h := p + [r];
    SpoilsInRange(h);
    SpoilsInRange(p);
    forall k: nat
      ensures Spoils(h, k) <==> Spoils(p, k)
    {
      if k < |p| { SpoilsStay(p, r, k); }
    }
  }

  lemma SpoilsInRange(h: seq<Rx>)
    ensures forall i: nat | Spoils(h, i) :: i < |h|
  {}

  lemma OneLastSpoiler(h: seq<Rx>, i: nat, j: nat)
    requires LastSpoiler(h, i) && LastSpoiler(h, j)
    ensures i == j
  {
    hide Spoils;
  }

  lemma DegradedWhenSpoilt(h: seq<Rx>, now: nat)
    ensures WrappedDegraded(h, now) <==> SpoiltLately(h, now)
  {
    hide LastDegraded, Wrap32, LastSpoiler, Spoils;
    var i := LastSpoilt(h);
    if LastDegraded(h).None? {
      NoLastSpoiler(h);
    } else {
      forall j: nat | LastSpoiler(h, j)
        ensures j == i
      {
        OneLastSpoiler(h, i, j);
      }
    }
  }

  lemma NoLastSpoiler(h: seq<Rx>)
    requires forall k: nat :: !Spoils(h, k)
    ensures forall i: nat :: !LastSpoiler(h, i)
  {
    hide Spoils;
  }

  /** LOST without a fresh frame at the first reading, DEGRADED within a second of a spoilt one, else OK. */
  lemma JetsonRule(h: seq<Rx>, first: nat, second: nat, timeout: u32)
    ensures JetsonState(WrappedLink(Accepts(h), first), timeout, WrappedDegraded(h, second))
         == if Lost(h, first, timeout) then 2 else if SpoiltLately(h, second) then 1 else 0
  {
    hide Lost, SpoiltLately, WrappedDegraded, Tripped;
    TrippedWhenLost(h, first, timeout);
    DegradedWhenSpoilt(h, second);
  }

  /** While every CONTROL frame is accepted in sequence the link never reads DEGRADED. */
  lemma CleanNeverDegraded(h: seq<Rx>, first: nat, second: nat, timeout: u32)
    requires forall i: nat | i < |h| && h[i].id == 0x100 :: Accepted(h[i]) && !Skips(h, i)
    ensures JetsonState(WrappedLink(Accepts(h), first), timeout, WrappedDegraded(h, second)) != 1
  {
    hide Lost, WrappedDegraded, JetsonState, Accepts, WrappedLink, Skips, LastSpoiler;
    JetsonRule(h, first, second, timeout);
    forall i: nat
      ensures !Spoils(h, i)
    {
      if i < |h| && h[i].id != 0x100 { RejectedSkipsNothing(h, i); }
    }
    NoLastSpoiler(h);
  }

  // --- faults ----------------------------------------------------------------

  lemma {:induction false} GapAtLast(h: seq<Rx>)
    ensures SeqGap(Accepts(h)) <==> LastSkips(h)
  {
    hide Accepted, ControlFields, Skips, Accepts, SeqGap;
    if h == [] {
      NothingCounted();
      NoGapInNothing();
    } else if Accepted(h[|h| - 1]) {
      GapOfNewest(h);
      NewestIsLast(h);
    } else {
      var n := |h| - 1;
      var p, r := h[..n], h[n];
      assert h == p + [r];
      GapAtLast(p);
      Receive(p, r);
      forall i: nat
        ensures LastFrame(h, i) && Skips(h, i) <==> LastFrame(p, i) && Skips(p, i)
      {
        LastStays(p, r, i);
        if i < n { SkipsStay(p, r, i); }
      }
    }
  }

  lemma NoGapInNothing()
    ensures !SeqGap([])
  {}

  lemma NewestIsLast(h: seq<Rx>)
    requires h != [] && Accepted(h[|h| - 1])
    ensures forall i: nat :: LastFrame(h, i) <==> i == |h| - 1
  {
    hide Accepted;
  }

  lemma LastStays(p: seq<Rx>, r: Rx, i: nat)
    requires !Accepted(r)
    ensures LastFrame(p + [r], i) <==> LastFrame(p, i)
  {
    hide Accepted;
    var h := p + [r];
    assert forall k | 0 <= k < |p| :: h[k] == p[k];
    if LastFrame(h, i) {
      assert i < |p|;
      forall j | i < j < |p|
        ensures !Accepted(p[j])
      {
        assert !Accepted(h[j]);
      }
    }
  }

  /** A frame on the CONTROL identifier was rejected, for its CRC or otherwise, and nothing was accepted since. */
  ghost predicate RejectedSince(h: seq<Rx>, crc: bool) {
    exists i: nat ::
      && i < |h| && h[i].id == 0x100 && (forall j | i <= j < |h| :: !Accepted(h[j]))
      && (crc <==> ControlVerdict(0x100, h[i].frame) == DECODE_BAD_CRC)
  }

  lemma RejectionsSince(h: seq<Rx>)
    ensures CrcError(h) <==> RejectedSince(h, true)
    ensures ProtocolError(h) <==> RejectedSince(h, false)
  {
    hide ControlVerdict;
  }

  /**
   * The fault word, bit by bit: COMM_TIMEOUT without a fresh frame at its reading,
   * PROTOCOL_ERROR and CRC_ERROR for rejections since the last acceptance,
   * C2_LINK_LOST when a frame fresh at its reading says so, SEQ_GAP when the last
   * accepted frame skipped; every other bit as the sensors gave it.
   */
  lemma FaultRule(h: seq<Rx>, timeout: u32, w: bv16, base: bv16, first: nat, second: nat)
    requires FaultsOf(h, timeout, w, base, first, second)
    ensures w & 0x0001 != 0 <==> base & 0x0001 != 0 || Lost(h, first, timeout)
    ensures w & 0x0040 != 0 <==> base & 0x0040 != 0 || RejectedSince(h, false)
    ensures w & 0x0080 != 0 <==> base & 0x0080 != 0 || FreshSaysLost(h, second, timeout)
    ensures w & 0x0100 != 0 <==> base & 0x0100 != 0 || LastSkips(h)
    ensures w & 0x0200 != 0 <==> base & 0x0200 != 0 || RejectedSince(h, true)
    ensures w & 0xFC3E == base & 0xFC3E
  {
    hide Lost, FreshSaysLost, LastSkips, RejectedSince, Accepts, CrcError, ProtocolError, SeqGap, Tripped, C2State,
      WrappedLink, Faults.Explains;
    TrippedWhenLost(h, first, timeout);
    GapAtLast(h);
    RejectionsSince(h);
    C2LostWhen(h, second, timeout);
    BitsExplained(w, base, Lost(h, first, timeout), RejectedSince(h, false), RejectedSince(h, true), LastSkips(h),
                  FreshSaysLost(h, second, timeout));
  }

  /** A frame fresh at this reading says the base station is out of reach. */
  ghost predicate FreshSaysLost(h: seq<Rx>, now: nat, timeout: u32) {
    exists i: nat :: Fresh(h, i, now, timeout) && |h[i].frame| == 8 && h[i].frame[5] & 0x40 != 0
  }

  /** The last accepted frame was out of sequence. */
  ghost predicate LastSkips(h: seq<Rx>) {
    exists i: nat :: LastFrame(h, i) && Skips(h, i)
  }

  lemma C2LostWhen(h: seq<Rx>, now: nat, timeout: u32)
    ensures C2State(WrappedLink(Accepts(h), now), timeout) == LINK_LOST <==> FreshSaysLost(h, now, timeout)
  {
    hide Accepts, C2State, WrappedLink, LastFrame;
    C2Rule(h, now, timeout);
  }

  lemma BitsExplained(w: bv16, base: bv16, timedOut: bool, protocol: bool, crc: bool, gap: bool, c2: bool)
    requires Faults.Explains(w, base, timedOut, protocol, crc, gap, c2)
    ensures (w & 0x0001 != 0) == (base & 0x0001 != 0 || timedOut)
    ensures (w & 0x0040 != 0) == (base & 0x0040 != 0 || protocol)
    ensures (w & 0x0080 != 0) == (base & 0x0080 != 0 || c2) && (w & 0x0100 != 0) == (base & 0x0100 != 0 || gap)
    ensures (w & 0x0200 != 0) == (base & 0x0200 != 0 || crc) && w & 0xFC3E == base & 0xFC3E
  {
    hide Faults.HasFault;
    HasBits(w, base);
    var more, less := w & !base & 0xFC3E, base & !w & 0xFC3E;
    OnlyOthers(w, base);
    assert Faults.HasFault(w, more) == Faults.HasFault(base, more);
    assert Faults.HasFault(w, less) == Faults.HasFault(base, less);
    Excess(w, base);
    Excess(base, w);
    SameOthers(w, base);
  }

  lemma HasBits(w: bv16, base: bv16)
    ensures Faults.HasFault(w, FAULT_COMM_TIMEOUT) == (w & 0x0001 != 0)
    ensures Faults.HasFault(w, FAULT_PROTOCOL_ERROR) == (w & 0x0040 != 0)
    ensures Faults.HasFault(w, FAULT_C2_LINK_LOST) == (w & 0x0080 != 0)
    ensures Faults.HasFault(w, FAULT_SEQ_GAP) == (w & 0x0100 != 0)
    ensures Faults.HasFault(w, FAULT_CRC_ERROR) == (w & 0x0200 != 0)
    ensures Faults.HasFault(base, FAULT_COMM_TIMEOUT) == (base & 0x0001 != 0)
    ensures Faults.HasFault(base, FAULT_PROTOCOL_ERROR) == (base & 0x0040 != 0)
    ensures Faults.HasFault(base, FAULT_C2_LINK_LOST) == (base & 0x0080 != 0)
    ensures Faults.HasFault(base, FAULT_SEQ_GAP) == (base & 0x0100 != 0)
    ensures Faults.HasFault(base, FAULT_CRC_ERROR) == (base & 0x0200 != 0)
  {}

  lemma OnlyOthers(w: bv16, base: bv16)
    ensures (w & !base & 0xFC3E) & Faults.OWN_FAULTS == 0 && (base & !w & 0xFC3E) & Faults.OWN_FAULTS == 0
  {}

  lemma Excess(w: bv16, base: bv16)
    ensures Faults.HasFault(w, w & !base & 0xFC3E) <==> w & !base & 0xFC3E != 0
    ensures !Faults.HasFault(base, w & !base & 0xFC3E)
  {}

  lemma SameOthers(w: bv16, base: bv16)
    requires w & !base & 0xFC3E == 0 && base & !w & 0xFC3E == 0
    ensures w & 0xFC3E == base & 0xFC3E
  {}

  // --- counts ----------------------------------------------------------------

  ghost function AcceptedAt(h: seq<Rx>): set<nat> {
    set i: nat | i < |h| && Accepted(h[i])
  }

  ghost function BadCrcAt(h: seq<Rx>): set<nat> {
    set i: nat | i < |h| && h[i].id == 0x100 && ControlVerdict(0x100, h[i].frame) == DECODE_BAD_CRC
  }

  ghost function SkippedAt(h: seq<Rx>): set<nat> {
    set i: nat | i < |h| && Skips(h, i)
  }

  /** What the counters count: frames accepted, frames with a bad CRC, frames accepted out of sequence. */
  lemma {:induction false} CountRule(h: seq<Rx>)
    ensures |Accepts(h)| == |AcceptedAt(h)| && CountBadCrc(h) == |BadCrcAt(h)|
    ensures GapsSeen(Accepts(h)) == |SkippedAt(h)|
  {
    hide ControlFields, Accepts, GapsSeen, CountBadCrc, AcceptedAt, BadCrcAt, SkippedAt, Skips, Accepted, SeqGap;
    if h == [] {
      NothingCounted();
    } else {
      var n := |h| - 1;
      var p, r := h[..n], h[n];
      assert h == p + [r];
      CountRule(p);
      MoreCounted(p, r);
      Receive(p, r);
      if Accepted(r) {
        AcceptedLength(r);
        AcceptOne(Accepts(p), Receipt(r.time, ControlFields(r.frame)));
        GapOfNewest(h);
        GapMeans(Accepts(p), Receipt(r.time, ControlFields(r.frame)));
      } else {
        RejectedSkipsNothing(h, n);
      }
    }
  }

  lemma NothingCounted()
    ensures Accepts([]) == [] && CountBadCrc([]) == 0 && GapsSeen([]) == 0
    ensures AcceptedAt([]) == {} && BadCrcAt([]) == {} && SkippedAt([]) == {}
  {}

  lemma GapMeans(a: seq<Receipt>, x: Receipt)
    ensures GapsSeen(a + [x]) == GapsSeen(a) + (if SeqGap(a + [x]) then 1 else 0)
  {
    assert (a + [x])[..|a|] == a;
    if |a| == 1 { assert GapsSeen(a) == 0; }
  }

  lemma MoreCounted(p: seq<Rx>, r: Rx)
    ensures |AcceptedAt(p + [r])| == |AcceptedAt(p)| + (if Accepted(r) then 1 else 0)
    ensures |BadCrcAt(p + [r])| == |BadCrcAt(p)| + (if BadCrc(r) then 1 else 0)
    ensures |SkippedAt(p + [r])| == |SkippedAt(p)| + (if Skips(p + [r], |p|) then 1 else 0)
  {
    hide AcceptedAt, BadCrcAt, SkippedAt, Accepted, BadCrc, Skips;
    MoreAccepted(p, r);
    MoreBadCrc(p, r);
    MoreSkipped(p, r);
  }

  lemma MoreAccepted(p: seq<Rx>, r: Rx)
    ensures |AcceptedAt(p + [r])| == |AcceptedAt(p)| + (if Accepted(r) then 1 else 0)
  {
    hide Accepted;
    var h, n := p + [r], |p|;
    assert forall i: nat | i < n :: h[i] == p[i];
    assert AcceptedAt(h) == if Accepted(r) then AcceptedAt(p) + {n} else AcceptedAt(p);
  }

  lemma MoreBadCrc(p: seq<Rx>, r: Rx)
    ensures |BadCrcAt(p + [r])| == |BadCrcAt(p)| + (if BadCrc(r) then 1 else 0)
  {
    hide ControlVerdict;
    var h, n := p + [r], |p|;
    assert forall i: nat | i < n :: h[i] == p[i];
    assert BadCrcAt(h) == if BadCrc(r) then BadCrcAt(p) + {n} else BadCrcAt(p);
  }

  lemma MoreSkipped(p: seq<Rx>, r: Rx)
    ensures |SkippedAt(p + [r])| == |SkippedAt(p)| + (if Skips(p + [r], |p|) then 1 else 0)
  {
    hide Skips;
    var h, n := p + [r], |p|;
    forall i: nat | i < n
      ensures Skips(h, i) <==> Skips(p, i)
    {
      SkipsStay(p, r, i);
    }
    assert SkippedAt(h) == if Skips(h, n) then SkippedAt(p) + {n} else SkippedAt(p);
  }

  /** The verdict kept is that on the last frame with the CONTROL identifier. */
  lemma {:induction false} VerdictRule(h: seq<Rx>)
    ensures forall i: nat | i < |h| && h[i].id == 0x100 && forall j | i < j < |h| :: h[j].id != 0x100 ::
              LastVerdict(h) == ControlVerdict(0x100, h[i].frame)
    ensures (forall i: nat | i < |h| :: h[i].id != 0x100) ==> LastVerdict(h) == DECODE_OK
  {
    hide ControlVerdict;
    if h != [] && h[|h| - 1].id != 0x100 {
      var p := h[..|h| - 1];
      VerdictRule(p);
      assert forall j | 0 <= j < |p| :: p[j] == h[j];
    }
  }
}
