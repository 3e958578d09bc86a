/**
 * What a rover controller should know, defined on the history of frames it has
 * received. Times are unbounded milliseconds; the firmware's clock shows them
 * modulo 2^32.
 */
module History {
  import opened Words
  import opened Config
  import opened Protocol
  import Faults

  /**
   * One call of ingestFrame: its two clock readings, the identifier and the
   * bytes. The first dates a degradation, the second an acceptance.
   */
  datatype Rx = Rx(noticed: nat, time: nat, id: u32, frame: seq<bv8>)

  datatype Receipt = Receipt(time: nat, msg: ControlMsg)

  predicate Accepted(r: Rx) {
    r.id == CAN_ID_CONTROL && ControlVerdict(r.id, r.frame) == DECODE_OK
  }

  predicate BadCrc(r: Rx) {
    r.id == CAN_ID_CONTROL && ControlVerdict(r.id, r.frame) == DECODE_BAD_CRC
  }

  /** Rejected on the CONTROL identifier for any other reason than the CRC. */
  predicate Uninterpretable(r: Rx) {
    r.id == CAN_ID_CONTROL && !Accepted(r) && !BadCrc(r)
  }

  /** The CONTROL messages accepted so far, oldest first. */
  function Accepts(h: seq<Rx>): seq<Receipt> {
    if h == [] then []
    else
      var a, r := Accepts(h[..|h| - 1]), h[|h| - 1];
      if Accepted(r) then a + [Receipt(r.time, ControlFields(r.frame))] else a
  }

  ghost predicate Chronological(h: seq<Rx>, now: nat) {
    && (forall i | 0 <= i < |h| :: h[i].noticed <= h[i].time <= now)
    && forall i, j | 0 <= i < j < |h| :: h[i].time <= h[j].noticed
  }

  // --- sequence numbers ------------------------------------------------------

  function DeltaAt(a: seq<Receipt>, i: nat): u8
    requires 0 < i < |a|
  {
    SeqDelta(a[i - 1].msg.seqNo, a[i].msg.seqNo)
  }

  /** The last two accepted frames are not consecutive. */
  predicate SeqGap(a: seq<Receipt>) {
    |a| > 1 && DeltaAt(a, |a| - 1) != 1
  }

  function GapsSeen(a: seq<Receipt>): nat {
    if |a| < 2 then 0 else GapsSeen(a[..|a| - 1]) + (if SeqGap(a) then 1 else 0)
  }

  /** Accepted frames that repeat the sequence number before them. */
  function Duplicates(a: seq<Receipt>): nat {
    if |a| < 2 then 0 else Duplicates(a[..|a| - 1]) + (if DeltaAt(a, |a| - 1) == 0 then 1 else 0)
  }

  /** Frames the sequence numbers say are missing. */
  function Missing(a: seq<Receipt>): nat {
    if |a| < 2 then 0
    else
      var d := DeltaAt(a, |a| - 1);
      Missing(a[..|a| - 1]) + (if d > 1 then d - 1 else 0)
  }

  // --- error history ---------------------------------------------------------

  /** A frame satisfying `bad` arrived and nothing has been accepted after it. */
  ghost predicate SinceAccepted(h: seq<Rx>, bad: Rx -> bool) {
    exists i :: 0 <= i < |h| && bad(h[i]) && forall j | i <= j < |h| :: !Accepted(h[j])
  }

  ghost predicate CrcError(h: seq<Rx>) {
    SinceAccepted(h, r => BadCrc(r))
  }

  ghost predicate ProtocolError(h: seq<Rx>) {
    SinceAccepted(h, r => Uninterpretable(r))
  }

  function CountBadCrc(h: seq<Rx>): nat {
    if h == [] then 0 else CountBadCrc(h[..|h| - 1]) + (if BadCrc(h[|h| - 1]) then 1 else 0)
  }

  /** The newest frame spoils the link: a CRC error, or an accepted frame out of sequence. */
  predicate Degrades(h: seq<Rx>)
    requires h != []
  {
    BadCrc(h[|h| - 1]) || (Accepted(h[|h| - 1]) && SeqGap(Accepts(h)))
  }

  function LastDegraded(h: seq<Rx>): Option<nat> {
    if h == [] then None
    else if Degrades(h) then Some(h[|h| - 1].noticed)
    else LastDegraded(h[..|h| - 1])
  }

  function LastVerdict(h: seq<Rx>): DecodeResult {
    if h == [] then DECODE_OK
    else if h[|h| - 1].id == CAN_ID_CONTROL then ControlVerdict(h[|h| - 1].id, h[|h| - 1].frame)
    else LastVerdict(h[..|h| - 1])
  }

  // --- what the controller may conclude --------------------------------------

  /** The Jetson as the controller sees it: never heard, or its last message and that message's age. */
  datatype Link = Silent | Heard(msg: ControlMsg, age: int)

  function TrueLink(a: seq<Receipt>, now: nat): Link
  {
    if a == [] then Silent else Heard(a[|a| - 1].msg, now - a[|a| - 1].time)
  }

  /** The same with the age as a 32-bit clock measures it. */
  function WrappedLink(a: seq<Receipt>, now: nat): Link
  {
    if a == [] then Silent else Heard(a[|a| - 1].msg, Wrap32(now - a[|a| - 1].time))
  }

  predicate Tripped(l: Link, timeout: u32) {
    l.Silent? || l.age >= timeout
  }

  /** A command that asks for motion somebody is able to supervise. */
  predicate PermitsMotion(m: ControlMsg) {
    !m.stop && ((m.mode == MODE_MANUAL && !m.c2Lost) || (m.mode == MODE_AUTONOMOUS && !m.autonomyAbort))
  }

  predicate MayMove(l: Link, timeout: u32) {
    l.Heard? && l.age < timeout && PermitsMotion(l.msg)
  }

  function Outputs(l: Link, timeout: u32): (i16, i16) {
    if MayMove(l, timeout) then (l.msg.driveCmd, l.msg.steerCmd) else (0, 0)
  }

  function CmdAge(l: Link): u16 {
    if l.Silent? then CMD_AGE_UNKNOWN else if l.age < 0 then 0 else if l.age < CMD_AGE_MAX then l.age else CMD_AGE_MAX
  }

  function JetsonState(l: Link, timeout: u32, degraded: bool): u8 {
    if Tripped(l, timeout) then LINK_LOST else if degraded then LINK_DEGRADED else LINK_OK
  }

  function C2State(l: Link, timeout: u32): u8 {
    if Tripped(l, timeout) then LINK_NOT_REPORTED else if l.msg.c2Lost then LINK_LOST else LINK_OK
  }

  /** The light shows the controller's own mode; a request counts only for arrival in AUTONOMOUS. */
  function Indicator(l: Link, timeout: u32): u8 {
    if Tripped(l, timeout) || (l.msg.mode == MODE_MANUAL && l.msg.c2Lost) then INDICATOR_FAULT
    else if l.msg.mode == MODE_DISABLED then INDICATOR_OFF
    else if l.msg.mode == MODE_MANUAL then INDICATOR_TELEOP
    else if l.msg.indicatorRequest == INDICATOR_ARRIVED then INDICATOR_ARRIVED
    else INDICATOR_AUTONOMOUS
  }

  /** The mode echoed back: the last message's, DISABLED before the first. */
  function ModeOf(l: Link): u8 {
    if l.Heard? then l.msg.mode else MODE_DISABLED
  }

  /** The fault word tells the history's errors, the timeout at one reading and the base-station link at another. */
  ghost predicate FaultsOf(h: seq<Rx>, timeout: u32, w: bv16, base: bv16, first: nat, second: nat) {
    Faults.Explains(w, base, Tripped(WrappedLink(Accepts(h), first), timeout), ProtocolError(h), CrcError(h),
                    SeqGap(Accepts(h)), C2State(WrappedLink(Accepts(h), second), timeout) == LINK_LOST)
  }

  function WrappedDegraded(h: seq<Rx>, now: nat): bool
  {
    match LastDegraded(h)
    case None => false
    case Some(t) => Wrap32(now - t) < LINK_DEGRADED_HOLD_MS
  }

  function TrueDegraded(h: seq<Rx>, now: nat): bool
  {
    match LastDegraded(h)
    case None => false
    case Some(t) => now - t < LINK_DEGRADED_HOLD_MS
  }

  // --- the controller's fields as the history determines them ----------------

  /** Safest values before the first frame: stopped, disabled, base station lost. */
  const BOOT_CONTROL: ControlMsg :=
    ControlMsg(0, 0, MODE_DISABLED, true, false, false, INDICATOR_OFF, true, 0)

  datatype Summary = Summary(
    lastControl: ControlMsg, haveControl: bool, lastControlMs: u32, lastDecode: DecodeResult,
    protocolError: bool, crcError: bool, seqGap: bool, lastDegradedMs: u32, everDegraded: bool,
    accepted: u32, ignored: u32, gapsSeen: u32, crcErrorsSeen: u32, lostEstimate: u32)

  ghost function Summarize(h: seq<Rx>): Summary {
    var a, d := Accepts(h), LastDegraded(h);
    Summary(
      if a == [] then BOOT_CONTROL else a[|a| - 1].msg,
      a != [],
      if a == [] then 0 else Wrap32(a[|a| - 1].time),
      LastVerdict(h),
      ProtocolError(h), CrcError(h), SeqGap(a),
      if d.Some? then Wrap32(d.value) else 0,
      d.Some?,
      Wrap32(|a|), Wrap32(|h| - |a|), Wrap32(GapsSeen(a)), Wrap32(CountBadCrc(h)), Wrap32(Missing(a)))
  }

  // --- facts about histories -------------------------------------------------

  lemma {:induction false} AcceptsAreReceived(h: seq<Rx>, now: nat)
    requires Chronological(h, now)
    ensures forall i | 0 <= i < |Accepts(h)| :: Accepts(h)[i].time <= now && ValidControl(Accepts(h)[i].msg)
    ensures LastDegraded(h).Some? ==> LastDegraded(h).value <= now
  {
    hide ControlVerdict, ControlFields, ValidControl;
    if h != [] {
      var p, r := h[..|h| - 1], h[|h| - 1];
      AcceptsAreReceived(p, now);
      if Accepted(r) { EncodeOfDecode(CAN_ID_CONTROL, r.frame); }
    }
  }

  lemma SinceAcceptedSnoc(h: seq<Rx>, r: Rx, bad: Rx -> bool)
    requires bad(r) ==> !Accepted(r)
    ensures SinceAccepted(h + [r], bad) <==> !Accepted(r) && (bad(r) || SinceAccepted(h, bad))
  {
    hide Accepted;
    var g := h + [r];
    if SinceAccepted(g, bad) {
      var i :| 0 <= i < |g| && bad(g[i]) && forall j | i <= j < |g| :: !Accepted(g[j]);
      assert !Accepted(g[|h|]);
      if i < |h| {
        assert bad(h[i]) && forall j | i <= j < |h| :: !Accepted(h[j]) by {
          assert g[i] == h[i];
          forall j | i <= j < |h|
            ensures !Accepted(h[j])
          {
            assert g[j] == h[j];
          }
        }
      }
    }
    if !Accepted(r) && SinceAccepted(h, bad) {
      var i :| 0 <= i < |h| && bad(h[i]) && forall j | i <= j < |h| :: !Accepted(h[j]);
      assert bad(g[i]) && forall j | i <= j < |g| :: !Accepted(g[j]);
    }
    if !Accepted(r) && bad(r) {
      assert bad(g[|h|]);
    }
  }

  /** How one more reception changes what the history says. */
  lemma Receive(h: seq<Rx>, r: Rx)
    ensures Accepts(h + [r])
         == if Accepted(r) then Accepts(h) + [Receipt(r.time, ControlFields(r.frame))] else Accepts(h)
    ensures CrcError(h + [r]) == (!Accepted(r) && (BadCrc(r) || CrcError(h)))
    ensures ProtocolError(h + [r]) == (!Accepted(r) && (Uninterpretable(r) || ProtocolError(h)))
    ensures CountBadCrc(h + [r]) == CountBadCrc(h) + (if BadCrc(r) then 1 else 0)
    ensures LastVerdict(h + [r])
         == if r.id == CAN_ID_CONTROL then ControlVerdict(r.id, r.frame) else LastVerdict(h)
    ensures LastDegraded(h + [r])
         == if BadCrc(r) || (Accepted(r) && SeqGap(Accepts(h + [r]))) then Some(r.noticed) else LastDegraded(h)
  {
    hide ControlVerdict, ControlFields, SeqGap, SinceAccepted;
    assert (h + [r])[..|h|] == h;
    SinceAcceptedSnoc(h, r, x => BadCrc(x));
    SinceAcceptedSnoc(h, r, x => Uninterpretable(x));
  }

  /** The history of one valid message. */
  lemma OneAccepted(t: nat, m: ControlMsg)
    requires ValidControl(m)
    ensures var r := Rx(t, t, CAN_ID_CONTROL, ControlFrame(CAN_ID_CONTROL, m));
            Accepted(r) && Accepts([r]) == [Receipt(t, m)]
  {
    hide ControlFrame, ControlVerdict, ControlFields, ValidControl;
    var r := Rx(t, t, CAN_ID_CONTROL, ControlFrame(CAN_ID_CONTROL, m));
    DecodeOfEncode(CAN_ID_CONTROL, m);
    Receive([], r);
    assert [] + [r] == [r];
  }

  lemma ChronologicalSnoc(h: seq<Rx>, r: Rx)
    requires Chronological(h, r.noticed) && r.noticed <= r.time
    ensures Chronological(h + [r], r.time)
  {}

  /** How one more accepted frame changes the sequence statistics. */
  lemma AcceptOne(a: seq<Receipt>, x: Receipt)
    ensures var a' := a + [x];
            if a == [] then !SeqGap(a') && GapsSeen(a') == 0 && Missing(a') == 0 && Duplicates(a') == 0
            else var d := SeqDelta(a[|a| - 1].msg.seqNo, x.msg.seqNo);
              SeqGap(a') == (d != 1) && GapsSeen(a') == GapsSeen(a) + (if d != 1 then 1 else 0)
              && Missing(a') == Missing(a) + (if d > 1 then d - 1 else 0)
              && Duplicates(a') == Duplicates(a) + (if d == 0 then 1 else 0)
    ensures |a| <= 1 ==> GapsSeen(a) == 0 && Missing(a) == 0
  {
    hide SeqDelta;
    assert (a + [x])[..|a|] == a;
  }

  lemma SummaryAfterForeign(h: seq<Rx>, r: Rx)
    requires r.id != CAN_ID_CONTROL
    ensures var s := Summarize(h); Summarize(h + [r]) == s.(ignored := Add32(s.ignored, 1))
  {
    hide ControlVerdict, ControlFields, Accepts, CrcError, ProtocolError, CountBadCrc, LastDegraded, LastVerdict,
      SeqGap, GapsSeen, Missing, Wrap32;
    Receive(h, r);
    SumWraps(|h| - |Accepts(h)|, 1);
  }

  lemma SummaryAfterRejection(h: seq<Rx>, r: Rx)
    requires r.id == CAN_ID_CONTROL && !Accepted(r)
    ensures var s := Summarize(h);
            var s' := s.(ignored := Add32(s.ignored, 1), lastDecode := ControlVerdict(r.id, r.frame));
            Summarize(h + [r])
              == if BadCrc(r)
                 then s'.(crcError := true, crcErrorsSeen := Add32(s.crcErrorsSeen, 1),
                          lastDegradedMs := Wrap32(r.noticed), everDegraded := true)
                 else s'.(protocolError := true)
  {
    hide ControlVerdict, ControlFields, Accepts, CrcError, ProtocolError, CountBadCrc, LastDegraded, LastVerdict,
      SeqGap, GapsSeen, Missing, Wrap32;
    Receive(h, r);
    SumWraps(|h| - |Accepts(h)|, 1);
    SumWraps(CountBadCrc(h), 1);
  }

  /** The wrapped counters after one more accepted frame. */
  lemma CountersAfter(a: seq<Receipt>, x: Receipt)
    ensures var a' := a + [x];
            var d := if a == [] then 1 else SeqDelta(a[|a| - 1].msg.seqNo, x.msg.seqNo);
            && SeqGap(a') == (d != 1)
            && Wrap32(|a'|) == Add32(Wrap32(|a|), 1)
            && Wrap32(GapsSeen(a')) == (if d != 1 then Add32(Wrap32(GapsSeen(a)), 1) else Wrap32(GapsSeen(a)))
            && Wrap32(Missing(a')) == (if d > 1 then Add32(Wrap32(Missing(a)), d - 1) else Wrap32(Missing(a)))
  {
    hide SeqGap, GapsSeen, Missing, SeqDelta, Wrap32;
    AcceptOne(a, x);
    SumWraps(|a|, 1);
    SumWraps(GapsSeen(a), 1);
    if a != [] {
      var d: int := SeqDelta(a[|a| - 1].msg.seqNo, x.msg.seqNo);
      SumWraps(Missing(a), d - 1);
    }
  }

  lemma SummaryAfterAcceptance(h: seq<Rx>, r: Rx)
    requires Accepted(r)
    ensures |r.frame| == FRAME_DLC
    ensures var s, m := Summarize(h), ControlFields(r.frame);
            var d := SeqDelta(s.lastControl.seqNo, m.seqNo);
            var gap := s.haveControl && d != 1;
            Summarize(h + [r]) == Summary(
              m, true, Wrap32(r.time), DECODE_OK, false, false, gap,
              if gap then Wrap32(r.noticed) else s.lastDegradedMs, gap || s.everDegraded,
              Add32(s.accepted, 1), s.ignored,
              if gap then Add32(s.gapsSeen, 1) else s.gapsSeen, s.crcErrorsSeen,
              if gap && d > 1 then Add32(s.lostEstimate, d - 1) else s.lostEstimate)
  {
    hide ControlFields, Accepts, CrcError, ProtocolError, CountBadCrc, LastDegraded, LastVerdict,
      SeqGap, GapsSeen, Missing, SeqDelta, Wrap32;
    var a, m := Accepts(h), ControlFields(r.frame);
    Receive(h, r);
    CountersAfter(a, Receipt(r.time, m));
  }

  lemma NoFrameNoGap(h: seq<Rx>)
    ensures !Summarize(h).haveControl ==> !Summarize(h).seqGap
  {
    hide Accepts;
  }

  lemma AcceptedLength(r: Rx)
    requires Accepted(r)
    ensures |r.frame| == FRAME_DLC
  {}

  /** Where the last accepted frame stands in the history. */
  lemma {:induction false} LastAccepted(h: seq<Rx>) returns (i: nat)
    requires Accepts(h) != []
    ensures i < |h| && Accepted(h[i]) && forall j | i < j < |h| :: !Accepted(h[j])
    ensures Accepts(h)[|Accepts(h)| - 1] == Receipt(h[i].time, ControlFields(h[i].frame))
  {
    hide ControlVerdict, ControlFields;
    i := |h| - 1;
    if !Accepted(h[i]) {
      i := LastAccepted(h[..i]);
    }
  }

  lemma {:induction false} AcceptedLast(h: seq<Rx>, i: nat)
    requires i < |h| && Accepted(h[i]) && forall j | i < j < |h| :: !Accepted(h[j])
    ensures Accepts(h) != [] && Accepts(h)[|Accepts(h)| - 1] == Receipt(h[i].time, ControlFields(h[i].frame))
  {
    hide ControlVerdict, ControlFields;
    if i < |h| - 1 {
      AcceptedLast(h[..|h| - 1], i);
    }
  }
}
