/** Reassembly of telemetry cycles: TelemetryAssembler of host/jetson_test.py. */
module Assembler {
  import opened Words
  import opened Config
  import Frame
  import opened Protocol

  const TELEM_IDS: set<u32> :=
    {CAN_ID_TELEM_DRIVE_L, CAN_ID_TELEM_DRIVE_R, CAN_ID_TELEM_POWER, CAN_ID_TELEM_STATE}

  /** A decoded telemetry frame. */
  datatype Fragment = Fragment(t: Telemetry, seqNo: u8)

  /** The four messages of one published snapshot. */
  datatype Snapshot = Snapshot(seqNo: u8, driveL: Telemetry, driveR: Telemetry, power: Telemetry, state: Telemetry)

  function Merge(seqNo: u8, parts: map<u32, Telemetry>): Snapshot
    requires parts.Keys == TELEM_IDS
  {
    Snapshot(seqNo, parts[CAN_ID_TELEM_DRIVE_L], parts[CAN_ID_TELEM_DRIVE_R], parts[CAN_ID_TELEM_POWER],
             parts[CAN_ID_TELEM_STATE])
  }

  datatype Assembly = Assembly(
    partial: map<u32, Telemetry>, partialSeq: Option<u8>, snapshot: Option<Snapshot>,
    completeCount: nat, tornCount: nat)

  const EMPTY: Assembly := Assembly(map[], None, None, 0, 0)

  /** One decoded frame. */
  function Take(s: Assembly, f: Fragment): Assembly {
    var isNew := s.partialSeq != Some(f.seqNo);
    var torn := isNew && s.partialSeq.Some? && |s.partial| < |TELEM_IDS|;
    var partial := (if isNew then map[] else s.partial)[IdOf(f.t) := f.t];
    var complete := partial.Keys == TELEM_IDS;
    Assembly(
      partial, Some(f.seqNo),
      if complete then Some(Merge(f.seqNo, partial)) else s.snapshot,
      if complete then s.completeCount + 1 else s.completeCount,
      if torn then s.tornCount + 1 else s.tornCount)
  }

  function TakeAll(fs: seq<Fragment>): Assembly {
    if fs == [] then EMPTY else Take(TakeAll(fs[..|fs| - 1]), fs[|fs| - 1])
  }

  /** The frames that decode, in order of arrival; everything else on the bus leaves no trace here. */
  function Fragments(h: seq<(u32, seq<bv8>)>): seq<Fragment> {
    if h == [] then []
    else
      var fs, (id, frame) := Fragments(h[..|h| - 1]), h[|h| - 1];
      if IsTelemetryId(id) && TelemetryVerdict(id, frame) == DECODE_OK
      then fs + [Fragment(TelemetryFields(id, frame), Val(frame[FRAME_SEQ_OFFSET]))]
      else fs
  }

  class TelemetryAssembler {
    var partial: map<u32, Telemetry>
    var partialSeq: Option<u8>
    var snapshot: Option<Snapshot>
    var snapshotSeq: Option<u8>
    var completeCount: nat
    var tornCount: nat
    var framesById: map<u32, nat>
    var decodeErrors: map<DecodeResult, nat>

    /** Every frame fed so far. */
    ghost var trace: seq<(u32, seq<bv8>)>

    ghost function State(): Assembly
      reads this
    {
      Assembly(partial, partialSeq, snapshot, completeCount, tornCount)
    }

    ghost predicate SeqShown()
      reads this
    {
      snapshotSeq == if snapshot.Some? then Some(snapshot.value.seqNo) else None
    }

    ghost predicate Valid()
      reads this
    {
      && State() == TakeAll(Fragments(trace))
      && SeqShown()
      && partial.Keys <= TELEM_IDS
      && framesById.Keys == TELEM_IDS
      && Counted(trace, framesById, decodeErrors)
    }

    constructor ()
      ensures Valid() && trace == []
    {
      partial, partialSeq, snapshot, snapshotSeq, completeCount, tornCount := map[], None, None, None, 0, 0;
      framesById := map id | id in TELEM_IDS :: 0;
      decodeErrors := map[];
      trace := [];
      NothingFed(map id | id in TELEM_IDS :: 0);
    }

    /** Returns whether the frame was telemetry at all; only a frame that decodes changes the assembly. */
    method Feed(id: u32, frame: seq<bv8>) returns (telemetry: bool)
      requires Valid()
      modifies this
      ensures Valid() && trace == old(trace) + [(id, frame)]
      ensures telemetry == IsTelemetryId(id)
      ensures var result := TelemetryVerdict(id, frame);
              && framesById == (if telemetry && result == DECODE_OK
                                then old(framesById)[id := old(framesById)[id] + 1] else old(framesById))
              && decodeErrors == (if telemetry && result != DECODE_OK
                                  then old(decodeErrors)[result := ErrorCount(old(decodeErrors), result) + 1]
                                  else old(decodeErrors))
    {
      hide TelemetryVerdict, TelemetryFields, TakeAll, Take, Val, Counted, ErrorCount;
      FragmentsSnoc(trace, id, frame);
      OneMoreFed(trace, framesById, decodeErrors, id, frame);
      trace := trace + [(id, frame)];
      if !IsTelemetryId(id) { return false; }
      var result := TelemetryVerdict(id, frame);
      if result != DECODE_OK {
        decodeErrors := decodeErrors[result := ErrorCount(decodeErrors, result) + 1];
        return true;
      }
      framesById := framesById[id := framesById[id] + 1];
      var decoded, seqNo := TelemetryFields(id, frame), Val(frame[FRAME_SEQ_OFFSET]);
      TakeAllSnoc(Fragments(old(trace)), Fragment(decoded, seqNo));
      Collect(decoded, seqNo);
      return true;
    }

    method Collect(decoded: Telemetry, seqNo: u8)
      requires partial.Keys <= TELEM_IDS
      modifies `partial, `partialSeq, `snapshot, `snapshotSeq, `completeCount, `tornCount
      ensures State() == Take(old(State()), Fragment(decoded, seqNo))
      ensures partial.Keys <= TELEM_IDS
      ensures old(SeqShown()) ==> SeqShown()
    {
      if partialSeq.None? || seqNo != partialSeq.value {
        if partialSeq.Some? && |partial| < |TELEM_IDS| {
          tornCount := tornCount + 1;
        }
        partial := map[];
        partialSeq := Some(seqNo);
      }
      partial := partial[IdOf(decoded) := decoded];
      FullSet(partial.Keys);
      if |partial| == |TELEM_IDS| {
        snapshot := Some(Merge(seqNo, partial));
        snapshotSeq := Some(seqNo);
        completeCount := completeCount + 1;
      }
    }
  }

  /** The positions of the frames that decoded under an identifier, and of those that failed in one way. */
  ghost function DecodedAt(h: seq<(u32, seq<bv8>)>, id: u32): set<nat> {
    set i: nat | i < |h| && h[i].0 == id && TelemetryVerdict(id, h[i].1) == DECODE_OK
  }

  ghost function FailedAt(h: seq<(u32, seq<bv8>)>, result: DecodeResult): set<nat> {
    set i: nat | i < |h| && Yields(h[i], result)
  }

  predicate Yields(x: (u32, seq<bv8>), result: DecodeResult) {
    IsTelemetryId(x.0) && TelemetryVerdict(x.0, x.1) == result
  }

  /** The counters are the numbers of those frames. */
  ghost predicate Counted(h: seq<(u32, seq<bv8>)>, framesById: map<u32, nat>, decodeErrors: map<DecodeResult, nat>) {
    && (forall id | id in framesById :: framesById[id] == |DecodedAt(h, id)|)
    && forall result | result != DECODE_OK ::
         |FailedAt(h, result)| == if result in decodeErrors then decodeErrors[result] else 0
  }

  lemma NothingFed(framesById: map<u32, nat>)
    requires forall id | id in framesById :: framesById[id] == 0
    ensures Counted([], framesById, map[])
  {
    assert forall id :: DecodedAt([], id) == {};
    assert forall result :: FailedAt([], result) == {};
  }

  lemma OneMoreFed(h: seq<(u32, seq<bv8>)>, byId: map<u32, nat>, errors: map<DecodeResult, nat>, id: u32,
                   frame: seq<bv8>)
    requires Counted(h, byId, errors) && byId.Keys == TELEM_IDS
    ensures var g, result := h + [(id, frame)], TelemetryVerdict(id, frame);
            && (!IsTelemetryId(id) ==> Counted(g, byId, errors))
            && (IsTelemetryId(id) && result == DECODE_OK ==> Counted(g, byId[id := byId[id] + 1], errors))
            && (IsTelemetryId(id) && result != DECODE_OK ==>
                  Counted(g, byId, errors[result := ErrorCount(errors, result) + 1]))
  {
    hide TelemetryVerdict, DecodedAt, FailedAt;
    forall k: u32
      ensures |DecodedAt(h + [(id, frame)], k)|
           == |DecodedAt(h, k)| + (if k == id && TelemetryVerdict(id, frame) == DECODE_OK then 1 else 0)
    {
      MoreDecoded(h, id, frame, k);
    }
    forall r
      ensures |FailedAt(h + [(id, frame)], r)|
           == |FailedAt(h, r)| + (if Yields((id, frame), r) then 1 else 0)
    {
      MoreFailed(h, (id, frame), r);
    }
  }

  lemma MoreDecoded(h: seq<(u32, seq<bv8>)>, id: u32, frame: seq<bv8>, k: u32)
    ensures |DecodedAt(h + [(id, frame)], k)|
         == |DecodedAt(h, k)| + (if k == id && TelemetryVerdict(id, frame) == DECODE_OK then 1 else 0)
  {
    hide TelemetryVerdict;
    var g, n := h + [(id, frame)], |h|;
    assert forall i: nat | i < n :: g[i] == h[i];
    var more := k == id && TelemetryVerdict(id, frame) == DECODE_OK;
    assert DecodedAt(g, k) == if more then DecodedAt(h, k) + {n} else DecodedAt(h, k);
  }

  lemma FailedOf(h: seq<(u32, seq<bv8>)>, r: DecodeResult)
    ensures forall i: nat :: i in FailedAt(h, r) <==> i < |h| && Yields(h[i], r)
  {}

  lemma MoreFailed(h: seq<(u32, seq<bv8>)>, x: (u32, seq<bv8>), r: DecodeResult)
    ensures |FailedAt(h + [x], r)| == |FailedAt(h, r)| + (if Yields(x, r) then 1 else 0)
  {
    hide Yields;
    var g, n := h + [x], |h|;
    FailedOf(h, r);
    FailedOf(g, r);
    hide FailedAt;
    forall i: nat
      ensures i in FailedAt(g, r) <==> i in FailedAt(h, r) || (i == n && Yields(x, r))
    {
      if i < n { assert g[i] == h[i]; }
    }
    assert n !in FailedAt(h, r);
    if Yields(x, r) {
      assert FailedAt(g, r) == FailedAt(h, r) + {n};
    } else {
      assert FailedAt(g, r) == FailedAt(h, r);
    }
  }

  function ErrorCount(errors: map<DecodeResult, nat>, result: DecodeResult): nat {
    if result in errors then errors[result] else 0
  }

  lemma FullSet(s: set<u32>)
    requires s <= TELEM_IDS
    ensures |s| <= |TELEM_IDS| && (|s| == |TELEM_IDS| <==> s == TELEM_IDS)
  {
    SubsetSize(s, TELEM_IDS);
  }

  lemma SubsetSize(s: set<u32>, t: set<u32>)
    requires s <= t
    ensures |s| <= |t| && (|s| == |t| ==> s == t)
  {
    assert |t| == |s| + |t - s| by { assert t == s + (t - s); }
  }

  lemma FragmentsSnoc(h: seq<(u32, seq<bv8>)>, id: u32, frame: seq<bv8>)
    ensures IsTelemetryId(id) && TelemetryVerdict(id, frame) == DECODE_OK
        ==> |frame| == FRAME_DLC
            && Fragments(h + [(id, frame)])
            == Fragments(h) + [Fragment(TelemetryFields(id, frame), Val(frame[FRAME_SEQ_OFFSET]))]
    ensures !(IsTelemetryId(id) && TelemetryVerdict(id, frame) == DECODE_OK)
        ==> Fragments(h + [(id, frame)]) == Fragments(h)
  {
    hide Frame.CrcMatches, TelemetryFields, Val;
    assert (h + [(id, frame)])[..|h|] == h;
  }

  lemma TakeAllSnoc(fs: seq<Fragment>, f: Fragment)
    ensures TakeAll(fs + [f]) == Take(TakeAll(fs), f)
  {
    hide Take;
    assert (fs + [f])[..|fs|] == fs;
  }
}
