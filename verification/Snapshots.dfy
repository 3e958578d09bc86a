/** What the assembler publishes over a lossy channel, against a specification by cycle. */
module Snapshots {
  import opened Words
  import opened Config
  import opened Protocol
  import opened Assembler

  /** A telemetry message that came through, and the cycle it was sent in. */
  datatype Delivery = Delivery(cycle: nat, t: Telemetry)

  function Stamp(d: Delivery): Fragment {
    Fragment(d.t, d.cycle % 256)
  }

  function Wire(ds: seq<Delivery>): seq<Fragment> {
    seq(|ds|, i requires 0 <= i < |ds| => Stamp(ds[i]))
  }

  /** In order, and no message of a cycle twice; any may be missing. */
  ghost predicate InOrder(ds: seq<Delivery>) {
    forall i, j | 0 <= i < j < |ds| ::
      ds[i].cycle <= ds[j].cycle && (ds[i].cycle == ds[j].cycle ==> IdOf(ds[i].t) != IdOf(ds[j].t))
  }

  predicate Confused(c: nat, d: nat) {
    c != d && c % 256 == d % 256
  }

  /** Neighbouring deliveries of different cycles carry different sequence numbers. */
  ghost predicate ToldApart(ds: seq<Delivery>) {
    forall i | 0 <= i < |ds| - 1 :: !Confused(ds[i].cycle, ds[i + 1].cycle)
  }

  // --- the specification, cycle by cycle -------------------------------------

  ghost function Kinds(ds: seq<Delivery>, cycle: nat): set<u32> {
    set d | d in ds && d.cycle == cycle :: IdOf(d.t)
  }

  ghost function Delivered(ds: seq<Delivery>): set<nat> {
    set d | d in ds :: d.cycle
  }

  /** The cycles of which all four messages came through. */
  ghost function Complete(ds: seq<Delivery>): set<nat> {
    set k | k in Delivered(ds) && Kinds(ds, k) == TELEM_IDS
  }

  /** The cycles that are over and came through in part. */
  ghost function Torn(ds: seq<Delivery>): set<nat> {
    set k | k in Delivered(ds) && k < ds[|ds| - 1].cycle && Kinds(ds, k) != TELEM_IDS
  }

  /** The snapshot is the four messages of one cycle and no others. */
  predicate IsSnapshotOf(ds: seq<Delivery>, k: nat, s: Snapshot) {
    && s.seqNo == k % 256
    && s.driveL.DriveL? && Delivery(k, s.driveL) in ds
    && s.driveR.DriveR? && Delivery(k, s.driveR) in ds
    && s.power.Power? && Delivery(k, s.power) in ds
    && s.state.State? && Delivery(k, s.state) in ds
  }

  ghost predicate NewestSnapshot(ds: seq<Delivery>, s: Option<Snapshot>) {
    if Complete(ds) == {} then s.None?
    else s.Some? && exists k | k in Complete(ds) :: (forall j | j in Complete(ds) :: j <= k) && IsSnapshotOf(ds, k, s.value)
  }

  /** The assembler's counts and snapshot are what the specification says. */
  ghost predicate Exact(ds: seq<Delivery>, s: Assembly) {
    s.completeCount == |Complete(ds)| && s.tornCount == |Torn(ds)| && NewestSnapshot(ds, s.snapshot)
  }

  // --- the theorem -----------------------------------------------------------

  /**
   * Over any in-order, duplicate-free channel, whatever it loses: counts and
   * snapshot are exact at every point of the run exactly when the channel never
   * skips so far that neighbouring deliveries carry the same number.
   */
  lemma SnapshotsExact(ds: seq<Delivery>)
    requires InOrder(ds)
    ensures ToldApart(ds) <==> forall n | 0 <= n <= |ds| :: ExactAt(ds, n)
  {
    hide InOrder, ToldApart, Exact, TakeAll;
    if ToldApart(ds) {
      forall n | 0 <= n <= |ds|
        ensures ExactAt(ds, n)
      {
        Prefix(ds, n);
        Follows(ds[..n]);
      }
    } else {
      var n := Mixup(ds);
      assert !ExactAt(ds, n);
    }
  }

  ghost predicate ExactAt(ds: seq<Delivery>, n: nat)
    requires n <= |ds|
  {
    Exact(ds[..n], TakeAll(Wire(ds[..n])))
  }

  /** In particular when consecutively delivered cycles are fewer than 256 apart. */
  lemma NearCyclesToldApart(ds: seq<Delivery>)
    requires InOrder(ds) && forall i | 0 <= i < |ds| - 1 :: ds[i + 1].cycle - ds[i].cycle < 256
    ensures ToldApart(ds)
  {}

  /** What the assembler's own fields say about any run of raw frames that carries such deliveries. */
  lemma AssemblerIsExact(a: TelemetryAssembler, ds: seq<Delivery>)
    requires a.Valid() && Fragments(a.trace) == Wire(ds) && InOrder(ds) && ToldApart(ds)
    ensures a.completeCount == |Complete(ds)| && a.tornCount == |Torn(ds)|
    ensures Complete(ds) == {} <==> a.snapshot.None?
    ensures a.snapshot.Some?
        ==> exists k | k in Complete(ds) ::
              (forall j | j in Complete(ds) :: j <= k) && IsSnapshotOf(ds, k, a.snapshot.value)
  {
    hide InOrder, ToldApart, TakeAll, Fragments, Complete, Torn, IsSnapshotOf;
    Follows(ds);
  }

  /** A frame of the controller arrives as the message it was made from; any other frame leaves no trace. */
  lemma Arrival(h: seq<(u32, seq<bv8>)>, ds: seq<Delivery>, d: Delivery)
    requires Fragments(h) == Wire(ds)
    ensures Fragments(h + [(IdOf(d.t), TelemetryFrame(d.t, d.cycle % 256))]) == Wire(ds + [d])
    ensures forall id: u32, frame | !IsTelemetryId(id) || TelemetryVerdict(id, frame) != DECODE_OK ::
              Fragments(h + [(id, frame)]) == Wire(ds)
  {
    hide Fragments, TelemetryVerdict, TelemetryFields, TelemetryFrame, Val;
    var id, frame := IdOf(d.t), TelemetryFrame(d.t, d.cycle % 256);
    TelemetryRoundTrip(id, frame, d.t, d.cycle % 256);
    FragmentsSnoc(h, id, frame);
    WireSnoc(ds, d);
    forall id: u32, frame | !IsTelemetryId(id) || TelemetryVerdict(id, frame) != DECODE_OK
      ensures Fragments(h + [(id, frame)]) == Wire(ds)
    {
      FragmentsSnoc(h, id, frame);
    }
  }

  // --- following a run -------------------------------------------------------

  /** The assembler is collecting the cycle of the last delivery. */
  ghost predicate Collecting(ds: seq<Delivery>, s: Assembly) {
    if ds == [] then s == EMPTY
    else
      var k := ds[|ds| - 1].cycle;
      && s.partialSeq == Some(k % 256)
      && s.partial.Keys == Kinds(ds, k)
      && forall id | id in s.partial :: IdOf(s.partial[id]) == id && Delivery(k, s.partial[id]) in ds
  }

  lemma {:induction false} Follows(ds: seq<Delivery>)
    requires InOrder(ds) && ToldApart(ds)
    ensures var s := TakeAll(Wire(ds)); Collecting(ds, s) && Exact(ds, s)
  {
    hide InOrder, ToldApart, Collecting, Exact, Take;
    if ds == [] {
      NothingYet();
    } else {
      var p, d := ds[..|ds| - 1], ds[|ds| - 1];
      assert p + [d] == ds;
      Prefix(ds, |p|);
      Follows(p);
      assert p == [] || !Confused(p[|p| - 1].cycle, d.cycle) by { LastPair(ds); }
      WireSnoc(p, d);
      TakeAllSnoc(Wire(p), Stamp(d));
      var s := TakeAll(Wire(p));
      Collects(p, d, s);
      Counts(p, d, s);
      Publishes(p, d, s);
      ExactSnoc(p, d, s);
    }
  }

  lemma NothingYet()
    ensures Collecting([], TakeAll(Wire([]))) && Exact([], TakeAll(Wire([])))
  {}

  lemma Prefix(ds: seq<Delivery>, n: nat)
    requires n <= |ds|
    ensures InOrder(ds) ==> InOrder(ds[..n])
    ensures ToldApart(ds) ==> ToldApart(ds[..n])
  {
    if ToldApart(ds) {
      forall i | 0 <= i < n - 1
        ensures !Confused(ds[..n][i].cycle, ds[..n][i + 1].cycle)
      {
        assert !Confused(ds[i].cycle, ds[i + 1].cycle);
      }
    }
  }

  lemma LastPair(ds: seq<Delivery>)
    requires |ds| > 0 && ToldApart(ds)
    ensures |ds| > 1 ==> !Confused(ds[|ds| - 2].cycle, ds[|ds| - 1].cycle)
  {}

  lemma WireSnoc(ds: seq<Delivery>, d: Delivery)
    ensures Wire(ds + [d]) == Wire(ds) + [Stamp(d)]
  {}

  lemma KindsSnoc(p: seq<Delivery>, d: Delivery, k: nat)
    requires InOrder(p + [d])
    ensures k != d.cycle ==> Kinds(p + [d], k) == Kinds(p, k)
    ensures k == d.cycle ==> Kinds(p + [d], k) == Kinds(p, k) + {IdOf(d.t)} && IdOf(d.t) !in Kinds(p, k)
    ensures k > LastCycle(p) ==> Kinds(p, k) == {} && k !in Delivered(p)
  {
    var q := p + [d];
    assert forall e :: e in q <==> e in p || e == d;
    forall e | e in p && e.cycle == d.cycle
      ensures IdOf(e.t) != IdOf(d.t)
    {
      var i :| 0 <= i < |p| && p[i] == e;
      assert q[i] == e && q[|p|] == d;
    }
    forall e | e in p
      ensures e.cycle <= LastCycle(p)
    {
      var i :| 0 <= i < |p| && p[i] == e;
      assert q[i] == e && q[|p| - 1] == p[|p| - 1];
    }
  }

  function LastCycle(p: seq<Delivery>): int {
    if p == [] then -1 else p[|p| - 1].cycle
  }

  /** How one more delivery changes the specification. */
  lemma CyclesSnoc(p: seq<Delivery>, d: Delivery)
    requires InOrder(p + [d])
    ensures LastCycle(p) <= d.cycle && d.cycle !in Complete(p) && LastCycle(p) !in Torn(p)
    ensures Complete(p + [d]) == if Kinds(p + [d], d.cycle) == TELEM_IDS then Complete(p) + {d.cycle} else Complete(p)
    ensures Torn(p + [d])
         == if p != [] && LastCycle(p) < d.cycle && Kinds(p, p[|p| - 1].cycle) != TELEM_IDS
            then Torn(p) + {p[|p| - 1].cycle} else Torn(p)
    ensures forall k | k in Complete(p) :: k <= LastCycle(p)
  {
    hide Kinds, InOrder;
    var q := p + [d];
    assert LastCycle(p) <= d.cycle by { LastInOrder(p, d); }
    KindsSnoc(p, d, d.cycle);
    assert forall e :: e in q <==> e in p || e == d;
    assert Delivered(q) == Delivered(p) + {d.cycle};
    forall k: nat
      ensures k != d.cycle ==> Kinds(q, k) == Kinds(p, k)
      ensures k in Delivered(p) ==> k <= LastCycle(p)
    {
      KindsSnoc(p, d, k);
    }
    assert q[|q| - 1].cycle == d.cycle;
  }

  lemma LastInOrder(p: seq<Delivery>, d: Delivery)
    requires InOrder(p + [d])
    ensures LastCycle(p) <= d.cycle
  {
    var q := p + [d];
    if p != [] { assert q[|p| - 1].cycle <= q[|p|].cycle; }
  }

  /** A frame starts a new collection exactly when it starts a new cycle. */
  lemma NewCycle(p: seq<Delivery>, d: Delivery, s: Assembly)
    requires InOrder(p + [d]) && Collecting(p, s) && (p == [] || !Confused(p[|p| - 1].cycle, d.cycle))
    ensures s.partialSeq != Some(d.cycle % 256) <==> LastCycle(p) < d.cycle
  {
    hide InOrder, Kinds;
    LastInOrder(p, d);
  }

  lemma TakePartial(s: Assembly, f: Fragment)
    ensures var kept := if s.partialSeq != Some(f.seqNo) then map[] else s.partial;
            Take(s, f).partial == kept[IdOf(f.t) := f.t] && Take(s, f).partialSeq == Some(f.seqNo)
  {
    hide IdOf;
  }

  lemma Collects(p: seq<Delivery>, d: Delivery, s: Assembly)
    requires InOrder(p + [d]) && Collecting(p, s) && (p == [] || !Confused(p[|p| - 1].cycle, d.cycle))
    ensures Collecting(p + [d], Take(s, Stamp(d)))
  {
    hide Kinds, InOrder, Take, IdOf, Confused;
    var q := p + [d];
    LastInOrder(p, d);
    NewCycle(p, d, s);
    TakePartial(s, Stamp(d));
    KindsSnoc(p, d, d.cycle);
    var s' := Take(s, Stamp(d));
    assert q[|q| - 1] == d;
    if LastCycle(p) < d.cycle {
      assert s'.partial.Keys == Kinds(q, d.cycle);
      assert d in q;
    } else {
      assert s'.partial.Keys == s.partial.Keys + {IdOf(d.t)};
      assert d in q && forall e | e in p :: e in q;
    }
  }

  lemma TakeCounts(s: Assembly, f: Fragment)
    ensures var s' := Take(s, f);
            && s'.completeCount == s.completeCount + (if s'.partial.Keys == TELEM_IDS then 1 else 0)
            && s'.tornCount == s.tornCount
               + (if s.partialSeq.Some? && s.partialSeq != Some(f.seqNo) && |s.partial| < |TELEM_IDS| then 1 else 0)
            && (s'.partial.Keys == TELEM_IDS ==> s'.snapshot == Some(Merge(f.seqNo, s'.partial)))
            && (s'.partial.Keys != TELEM_IDS ==> s'.snapshot == s.snapshot)
  {
    hide IdOf;
  }

  lemma Counts(p: seq<Delivery>, d: Delivery, s: Assembly)
    requires InOrder(p + [d]) && Collecting(p, s) && (p == [] || !Confused(p[|p| - 1].cycle, d.cycle))
    requires Exact(p, s)
    ensures var s' := Take(s, Stamp(d));
            s'.completeCount == |Complete(p + [d])| && s'.tornCount == |Torn(p + [d])|
  {
    hide Kinds, InOrder, Complete, Torn, Take, NewestSnapshot, Confused;
    CyclesSnoc(p, d);
    NewCycle(p, d, s);
    Collects(p, d, s);
    TakeCounts(s, Stamp(d));
    assert (p + [d])[|p|] == d;
    if p != [] {
      KindsAreIds(p, p[|p| - 1].cycle);
      assert |s.partial| == |s.partial.Keys|;
    }
  }

  lemma KindsAreIds(p: seq<Delivery>, k: nat)
    ensures |Kinds(p, k)| == |TELEM_IDS| <==> Kinds(p, k) == TELEM_IDS
    ensures |Kinds(p, k)| <= |TELEM_IDS|
  {
    FullSet(Kinds(p, k));
  }

  lemma Publishes(p: seq<Delivery>, d: Delivery, s: Assembly)
    requires InOrder(p + [d]) && Collecting(p, s) && (p == [] || !Confused(p[|p| - 1].cycle, d.cycle))
    requires Exact(p, s)
    ensures NewestSnapshot(p + [d], Take(s, Stamp(d)).snapshot)
  {
    hide Kinds, InOrder, Complete, Take, Torn, Confused, NewestSnapshot, Collecting;
    TakeCounts(s, Stamp(d));
    CyclesSnoc(p, d);
    Collects(p, d, s);
    var q, s' := p + [d], Take(s, Stamp(d));
    assert q[|p|] == d;
    CollectedKinds(q, s');
    if s'.partial.Keys == TELEM_IDS {
      PublishesNew(q, s');
    } else {
      StillNewest(p, d, s.snapshot);
    }
  }

  lemma CollectedKinds(q: seq<Delivery>, s: Assembly)
    requires q != [] && Collecting(q, s)
    ensures s.partial.Keys == Kinds(q, q[|q| - 1].cycle)
  {
    hide Kinds;
  }

  lemma PublishesNew(q: seq<Delivery>, s: Assembly)
    requires q != [] && Collecting(q, s) && s.partial.Keys == TELEM_IDS
    requires var k := q[|q| - 1].cycle;
             && k in Complete(q) && (forall j | j in Complete(q) :: j <= k)
             && s.snapshot == Some(Merge(k % 256, s.partial))
    ensures NewestSnapshot(q, s.snapshot)
  {
    hide Kinds, Complete, IsSnapshotOf;
    Merged(q, q[|q| - 1].cycle, s.partial);
  }

  lemma StillNewest(p: seq<Delivery>, d: Delivery, o: Option<Snapshot>)
    requires NewestSnapshot(p, o) && Complete(p + [d]) == Complete(p)
    ensures NewestSnapshot(p + [d], o)
  {
    hide Complete, IsSnapshotOf;
    if Complete(p) != {} {
      var k :| k in Complete(p) && (forall j | j in Complete(p) :: j <= k) && IsSnapshotOf(p, k, o.value);
      SnapshotStays(p, d, k, o.value);
    }
  }

  lemma SnapshotStays(p: seq<Delivery>, d: Delivery, k: nat, s: Snapshot)
    requires IsSnapshotOf(p, k, s)
    ensures IsSnapshotOf(p + [d], k, s)
  {}

  lemma Merged(ds: seq<Delivery>, k: nat, parts: map<u32, Telemetry>)
    requires parts.Keys == TELEM_IDS
    requires forall id | id in parts :: IdOf(parts[id]) == id && Delivery(k, parts[id]) in ds
    ensures IsSnapshotOf(ds, k, Merge(k % 256, parts))
  {
    assert CAN_ID_TELEM_DRIVE_L in parts && CAN_ID_TELEM_DRIVE_R in parts;
    assert CAN_ID_TELEM_POWER in parts && CAN_ID_TELEM_STATE in parts;
  }

  lemma ExactSnoc(p: seq<Delivery>, d: Delivery, s: Assembly)
    requires var s' := Take(s, Stamp(d));
             s'.completeCount == |Complete(p + [d])| && s'.tornCount == |Torn(p + [d])|
             && NewestSnapshot(p + [d], s'.snapshot)
    ensures Exact(p + [d], Take(s, Stamp(d)))
  {}

  // --- where it must fail ----------------------------------------------------

  /** The first pair of neighbours with one number is counted wrongly at once. */
  lemma {:induction false} Mixup(ds: seq<Delivery>) returns (n: nat)
    requires InOrder(ds) && !ToldApart(ds)
    ensures n <= |ds| && !ExactAt(ds, n)
  {
    hide InOrder, Exact, Take;
    var p, d := ds[..|ds| - 1], ds[|ds| - 1];
    assert p + [d] == ds;
    Prefix(ds, |p|);
    if !ToldApart(p) {
      n := Mixup(p);
      assert p[..n] == ds[..n];
    } else {
      n := |ds|;
      assert ds[..n] == ds;
      assert Confused(p[|p| - 1].cycle, d.cycle);
      Follows(p);
      WireSnoc(p, d);
      TakeAllSnoc(Wire(p), Stamp(d));
      ConfusedCounts(p, d, TakeAll(Wire(p)));
    }
  }

  lemma ConfusedCounts(p: seq<Delivery>, d: Delivery, s: Assembly)
    requires InOrder(p + [d]) && Collecting(p, s) && Exact(p, s)
    requires p != [] && Confused(p[|p| - 1].cycle, d.cycle)
    ensures !Exact(p + [d], Take(s, Stamp(d)))
  {
    hide InOrder, Kinds, Complete, Torn;
    CyclesSnoc(p, d);
    KindsSnoc(p, d, d.cycle);
    var k, s' := p[|p| - 1].cycle, Take(s, Stamp(d));
    OneKind(IdOf(d.t));
    if Kinds(p, k) == TELEM_IDS {
      assert s'.partial.Keys == TELEM_IDS;
      assert s'.completeCount == |Complete(p)| + 1;
    } else {
      assert s'.tornCount == |Torn(p)|;
    }
  }

  lemma OneKind(id: u32)
    ensures {id} != TELEM_IDS
  {
    assert CAN_ID_TELEM_DRIVE_L in TELEM_IDS && CAN_ID_TELEM_DRIVE_R in TELEM_IDS;
  }

  /** Half of cycle 1 and half of cycle 257: one snapshot is published, and it belongs to neither. */
  lemma MixedSnapshot(ds: seq<Delivery>)
    requires ds == [Delivery(1, DriveL(100, 0)), Delivery(1, DriveR(100, 20)),
                    Delivery(257, Power(450, 2393, 0)), Delivery(257, State(1, 0, 0, 3, 1, 0))]
    ensures InOrder(ds)
    ensures TakeAll(Wire(ds)).snapshot
         == Some(Snapshot(1, DriveL(100, 0), DriveR(100, 20), Power(450, 2393, 0), State(1, 0, 0, 3, 1, 0)))
    ensures forall k :: !IsSnapshotOf(ds, k, TakeAll(Wire(ds)).snapshot.value)
  {
    hide Take, InOrder;
    HalvesInOrder(ds);
    var a, b, c, d := Stamp(ds[0]), Stamp(ds[1]), Stamp(ds[2]), Stamp(ds[3]);
    assert Wire(ds) == [] + [a] + [b] + [c] + [d];
    TakeAllSnoc([], a);
    TakeAllSnoc([] + [a], b);
    TakeAllSnoc([] + [a] + [b], c);
    TakeAllSnoc([] + [a] + [b] + [c], d);
    TakeHalves(a, b, c, d);
  }

  lemma HalvesInOrder(ds: seq<Delivery>)
    requires |ds| == 4 && ds[0].cycle == ds[1].cycle < ds[2].cycle == ds[3].cycle
    requires IdOf(ds[0].t) != IdOf(ds[1].t) && IdOf(ds[2].t) != IdOf(ds[3].t)
    ensures InOrder(ds)
  {}

  lemma TakeHalves(a: Fragment, b: Fragment, c: Fragment, d: Fragment)
    requires a.t.DriveL? && b.t.DriveR? && c.t.Power? && d.t.State? && a.seqNo == b.seqNo == c.seqNo == d.seqNo
    ensures Take(Take(Take(Take(EMPTY, a), b), c), d).snapshot == Some(Snapshot(a.seqNo, a.t, b.t, c.t, d.t))
  {
    var s := Take(Take(Take(EMPTY, a), b), c);
    assert s.partial == map[CAN_ID_TELEM_DRIVE_L := a.t, CAN_ID_TELEM_DRIVE_R := b.t, CAN_ID_TELEM_POWER := c.t];
    assert Take(s, d).partial.Keys == TELEM_IDS;
  }
}
