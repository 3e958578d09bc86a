/**
 * The eight-byte frame envelope of firmware/src/rover_protocol.cpp: payload,
 * sequence number and a CRC seeded with the CAN identifier.
 */
module Frame {
  import opened Words
  import opened Config
  import opened Gf2
  import opened Crc8

  /** The register after the identifier, low byte first. */
  function IdSeed(id: u32): bv8 {
    CrcOver(0xFF, PutU32(id))
  }

  function FrameCrc(id: u32, payload: seq<bv8>): bv8 {
    Add(CrcOver(IdSeed(id), payload), 0xFF)
  }

  method FrameCrc8(id: u32, payload: seq<bv8>) returns (crc: bv8)
    ensures crc == FrameCrc(id, payload)
  {
    hide CrcOver, Byte;
    var idBytes := [Byte(id), Byte(id / 0x100), Byte(id / 0x1_0000), Byte(id / 0x100_0000)];
    crc := Crc8Update(0xFF, idBytes);
    crc := Crc8Update(crc, payload);
    crc := crc ^ 0xFF;
  }

  /** A frame of any length whose last byte is the CRC of the bytes before it. */
  predicate CrcMatches(id: u32, f: seq<bv8>)
    requires |f| > 0
  {
    FrameCrc(id, f[..|f| - 1]) == f[|f| - 1]
  }

  function Seal(id: u32, payload: seq<bv8>, seqNo: u8): (f: seq<bv8>)
    requires |payload| == FRAME_SEQ_OFFSET
    ensures |f| == FRAME_DLC
  {
    var body := payload + [Byte(seqNo)];
    body + [FrameCrc(id, body)]
  }

  method SealFrame(id: u32, seqNo: u8, buf: array<bv8>) returns (len: nat)
    requires buf.Length >= FRAME_DLC
    modifies buf
    ensures len == FRAME_DLC
    ensures buf[..FRAME_DLC] == Seal(id, old(buf[..FRAME_SEQ_OFFSET]), seqNo)
    ensures buf[FRAME_DLC..] == old(buf[FRAME_DLC..])
  {
    hide FrameCrc, Byte;
    buf[FRAME_SEQ_OFFSET] := Byte(seqNo);
    assert buf[..FRAME_CRC_OFFSET] == old(buf[..FRAME_SEQ_OFFSET]) + [Byte(seqNo)];
    var crc := FrameCrc8(id, buf[..FRAME_CRC_OFFSET]);
    buf[FRAME_CRC_OFFSET] := crc;
    len := FRAME_DLC;
  }

  lemma SealParts(id: u32, payload: seq<bv8>, seqNo: u8)
    requires |payload| == FRAME_SEQ_OFFSET
    ensures var f := Seal(id, payload, seqNo);
            f[..FRAME_SEQ_OFFSET] == payload && f[FRAME_SEQ_OFFSET] == Byte(seqNo)
  {
    hide FrameCrc, Byte;
  }

  lemma SealMatches(id: u32, payload: seq<bv8>, seqNo: u8)
    requires |payload| == FRAME_SEQ_OFFSET
    ensures CrcMatches(id, Seal(id, payload, seqNo))
  {
    hide FrameCrc, Byte;
    var f := Seal(id, payload, seqNo);
    assert f[..7] == payload + [Byte(seqNo)];
  }

  /** A frame whose CRC matches is the seal of its own payload and sequence number. */
  lemma MatchingFrameIsSealed(id: u32, f: seq<bv8>)
    requires |f| == FRAME_DLC && CrcMatches(id, f)
    ensures f == Seal(id, f[..FRAME_SEQ_OFFSET], Val(f[FRAME_SEQ_OFFSET]))
  {
    hide FrameCrc, Byte, Val;
    ByteVal(f[6]);
    assert f[..7] == f[..6] + [f[6]];
    assert f == f[..7] + [f[7]];
  }

  // --- what the CRC detects --------------------------------------------------

  /** The residue every accepted frame of n bytes leaves under this identifier. */
  function Residue(id: u32, n: nat): bv8
    requires n > 0
  {
    Add(Shift(8 * (n - 1), IdSeed(id)), 0xFF)
  }

  /** The check succeeds exactly on the frames that are a fixed constant modulo G. */
  lemma MatchesIsResidue(id: u32, f: seq<bv8>)
    requires |f| > 0
    ensures CrcMatches(id, f) <==> Rem(Bits(f)) == Residue(id, |f|)
  {
    hide Rem, Shift, Add, CrcOver, IdSeed, Bits;
    var n := |f| - 1;
    var s, t, last := Shift(8 * n, IdSeed(id)), Shift(8, Rem(Bits(f[..n]))), f[n];
    CrcSplits(IdSeed(id), f[..n]);
    RemBitsSnoc(f);
    // (s + t) + 0xFF = last  <=>  t + last = s + 0xFF
    AddAssociative(s, t, 0xFF);
    AddCommutes(t, 0xFF);
    AddAssociative(s, 0xFF, t);
    AddCommutes(Add(s, 0xFF), t);
    Transpose(t, Add(s, 0xFF), last);
  }

  lemma Transpose(a: bv8, b: bv8, c: bv8)
    ensures Add(a, b) == c <==> Add(a, c) == b
  {
    hide Add;
    AddCancels(a, b);
    AddCancels(a, c);
  }

  /** Which bits differ between the frame sent and the frame received. */
  function Difference(sent: seq<bv8>, received: seq<bv8>): (d: Poly)
    requires |sent| == |received|
    ensures |d| == 8 * |sent|
  {
    Plus(Bits(sent), Bits(received))
  }

  /** Corruption goes unnoticed exactly when the flipped bits are a multiple of G. */
  lemma UndetectedIffMultipleOfG(id: u32, sent: seq<bv8>, received: seq<bv8>)
    requires 0 < |sent| == |received| && CrcMatches(id, sent)
    ensures CrcMatches(id, received) <==> MultipleOfG(Difference(sent, received))
  {
    hide Rem, Add, CrcMatches, Bits, Residue;
    MatchesIsResidue(id, sent);
    MatchesIsResidue(id, received);
    RemPlus(Bits(sent), Bits(received));
    AddCancels(Rem(Bits(sent)), Rem(Bits(received)));
    RemZeroIsMultiple(Difference(sent, received));
  }

  /** Every burst of at most eight bits is caught, in a frame of any length. */
  lemma BurstDetected(id: u32, sent: seq<bv8>, received: seq<bv8>)
    requires 0 < |sent| == |received| && CrcMatches(id, sent)
    requires IsBurst(Difference(sent, received))
    ensures !CrcMatches(id, received)
  {
    hide CrcMatches, Difference, IsBurst, MultipleOfG, Rem;
    UndetectedIffMultipleOfG(id, sent, received);
    BurstNonzero(Difference(sent, received));
    RemZeroIsMultiple(Difference(sent, received));
  }

  /** Two flipped bits escape exactly when they are a multiple of 255 bits apart. */
  lemma PairDetected(id: u32, sent: seq<bv8>, received: seq<bv8>, i: nat, d: nat)
    requires 0 < |sent| == |received| && CrcMatches(id, sent)
    requires IsPair(Difference(sent, received), i, d)
    ensures CrcMatches(id, received) <==> d % 255 == 0
  {
    hide CrcMatches, Difference, IsPair, MultipleOfG, Rem;
    UndetectedIffMultipleOfG(id, sent, received);
    PairRemainder(Difference(sent, received), i, d);
    RemZeroIsMultiple(Difference(sent, received));
  }

  /** In an eight-byte frame no one-bit, two-bit or eight-bit-burst error survives. */
  lemma FrameErrorDetection(id: u32, sent: seq<bv8>, received: seq<bv8>, i: nat, d: nat)
    requires |sent| == |received| == FRAME_DLC && CrcMatches(id, sent)
    requires IsBurst(Difference(sent, received)) || IsPair(Difference(sent, received), i, d)
    ensures !CrcMatches(id, received)
  {
    hide CrcMatches, Difference, IsBurst;
    if IsBurst(Difference(sent, received)) {
      BurstDetected(id, sent, received);
    } else {
      PairDetected(id, sent, received, i, d);
    }
  }

  /** No more can be promised: a burst of nine bits and a pattern of three go unnoticed wherever they fall. */
  lemma FrameErrorsEscape(id: u32, sent: seq<bv8>, received: seq<bv8>, k: nat)
    requires |sent| == |received| == FRAME_DLC && CrcMatches(id, sent)
    requires (k <= 55 && Difference(sent, received) == NineBitBurst(k, 55 - k))
             || (k <= 38 && Difference(sent, received) == ThreeBits(k, 38 - k))
    ensures CrcMatches(id, received)
  {
    hide CrcMatches, Difference, NineBitBurst, ThreeBits, MultipleOfG, Rem;
    NineBitsVanish(k, if k <= 55 then 55 - k else 0);
    ThreeBitsVanish(k, if k <= 38 then 38 - k else 0);
    RemZeroIsMultiple(Difference(sent, received));
    UndetectedIffMultipleOfG(id, sent, received);
  }

  lemma {:induction false} BitsOfXor(a: seq<bv8>, b: seq<bv8>)
    requires |a| == |b|
    ensures Bits(XorBytes(a, b)) == Plus(Bits(a), Bits(b))
  {
    hide Low, Add;
    if a != [] {
      var n := |a| - 1;
      BitsOfXor(a[..n], b[..n]);
      LowAdd(8, a[n], b[n]);
      assert XorBytes(a, b)[..n] == XorBytes(a[..n], b[..n]);
    }
  }

  /** Such frames exist for every sealed frame: flip bytes 4 and 7 as shown, or bytes 0 and 1. */
  lemma EscapingFrames(id: u32, sent: seq<bv8>)
    requires |sent| == FRAME_DLC && CrcMatches(id, sent)
    ensures var three := XorBytes(sent, [0, 0, 0, 0, 0x02, 0, 0, 0x03]);
            three != sent && Difference(sent, three) == ThreeBits(38, 0) && CrcMatches(id, three)
    ensures var nine := XorBytes(sent, [0x8E, 0x80, 0, 0, 0, 0, 0, 0]);
            nine != sent && Difference(sent, nine) == NineBitBurst(0, 55) && CrcMatches(id, nine)
  {
    hide CrcMatches, XorBytes, ThreeBits, NineBitBurst, Bits, Difference;
    var e, d: seq<bv8> := [0, 0, 0, 0, 0x02, 0, 0, 0x03], [0x8E, 0x80, 0, 0, 0, 0, 0, 0];
    PatternBits();
    XorDifference(sent, e, 4);
    XorDifference(sent, d, 0);
    FrameErrorsEscape(id, sent, XorBytes(sent, e), 38);
    FrameErrorsEscape(id, sent, XorBytes(sent, d), 0);
  }

  lemma XorDifference(sent: seq<bv8>, e: seq<bv8>, i: nat)
    requires |sent| == |e| && i < |e| && e[i] != 0
    ensures Difference(sent, XorBytes(sent, e)) == Bits(e) && XorBytes(sent, e) != sent
  {
    hide Add, Bits;
    BitsOfXor(sent, e);
    var p, q := Bits(sent), Bits(e);
    assert Plus(p, Plus(p, q)) == q;
    XorChanges(sent[i], e[i]);
  }

  lemma XorChanges(a: bv8, b: bv8)
    ensures b != 0 ==> Add(a, b) != a
  {}

  lemma {:induction false} BitsAt(data: seq<bv8>, i: nat)
    requires i < 8 * |data|
    ensures Bits(data)[i] == BitsOf(data[i / 8])[i % 8]
  {
    hide BitsOf;
    var n := |data| - 1;
    if i < 8 * n { BitsAt(data[..n], i); }
  }

  /** Which of the bits of the five bytes in the patterns are set. */
  lemma PatternBytes(j: nat)
    requires j < 8
    ensures !BitsOf(0)[j] && BitsOf(2)[j] == (j == 6) && BitsOf(3)[j] == (j >= 6)
    ensures BitsOf(0x8E)[j] == (j == 0 || j == 4 || j == 5 || j == 6) && BitsOf(0x80)[j] == (j == 0)
  {
    hide Low, Halves, Odd;
    DigitAt(8, 0, j);
    DigitAt(8, 2, j);
    DigitAt(8, 3, j);
    DigitAt(8, 0x8E, j);
    DigitAt(8, 0x80, j);
    HalvesOfPatterns(7 - j);
  }

  lemma HalvesOfPatterns(n: nat)
    requires n < 8
    ensures !Odd(Halves(n, 0)) && Odd(Halves(n, 2)) == (n == 1) && Odd(Halves(n, 3)) == (n <= 1)
    ensures Odd(Halves(n, 0x8E)) == (n == 7 || n == 3 || n == 2 || n == 1) && Odd(Halves(n, 0x80)) == (n == 7)
  {
    hide Halves;
    HalvesTo(0);
    HalvesTo(2);
    HalvesTo(3);
    HalvesTo(0x8E);
    HalvesTo(0x80);
  }

  lemma HalvesTo(c: bv8)
    ensures Halves(0, c) == c && Halves(1, c) == c >> 1 && Halves(2, c) == c >> 2 && Halves(3, c) == c >> 3
    ensures Halves(4, c) == c >> 4 && Halves(5, c) == c >> 5 && Halves(6, c) == c >> 6 && Halves(7, c) == c >> 7
  {
    assert Halves(4, c) == c >> 4;
  }

  lemma PatternBits()
    ensures Bits([0, 0, 0, 0, 0x02, 0, 0, 0x03]) == ThreeBits(38, 0)
    ensures Bits([0x8E, 0x80, 0, 0, 0, 0, 0, 0]) == NineBitBurst(0, 55)
  {
    hide Bits, ThreeBits, NineBitBurst;
    ThreeBitPattern();
    NineBitPattern();
  }

  lemma ThreeBitPattern()
    ensures Bits([0, 0, 0, 0, 0x02, 0, 0, 0x03]) == ThreeBits(38, 0)
  {
    hide Bits, BitsOf;
    var e: seq<bv8> := [0, 0, 0, 0, 0x02, 0, 0, 0x03];
    forall i | 0 <= i < 64
      ensures Bits(e)[i] == ThreeBits(38, 0)[i]
    {
      BitsAt(e, i);
      PatternBytes(i % 8);
    }
  }

  lemma NineBitPattern()
    ensures Bits([0x8E, 0x80, 0, 0, 0, 0, 0, 0]) == NineBitBurst(0, 55)
  {
    hide Bits, BitsOf;
    var d: seq<bv8> := [0x8E, 0x80, 0, 0, 0, 0, 0, 0];
    forall i | 0 <= i < 64
      ensures Bits(d)[i] == NineBitBurst(0, 55)[i]
    {
      BitsAt(d, i);
      PatternBytes(i % 8);
    }
  }

  // --- what the identifier seed separates ------------------------------------

  /** Two identifiers share every frame CRC exactly when their difference is a multiple of G. */
  lemma IdCollisionIff(a: u32, b: u32, payload: seq<bv8>)
    ensures FrameCrc(a, payload) == FrameCrc(b, payload)
       <==> MultipleOfG(Difference(PutU32(a), PutU32(b)))
  {
    hide Rem, Add, Shift, CrcOver, PutU32, Bits;
    SeedsDecide(a, b, payload);
    var r, s := Rem(Bits(PutU32(a))), Rem(Bits(PutU32(b)));
    var front := Shift(32, 0xFF);
    CrcSplits(0xFF, PutU32(a));
    CrcSplits(0xFF, PutU32(b));
    AddCancels(front, Shift(8, r));
    AddCancels(front, Shift(8, s));
    if Shift(8, r) == Shift(8, s) { ShiftInjective(8, r, s); }
    RemPlus(Bits(PutU32(a)), Bits(PutU32(b)));
    AddCancels(r, s);
    RemZeroIsMultiple(Difference(PutU32(a), PutU32(b)));
  }

  /** Data that differs in one byte never has the same CRC. */
  lemma OneByteSeparates(crc: bv8, front: seq<bv8>, x: bv8, y: bv8, back: seq<bv8>)
    requires CrcOver(crc, front + [x] + back) == CrcOver(crc, front + [y] + back)
    ensures x == y
  {
    hide Add, Shift;
    var u := CrcOver(crc, front);
    CrcChains(crc, front + [x], back);
    CrcChains(crc, front + [y], back);
    CrcRegisterInjective(CrcOver(crc, front + [x]), CrcOver(crc, front + [y]), back);
    assert (front + [x])[..|front|] == front == (front + [y])[..|front|];
    ShiftInjective(8, Add(u, x), Add(u, y));
    AddCancels(u, x);
    AddCancels(u, y);
  }

  predicate OneByteApart(a: u32, b: u32) {
    var s, t := PutU32(a), PutU32(b);
    exists k :: 0 <= k < 4 && s[k] != t[k] && s[..k] == t[..k] && s[k + 1..] == t[k + 1..]
  }

  /** Identifiers that differ in exactly one byte never share a frame CRC. */
  lemma OneByteIdsSeparated(a: u32, b: u32, payload: seq<bv8>)
    requires OneByteApart(a, b)
    ensures FrameCrc(a, payload) != FrameCrc(b, payload)
  {
    hide Add, CrcOver, PutU32;
    var s, t := PutU32(a), PutU32(b);
    var k :| 0 <= k < 4 && s[k] != t[k] && s[..k] == t[..k] && s[k + 1..] == t[k + 1..];
    assert s == s[..k] + [s[k]] + s[k + 1..];
    assert t == s[..k] + [t[k]] + s[k + 1..];
    if IdSeed(a) == IdSeed(b) {
      OneByteSeparates(0xFF, s[..k], s[k], t[k], s[k + 1..]);
    }
    SeedsDecide(a, b, payload);
  }

  lemma SeedsDecide(a: u32, b: u32, payload: seq<bv8>)
    ensures FrameCrc(a, payload) == FrameCrc(b, payload) <==> IdSeed(a) == IdSeed(b)
  {
    hide Add, CrcOver, IdSeed;
    var u, v := CrcOver(IdSeed(a), payload), CrcOver(IdSeed(b), payload);
    AddCommutes(u, 0xFF);
    AddCommutes(v, 0xFF);
    AddCancels(0xFF, u);
    AddCancels(0xFF, v);
    if u == v { CrcRegisterInjective(IdSeed(a), IdSeed(b), payload); }
  }

  function EightSteps(c: bv8): bv8 {
    Step4(Step4(c))
  }

  lemma ShiftByEight(c: bv8)
    ensures Shift(8, c) == EightSteps(c)
  {
    hide Step4, Shift;
    ShiftByFour(c);
    ShiftByFour(Step4(c));
    ShiftShift(4, 4, c);
  }

  lemma EightStepTable()
    ensures EightSteps(0x19) == 0x38 && EightSteps(0x1A) == 0x1F && EightSteps(0x37) == 0x19 && EightSteps(0x42) == 0x29
    ensures EightSteps(0x5C) == 0x42 && EightSteps(0x7B) == 0x96 && EightSteps(0x95) == 0x82 && EightSteps(0x96) == 0xA5
    ensures EightSteps(0xAF) == 0x1A && EightSteps(0xC5) == 0x5C && EightSteps(0xC6) == 0x7B && EightSteps(0xDB) == 0x37
    ensures EightSteps(0xE1) == 0xAF && EightSteps(0xE3) == 0x95 && EightSteps(0xFC) == 0xE3 && EightSteps(0xFD) == 0xFE
    ensures EightSteps(0xFE) == 0xD9 && EightSteps(0xFF) == 0xC4
  {}

  lemma SeedOf(id: u32, lo: u8, hi: u8, p: bv8, q: bv8, r: bv8, s: bv8)
    requires id == lo + 0x100 * hi
    requires EightSteps(Add(0xFF, Byte(lo))) == p && EightSteps(Add(p, Byte(hi))) == q
    requires EightSteps(q) == r && EightSteps(r) == s
    ensures IdSeed(id) == s
  {
    hide EightSteps, Shift, Add, Byte;
    var b := PutU32(id);
    assert b == [Byte(lo), Byte(hi), Byte(0), Byte(0)] by { LowBytes(id, lo, hi); }
    assert Byte(0) == 0 by { ByteLiterals(); }
    ShiftByEight(Add(0xFF, Byte(lo)));
    ShiftByEight(Add(p, Byte(hi)));
    ShiftByEight(q);
    ShiftByEight(r);
    AddZero(q);
    AddZero(r);
    assert b[..1] == [] + [b[0]] && b[..2] == b[..1] + [b[1]] && b[..3] == b[..2] + [b[2]] && b == b[..3] + [b[3]];
    CrcSnoc(0xFF, [], b[0]);
    CrcSnoc(0xFF, b[..1], b[1]);
    CrcSnoc(0xFF, b[..2], b[2]);
    CrcSnoc(0xFF, b[..3], b[3]);
  }

  lemma LowBytes(id: u32, lo: u8, hi: u8)
    requires id == lo + 0x100 * hi
    ensures PutU32(id) == [Byte(lo), Byte(hi), Byte(0), Byte(0)]
  {
    assert id % 0x100 == lo && id / 0x100 == hi;
  }

  lemma SmallBytes()
    ensures Add(0xC4, Byte(1)) == 0xC5 && Add(0xC4, Byte(2)) == 0xC6 && Add(0xD9, Byte(2)) == 0xDB
    ensures Add(0xE3, Byte(2)) == 0xE1 && Add(0xFE, Byte(2)) == 0xFC && Add(0xFF, Byte(0)) == 0xFF
    ensures Add(0xFF, Byte(1)) == 0xFE && Add(0xFF, Byte(2)) == 0xFD && Add(0xFF, Byte(3)) == 0xFC
  {
    hide Byte;
    ByteLiterals();
  }

  lemma IdSeeds()
    ensures IdSeed(0x100) == 0x29 && IdSeed(0x200) == 0xA5 && IdSeed(0x201) == 0x38 && IdSeed(0x202) == 0x82
    ensures IdSeed(0x203) == 0x1F
  {
    hide EightSteps, IdSeed, Byte, Add;
    EightStepTable();
    SmallBytes();
    SeedOf(0x100, 0, 1, 0xC4, 0x5C, 0x42, 0x29);
    SeedOf(0x200, 0, 2, 0xC4, 0x7B, 0x96, 0xA5);
    SeedOf(0x201, 1, 2, 0xD9, 0x37, 0x19, 0x38);
    SeedOf(0x202, 2, 2, 0xFE, 0xE3, 0x95, 0x82);
    SeedOf(0x203, 3, 2, 0xE3, 0xAF, 0x1A, 0x1F);
  }

  predicate InUse(id: u32) {
    id in {CAN_ID_CONTROL, CAN_ID_TELEM_DRIVE_L, CAN_ID_TELEM_DRIVE_R, CAN_ID_TELEM_POWER, CAN_ID_TELEM_STATE}
  }

  /** A frame sealed under one of the five identifiers in use fails under each of the others. */
  lemma IdsInUseSeparated(a: u32, b: u32, f: seq<bv8>)
    requires InUse(a) && InUse(b) && a != b && |f| > 0 && CrcMatches(a, f)
    ensures !CrcMatches(b, f)
  {
    hide IdSeed, FrameCrc;
    IdSeeds();
    SeedsDecide(a, b, f[..|f| - 1]);
  }

  /**
   * The seed is one byte, so it cannot tell all 32-bit identifiers apart, not
   * even an 11-bit one from a 29-bit one with the same low eleven bits: every
   * CONTROL frame also checks under identifier 0x1D010100.
   */
  lemma ExtendedIdCollides(f: seq<bv8>)
    requires |f| > 0
    ensures CAN_ID_CONTROL < 0x800 && 0x1D01_0100 < 0x2000_0000 && 0x1D01_0100 % 0x800 == CAN_ID_CONTROL
    ensures CrcMatches(CAN_ID_CONTROL, f) <==> CrcMatches(0x1D01_0100, f)
  {
    hide FrameCrc, MultipleOfG, Difference, PutU32;
    CollidingDifference();
    IdCollisionIff(CAN_ID_CONTROL, 0x1D01_0100, f[..|f| - 1]);
  }

  lemma CollidingDifference()
    ensures MultipleOfG(Difference(PutU32(CAN_ID_CONTROL), PutU32(0x1D01_0100)))
  {
    hide Rem, BitsOf, Byte, Add, Shift;
    var s, t := PutU32(CAN_ID_CONTROL), PutU32(0x1D01_0100);
    CollidingIdBytes();
    RemOfBytes(s);
    RemOfBytes(t);
    RemPlus(Bits(s), Bits(t));
    assert Rem(Bits(s)) == Rem(Bits(t)) by { CollidingRemainders(); }
    AddCancels(Rem(Bits(s)), Rem(Bits(t)));
    RemZeroIsMultiple(Difference(s, t));
  }

  lemma CollidingIdBytes()
    ensures PutU32(CAN_ID_CONTROL) == [0, 1, 0, 0]
    ensures PutU32(0x1D01_0100) == [0, 1, 1, 0x1D]
  {
    LowBytes(CAN_ID_CONTROL, 0, 1);
    assert Byte(0) == 0 && Byte(1) == 1;
    assert Byte(0x1D01_0100) == 0 && Byte(0x1D_0101) == 1;
    assert Byte(0x1D01) == 1 && Byte(0x1D) == 0x1D;
  }

  /** Horner's rule over four bytes. */
  lemma RemOfBytes(s: seq<bv8>)
    requires |s| == 4
    ensures Rem(Bits(s))
         == Add(EightSteps(Add(EightSteps(Add(EightSteps(s[0]), s[1])), s[2])), s[3])
  {
    hide Rem, Add, Shift, EightSteps, Bits;
    assert s[..3][..2] == s[..2] && s[..2][..1] == s[..1] && s[..1][..0] == [];
    assert Rem(Bits([])) == 0 by { NoBytes(); }
    ShiftZero(8);
    AddZero(s[0]);
    RemBitsSnoc(s[..1]);
    RemBitsSnoc(s[..2]);
    RemBitsSnoc(s[..3]);
    RemBitsSnoc(s);
    ShiftByEight(s[0]);
    ShiftByEight(Add(EightSteps(s[0]), s[1]));
    ShiftByEight(Add(EightSteps(Add(EightSteps(s[0]), s[1])), s[2]));
  }

  lemma NoBytes()
    ensures Rem(Bits([])) == 0
  {}

  lemma CollidingRemainders()
    ensures Add(EightSteps(Add(EightSteps(Add(EightSteps(0), 1)), 0)), 0)
         == Add(EightSteps(Add(EightSteps(Add(EightSteps(0), 1)), 1)), 0x1D)
  {}
}
