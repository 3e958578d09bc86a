/**
 * CRC-8/SAE-J1850 (AUTOSAR Specification of CRC Routines, section 7.2.1.1)
 * and the identifier-seeded frame CRC of firmware/src/rover_protocol.cpp.
 */
module Crc8 {
  import opened Gf2

  /** The running CRC register after data. */
  function CrcOver(crc: bv8, data: seq<bv8>): bv8 {
    if data == [] then crc
    else Shift(8, Add(CrcOver(crc, data[..|data| - 1]), data[|data| - 1]))
  }

  method Crc8Update(start: bv8, data: seq<bv8>) returns (crc: bv8)
    ensures crc == CrcOver(start, data)
  {
    crc := start;
    for i := 0 to |data|
      invariant crc == CrcOver(start, data[..i])
    {
      ghost var before := crc;
      crc := crc ^ data[i];
      for bit := 0 to 8
        invariant Shift(8 - bit, crc) == Shift(8, Add(before, data[i]))
      {
        crc := if crc & 0x80 != 0 then (crc << 1) ^ 0x1D else crc << 1;
      }
      assert data[..i + 1][..i] == data[..i];
    }
    assert data[..|data|] == data;
  }

  lemma CrcSnoc(c: bv8, data: seq<bv8>, b: bv8)
    ensures CrcOver(c, data + [b]) == Shift(8, Add(CrcOver(c, data), b))
  {
    hide Shift, Add;
    assert (data + [b])[..|data|] == data;
  }

  /** The coefficients of a byte string, first byte and top bit first. */
  function Bits(data: seq<bv8>): (p: Poly)
    ensures |p| == 8 * |data|
  {
    if data == [] then [] else Bits(data[..|data| - 1]) + BitsOf(data[|data| - 1])
  }

  lemma RemBitsSnoc(data: seq<bv8>)
    requires data != []
    ensures Rem(Bits(data)) == Add(Shift(8, Rem(Bits(data[..|data| - 1]))), data[|data| - 1])
  {
    hide Rem, Shift, Add, BitsOf;
    var n := |data| - 1;
    var p, b := Bits(data[..n]), BitsOf(data[n]);
    RemConcat(p, b);
    Gf2.RemBits(data[n]);
  }

  /** The register after data: its start moved past the message, plus the message times x^8. */
  lemma {:induction false} CrcSplits(crc: bv8, data: seq<bv8>)
    ensures CrcOver(crc, data) == Add(Shift(8 * |data|, crc), Shift(8, Rem(Bits(data))))
  {
    hide Rem, Shift, Add, BitsOf;
    if data == [] {
      assert Shift(0, crc) == crc by { ShiftNone(crc); }
      assert Rem([]) == 0 by { RemZeros(0); assert Zeros(0) == []; }
      ShiftZero(8);
      AddZero(crc);
    } else {
      var n := |data| - 1;
      var r, b := Rem(Bits(data[..n])), data[n];
      CrcSplits(crc, data[..n]);
      RemBitsSnoc(data);
      ShiftAdd(8, Add(Shift(8 * n, crc), Shift(8, r)), b);
      ShiftAdd(8, Shift(8 * n, crc), Shift(8, r));
      ShiftShift(8 * n, 8, crc);
      ShiftAdd(8, Shift(8, r), b);
      AddAssociative(Shift(8 * n + 8, crc), Shift(8, Shift(8, r)), Shift(8, b));
    }
  }

  /**
   * For data of any length the register is the remainder, modulo G, of the
   * polynomial formed by the start register over the front of the message and
   * eight appended zeros; DivisionTheorem says that remainder is unique.
   */
  lemma CrcIsRemainder(crc: bv8, data: seq<bv8>)
    ensures CrcOver(crc, data) == Rem(Plus(BitsOf(crc) + Zeros(8 * |data|), Bits(data) + Zeros(8)))
  {
    hide Rem, Shift, Add, BitsOf, CrcOver, Bits;
    CrcSplits(crc, data);
    RemPlus(BitsOf(crc) + Zeros(8 * |data|), Bits(data) + Zeros(8));
    RemThenZeros(BitsOf(crc), 8 * |data|);
    RemThenZeros(Bits(data), 8);
    Gf2.RemBits(crc);
  }

  /** The CRC can be chained over consecutive buffers. */
  lemma {:induction false} CrcChains(crc: bv8, a: seq<bv8>, b: seq<bv8>)
    ensures CrcOver(crc, a + b) == CrcOver(CrcOver(crc, a), b)
  {
    hide Shift, Add;
    if b == [] {
      assert a + b == a;
    } else {
      CrcChains(crc, a, b[..|b| - 1]);
      assert (a + b)[..|a + b| - 1] == a + b[..|b| - 1];
    }
  }

  function XorBytes(a: seq<bv8>, b: seq<bv8>): (c: seq<bv8>)
    requires |a| == |b|
    ensures |c| == |a| && forall i | 0 <= i < |c| :: c[i] == Add(a[i], b[i])
  {
    seq(|a|, i requires 0 <= i < |a| => Add(a[i], b[i]))
  }

  /** The CRC is linear in register and data together, hence affine in the data. */
  lemma {:induction false} CrcLinear(c: bv8, d: bv8, a: seq<bv8>, b: seq<bv8>)
    requires |a| == |b|
    ensures CrcOver(Add(c, d), XorBytes(a, b)) == Add(CrcOver(c, a), CrcOver(d, b))
  {
    hide Shift, Add;
    if a != [] {
      var n := |a| - 1;
      var x, y := CrcOver(c, a[..n]), CrcOver(d, b[..n]);
      CrcLinear(c, d, a[..n], b[..n]);
      assert XorBytes(a, b)[..n] == XorBytes(a[..n], b[..n]);
      AddInterchange(x, y, a[n], b[n]);
      ShiftAdd(8, Add(x, a[n]), Add(y, b[n]));
    }
  }

  /** The inverse of Step. */
  function Unstep(c: bv8): bv8 {
    if c & 1 != 0 then ((c ^ 0x1D) >> 1) | 0x80 else c >> 1
  }

  lemma StepUnstep(c: bv8)
    ensures Step(Unstep(c)) == c
  {}

  lemma {:induction false} ShiftOnto(n: nat, c: bv8) returns (b: bv8)
    ensures Shift(n, b) == c
    decreases n
  {
    hide Step, Unstep;
    if n == 0 {
      b := c;
    } else {
      var d := ShiftOnto(n - 1, c);
      b := Unstep(d);
      StepUnstep(d);
    }
  }

  /** For fixed data the CRC is a bijection of the register. */
  lemma CrcBijective(c: bv8, data: seq<bv8>)
    ensures exists start :: CrcOver(start, data) == c
    ensures forall s, t :: CrcOver(s, data) == CrcOver(t, data) ==> s == t
  {
    hide Shift, Add, Rem, CrcOver, Bits;
    var tail := Shift(8, Rem(Bits(data)));
    var start := ShiftOnto(8 * |data|, Add(tail, c));
    CrcSplits(start, data);
    AddCommutes(Add(tail, c), tail);
    AddCancels(tail, c);
    forall s, t | CrcOver(s, data) == CrcOver(t, data)
      ensures s == t
    {
      CrcRegisterInjective(s, t, data);
    }
  }

  lemma CrcRegisterInjective(s: bv8, t: bv8, data: seq<bv8>)
    requires CrcOver(s, data) == CrcOver(t, data)
    ensures s == t
  {
    hide Shift, Add, Rem, CrcOver, Bits;
    var tail := Shift(8, Rem(Bits(data)));
    var x, y := Shift(8 * |data|, s), Shift(8 * |data|, t);
    CrcSplits(s, data);
    CrcSplits(t, data);
    AddCommutes(x, tail);
    AddCommutes(y, tail);
    AddCancels(tail, x);
    AddCancels(tail, y);
    ShiftInjective(8 * |data|, s, t);
  }
}
