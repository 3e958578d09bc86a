/** Bitwise operators on unbounded non-negative integers, as Python has them, and their byte-wide meaning. */
module PyBits {
  import opened Words
  import Gf2

  datatype Op = AND | OR | XOR

  function Digit(op: Op, x: nat, y: nat): nat
    requires x < 2 && y < 2
    ensures Digit(op, x, y) < 2
  {
    match op
    case AND => if x == 1 && y == 1 then 1 else 0
    case OR => if x == 1 || y == 1 then 1 else 0
    case XOR => if x != y then 1 else 0
  }

  function Combine(op: Op, a: nat, b: nat): nat {
    if a == 0 && b == 0 then 0 else 2 * Combine(op, a / 2, b / 2) + Digit(op, a % 2, b % 2)
  }

  /** `x & mask` for any integer x: what the mask keeps of a negative x is what it does not keep of ~x. */
  function And(x: int, mask: nat): (r: nat)
    ensures r <= mask
  {
    if x >= 0 then AndAtMost(x, mask); Combine(AND, x, mask)
    else AndAtMost(-x - 1, mask); mask - Combine(AND, -x - 1, mask)
  }

  lemma {:induction false} AndAtMost(x: nat, mask: nat)
    ensures Combine(AND, x, mask) <= mask
  {
    if x != 0 || mask != 0 { AndAtMost(x / 2, mask / 2); }
  }

  function Apply(op: Op, a: bv8, b: bv8): bv8 {
    match op
    case AND => a & b
    case OR => a | b
    case XOR => a ^ b
  }

  function LastBit(a: bv8): bv8 {
    a & 1
  }

  lemma HalfVal(a: bv8)
    ensures Val(Gf2.Half(a)) == Val(a) / 2
  {}

  lemma LowVal(a: bv8)
    ensures Val(LastBit(a)) == Val(a) % 2
  {}

  lemma HalfApply(op: Op, a: bv8, b: bv8)
    ensures Gf2.Half(Apply(op, a, b)) == Apply(op, Gf2.Half(a), Gf2.Half(b))
    ensures LastBit(Apply(op, a, b)) == Apply(op, LastBit(a), LastBit(b))
    ensures Apply(op, 0, 0) == 0
  {
    hide Gf2.Half, LastBit, Apply;
    match op {
      case AND => HalfAnd(a, b);
      case OR => HalfOr(a, b);
      case XOR => HalfXor(a, b);
    }
  }

  lemma HalfAnd(a: bv8, b: bv8)
    ensures Gf2.Half(Apply(AND, a, b)) == Apply(AND, Gf2.Half(a), Gf2.Half(b))
    ensures LastBit(Apply(AND, a, b)) == Apply(AND, LastBit(a), LastBit(b))
    ensures Apply(AND, 0, 0) == 0
  {}

  lemma HalfOr(a: bv8, b: bv8)
    ensures Gf2.Half(Apply(OR, a, b)) == Apply(OR, Gf2.Half(a), Gf2.Half(b))
    ensures LastBit(Apply(OR, a, b)) == Apply(OR, LastBit(a), LastBit(b))
    ensures Apply(OR, 0, 0) == 0
  {}

  lemma HalfXor(a: bv8, b: bv8)
    ensures Gf2.Half(Apply(XOR, a, b)) == Apply(XOR, Gf2.Half(a), Gf2.Half(b))
    ensures LastBit(Apply(XOR, a, b)) == Apply(XOR, LastBit(a), LastBit(b))
    ensures Apply(XOR, 0, 0) == 0
  {}

  lemma DigitVal(op: Op, a: bv8, b: bv8)
    ensures Val(LastBit(a)) < 2 && Val(LastBit(b)) < 2
    ensures Digit(op, Val(LastBit(a)), Val(LastBit(b))) == Val(Apply(op, LastBit(a), LastBit(b)))
  {}

  lemma ZeroVal(a: bv8)
    ensures Val(a) == 0 <==> a == 0
  {}

  /** On bytes the unbounded operators are the fixed-width ones. */
  lemma {:induction false} CombineVal(op: Op, a: bv8, b: bv8)
    ensures Combine(op, Val(a), Val(b)) == Val(Apply(op, a, b))
    decreases Val(a) + Val(b)
  {
    hide Val, Gf2.Half, LastBit, Apply, Digit;
    ZeroVal(a);
    ZeroVal(b);
    HalfApply(op, a, b);
    if Val(a) != 0 || Val(b) != 0 {
      HalfVal(a);
      HalfVal(b);
      HalfVal(Apply(op, a, b));
      CombineVal(op, Gf2.Half(a), Gf2.Half(b));
      LowVal(a);
      LowVal(b);
      LowVal(Apply(op, a, b));
      DigitVal(op, a, b);
    } else {
      ZeroVal(Apply(op, a, b));
    }
  }

  function Pow2(k: nat): nat {
    if k == 0 then 1 else 2 * Pow2(k - 1)
  }

  function LowBits(k: nat, x: nat): nat
  {
    Positive(k);
    x % Pow2(k)
  }

  lemma {:induction false} Positive(k: nat)
    ensures Pow2(k) > 0
  {
    if k > 0 { Positive(k - 1); }
  }

  lemma LowBitsHalve(k: nat, x: nat)
    requires k > 0
    ensures LowBits(k, x) == 2 * LowBits(k - 1, x / 2) + x % 2
    ensures LowBits(k, x) / 2 == LowBits(k - 1, x / 2) && LowBits(k, x) % 2 == x % 2
  {
    Positive(k - 1);
    HalfMod(x, Pow2(k - 1));
  }

  lemma NoBits(x: nat)
    ensures LowBits(0, x) == 0
  {}

  /** The low k bits of a result depend only on the low k bits of the operands. */
  lemma {:induction false} CombineLow(op: Op, k: nat, a: nat, b: nat)
    ensures LowBits(k, Combine(op, a, b)) == Combine(op, LowBits(k, a), LowBits(k, b))
    decreases k
  {
    hide Digit, Combine, LowBits;
    Unfold(op, a, b);
    if k == 0 {
      NoBits(a);
      NoBits(b);
      NoBits(Combine(op, a, b));
    } else {
      CombineLow(op, k - 1, a / 2, b / 2);
      LowBitsHalve(k, a);
      LowBitsHalve(k, b);
      LowBitsHalve(k, Combine(op, a, b));
      Unfold(op, LowBits(k, a), LowBits(k, b));
    }
  }

  lemma LowByteOf(x: nat)
    ensures LowBits(8, x) == x % 0x100
  {
    assert Pow2(4) == 16 && Pow2(8) == 16 * Pow2(4);
  }

  lemma Unfold(op: Op, a: nat, b: nat)
    ensures Combine(op, a, b) == 2 * Combine(op, a / 2, b / 2) + Digit(op, a % 2, b % 2)
    ensures Combine(op, 0, 0) == 0
  {}

  lemma HalfMod(x: nat, p: nat)
    requires p > 0
    ensures x % (2 * p) == 2 * (x / 2 % p) + x % 2
    ensures (x % (2 * p)) / 2 == x / 2 % p && x % (2 * p) % 2 == x % 2
  {
    var h := x / 2;
    var q, s := h / p, h % p;
    assert h == p * q + s;
    assert x == (2 * p) * q + (2 * s + x % 2);
    Remainder(x, 2 * p, q, 2 * s + x % 2);
  }

  lemma Remainder(x: nat, m: nat, q: nat, r: nat)
    requires m > 0 && x == m * q + r && r < m
    ensures x % m == r
  {
    var k := x / m;
    assert x == m * k + x % m;
    OneMore(m, k, q);
    OneMore(m, q, k);
  }

  lemma OneMore(m: nat, a: nat, b: nat)
    ensures a < b ==> m * a + m <= m * b
  {
    if a < b { assert m * (a + 1) <= m * b; }
  }

  lemma {:induction false} FitsBelow(k: nat, m: nat)
    ensures m < Pow2(k) <==> LowBits(k, m) == m
  {
    Positive(k);
    if m < Pow2(k) { Remainder(m, Pow2(k), 0, m); }
  }

  /** A mask of k bits keeps nothing but low bits. */
  lemma AndSeesLowBits(k: nat, x: nat, mask: nat)
    requires mask < Pow2(k)
    ensures Combine(AND, x, mask) == Combine(AND, LowBits(k, x), mask)
  {
    hide Combine, LowBits, Pow2;
    FitsBelow(k, mask);
    CombineLow(AND, k, x, mask);
    AndFits(k, x, mask);
  }

  lemma {:induction false} AndFits(k: nat, x: nat, mask: nat)
    requires LowBits(k, mask) == mask
    ensures LowBits(k, Combine(AND, x, mask)) == Combine(AND, x, mask)
    decreases k
  {
    hide Combine, LowBits;
    Unfold(AND, x, mask);
    if k == 0 {
      NoBits(mask);
      AndZero(x);
      NoBits(0);
    } else {
      LowBitsHalve(k, mask);
      AndFits(k - 1, x / 2, mask / 2);
      LowBitsHalve(k, Combine(AND, x, mask));
    }
  }

  lemma {:induction false} AndZero(x: nat)
    ensures Combine(AND, x, 0) == 0
  {
    if x > 0 { AndZero(x / 2); }
  }

  /** Every bit of a k-bit mask is kept of x or of its k-bit complement. */
  lemma {:induction false} Complements(k: nat, x: nat, mask: nat)
    requires x < Pow2(k) && mask < Pow2(k)
    ensures Combine(AND, x, mask) + Combine(AND, Pow2(k) - 1 - x, mask) == mask
    decreases k
  {
    hide Combine;
    Unfold(AND, x, mask);
    Unfold(AND, Pow2(k) - 1 - x, mask);
    if k > 0 {
      Complements(k - 1, x / 2, mask / 2);
      assert (Pow2(k) - 1 - x) / 2 == Pow2(k - 1) - 1 - x / 2;
    }
  }

  /** A mask below 256 sees only the low byte of x in two's complement. */
  lemma AndSeesLowByte(x: int, mask: u8)
    ensures And(x, mask) == Combine(AND, x % 0x100, mask)
  {
    hide Combine, LowBits;
    LowByteOf(0);
    assert Pow2(8) == 0x100 by { EightBits(); }
    if x >= 0 {
      LowByteOf(x);
      AndSeesLowBits(8, x, mask);
    } else {
      var y := -x - 1;
      LowByteOf(y);
      AndSeesLowBits(8, y, mask);
      Complements(8, x % 0x100, mask);
      assert y % 0x100 == 0xFF - x % 0x100;
    }
  }

  lemma EightBits()
    ensures Pow2(8) == 0x100
  {
    assert Pow2(4) == 16;
  }

  lemma AndIsByteAnd(x: int, mask: u8)
    ensures And(x, mask) == Val(Apply(AND, Byte(x), Byte(mask)))
  {
    hide Val, Byte, Apply, Combine, And;
    AndSeesLowByte(x, mask);
    ValByte(x);
    ValByte(mask);
    CombineVal(AND, Byte(x), Byte(mask));
  }

  lemma LowByte(x: int)
    ensures And(x, 0xFF) == x % 0x100
  {
    hide Val, Byte, And;
    AndIsByteAnd(x, 0xFF);
    FullMask(Byte(x));
    ValByte(x);
  }

  lemma FullMask(b: bv8)
    ensures Apply(AND, b, Byte(0xFF)) == b
  {
    hide Byte;
    ByteLiterals();
  }

  lemma MaskTest(b: bv8, mask: bv8)
    ensures Val(Apply(AND, b, mask)) != 0 <==> b & mask != 0
  {
    hide Val;
    ZeroVal(b & mask);
  }
}
