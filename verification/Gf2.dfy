/**
 * Polynomials over GF(2) and division by the SAE-J1850 generator
 * G(x) = x^8 + x^4 + x^3 + x^2 + 1.
 *
 * A polynomial is its coefficient sequence, highest power first. A remainder
 * modulo G has degree below eight and is kept in a byte, bit k being the
 * coefficient of x^k.
 */
module Gf2 {

  type Poly = seq<bool>

  /** Sum of two remainders. */
  function Add(a: bv8, b: bv8): bv8 {
    a ^ b
  }

  /** A remainder times x, modulo G: one shift of the CRC register. */
  function Step(c: bv8): bv8 {
    if c & 0x80 != 0 then (c << 1) ^ 0x1D else c << 1
  }

  /** A remainder times x^n, modulo G. */
  function Shift(n: nat, c: bv8): bv8
    decreases n
  {
    if n == 0 then c else Shift(n - 1, Step(c))
  }

  function Bit(b: bool): bv8 {
    if b then 1 else 0
  }

  predicate Odd(c: bv8) {
    c & 1 != 0
  }

  function Half(c: bv8): bv8 {
    c >> 1
  }

  /** The value of p modulo G, by Horner's rule. */
  function Rem(p: Poly): bv8 {
    if p == [] then 0 else Add(Step(Rem(p[..|p| - 1])), Bit(p[|p| - 1]))
  }

  function Zeros(n: nat): (p: Poly)
    ensures |p| == n && forall i | 0 <= i < n :: !p[i]
  {
    seq(n, _ => false)
  }

  /** Sum of two polynomials written with the same number of coefficients. */
  function Plus(p: Poly, q: Poly): (s: Poly)
    requires |p| == |q|
    ensures |s| == |p| && forall i | 0 <= i < |s| :: s[i] == (p[i] != q[i])
  {
    seq(|p|, i requires 0 <= i < |p| => p[i] != q[i])
  }

  /** The n lowest coefficients of a remainder. */
  function Low(n: nat, c: bv8): (p: Poly)
    ensures |p| == n
  {
    if n == 0 then [] else Low(n - 1, Half(c)) + [Odd(c)]
  }

  /** The eight coefficients of a byte, most significant bit first. */
  function BitsOf(b: bv8): (p: Poly)
    ensures |p| == 8
  {
    Low(8, b)
  }

  const GENERATOR: Poly := [true, false, false, false, true, true, true, false, true]

  /** b * G as a polynomial of n + 9 coefficients. */
  function GTerm(n: nat, b: bool): (p: Poly)
    ensures |p| == n + 9 && p[n + 8] == b
  {
    if b then Zeros(n) + GENERATOR else Zeros(n + 9)
  }

  /** The schoolbook product q * G, written with |q| + 8 coefficients. */
  function TimesG(q: Poly): (p: Poly)
    ensures |p| == |q| + 8
  {
    if q == [] then Zeros(8)
    else
      var n := |q| - 1;
      Plus(TimesG(q[..n]) + [false], GTerm(n, q[n]))
  }

  ghost predicate MultipleOfG(p: Poly) {
    exists q :: |q| + 8 == |p| && TimesG(q) == p
  }

  // --- byte-level facts ------------------------------------------------------

  lemma AddZero(a: bv8)
    ensures Add(a, 0) == a && Add(0, a) == a && Add(a, a) == 0
  {}

  lemma AddCancels(a: bv8, b: bv8)
    ensures Add(a, b) == 0 <==> a == b
    ensures Add(a, Add(a, b)) == b
  {}

  lemma AddAssociative(a: bv8, b: bv8, c: bv8)
    ensures Add(Add(a, b), c) == Add(a, Add(b, c))
  {}

  lemma AddInterchange(a: bv8, b: bv8, c: bv8, d: bv8)
    ensures Add(Add(a, b), Add(c, d)) == Add(Add(a, c), Add(b, d))
  {
    hide Add;
    AddAssociative(a, b, Add(c, d));
    AddAssociative(b, c, d);
    AddCommutes(b, c);
    AddAssociative(c, b, d);
    AddAssociative(a, c, Add(b, d));
  }

  lemma AddCommutes(a: bv8, b: bv8)
    ensures Add(a, b) == Add(b, a)
  {}

  lemma BitAdd(x: bool, y: bool)
    ensures Bit(x != y) == Add(Bit(x), Bit(y))
  {}

  /** Step without its branch. */
  function StepMasked(c: bv8): bv8 {
    (c << 1) ^ ((0 - (c >> 7)) & 0x1D)
  }

  lemma StepIsMasked(c: bv8)
    ensures Step(c) == StepMasked(c)
  {}

  lemma StepMaskedAdd(a: bv8, b: bv8)
    ensures StepMasked(Add(a, b)) == Add(StepMasked(a), StepMasked(b))
  {}

  /** The register step is linear. */
  lemma StepAdd(a: bv8, b: bv8)
    ensures Step(Add(a, b)) == Add(Step(a), Step(b))
  {
    hide Step, StepMasked, Add;
    StepMaskedAdd(a, b);
    StepIsMasked(a);
    StepIsMasked(b);
    StepIsMasked(Add(a, b));
  }

  /** The register step is invertible. */
  lemma StepInjective(a: bv8, b: bv8)
    requires Step(a) == Step(b)
    ensures a == b
  {}

  lemma StepHalf(c: bv8)
    ensures Add(Step(Half(c)), Bit(Odd(c))) == c
  {}

  lemma HalfStep(c: bv8, b: bool)
    requires c & 0x80 == 0
    ensures Half(Add(Step(c), Bit(b))) == c && Odd(Add(Step(c), Bit(b))) == b
  {}

  // --- repeated steps --------------------------------------------------------

  lemma {:induction false} ShiftAdd(n: nat, a: bv8, b: bv8)
    ensures Shift(n, Add(a, b)) == Add(Shift(n, a), Shift(n, b))
    decreases n
  {
    hide Step, Add;
    if n > 0 {
      StepAdd(a, b);
      ShiftAdd(n - 1, Step(a), Step(b));
    }
  }

  lemma {:induction false} ShiftInjective(n: nat, a: bv8, b: bv8)
    requires Shift(n, a) == Shift(n, b)
    ensures a == b
    decreases n
  {
    hide Step;
    if n > 0 {
      ShiftInjective(n - 1, Step(a), Step(b));
      StepInjective(a, b);
    }
  }

  lemma {:induction false} ShiftZero(n: nat)
    ensures Shift(n, 0) == 0
  {
    if n > 0 { ShiftZero(n - 1); }
  }

  lemma {:induction false} ShiftShift(m: nat, n: nat, c: bv8)
    ensures Shift(m + n, c) == Shift(n, Shift(m, c))
    decreases m
  {
    hide Step;
    if m > 0 { ShiftShift(m - 1, n, Step(c)); }
  }

  // --- remainders ------------------------------------------------------------

  lemma RemSnoc(p: Poly, b: bool)
    ensures Rem(p + [b]) == Add(Step(Rem(p)), Bit(b))
  {
    hide Step, Add, Bit;
    assert (p + [b])[..|p|] == p;
  }

  lemma {:induction false} RemPlus(p: Poly, q: Poly)
    requires |p| == |q|
    ensures Rem(Plus(p, q)) == Add(Rem(p), Rem(q))
  {
    hide Step, Add, Bit;
    if p == [] {
      AddZero(0);
    } else {
      var n := |p| - 1;
      RemPlus(p[..n], q[..n]);
      assert Plus(p, q)[..n] == Plus(p[..n], q[..n]);
      StepAdd(Rem(p[..n]), Rem(q[..n]));
      BitAdd(p[n], q[n]);
      AddInterchange(Step(Rem(p[..n])), Step(Rem(q[..n])), Bit(p[n]), Bit(q[n]));
    }
  }

  lemma {:induction false} RemThenZeros(p: Poly, n: nat)
    ensures Rem(p + Zeros(n)) == Shift(n, Rem(p))
    decreases n
  {
    hide Step, Add, Bit;
    if n == 0 {
      assert p + Zeros(n) == p;
    } else {
      RemThenZeros(p + [false], n - 1);
      assert p + Zeros(n) == (p + [false]) + Zeros(n - 1);
      RemSnoc(p, false);
      BitAdd(false, false);
      AddZero(Bit(false));
      AddZero(Step(Rem(p)));
    }
  }

  lemma {:induction false} RemZerosThen(n: nat, p: Poly)
    ensures Rem(Zeros(n) + p) == Rem(p)
  {
    hide Step, Add, Bit;
    if p == [] {
      RemThenZeros([], n);
      assert Zeros(n) + p == [] + Zeros(n);
      ShiftZero(n);
    } else {
      var k := |p| - 1;
      RemZerosThen(n, p[..k]);
      assert (Zeros(n) + p)[..n + k] == Zeros(n) + p[..k];
    }
  }

  lemma RemConcat(p: Poly, q: Poly)
    ensures Rem(p + q) == Add(Shift(|q|, Rem(p)), Rem(q))
  {
    hide Rem, Shift, Add;
    assert p + q == Plus(p + Zeros(|q|), Zeros(|p|) + q);
    RemPlus(p + Zeros(|q|), Zeros(|p|) + q);
    RemThenZeros(p, |q|);
    RemZerosThen(|p|, q);
  }

  lemma RemZeros(n: nat)
    ensures Rem(Zeros(n)) == 0
  {
    RemZerosThen(n, []);
    assert Zeros(n) + [] == Zeros(n);
  }

  /** c has degree below n. */
  predicate Fits(n: nat, c: bv8) {
    if n == 0 then c == 0 else Fits(n - 1, Half(c))
  }

  lemma {:induction false} RemLow(n: nat, c: bv8)
    requires Fits(n, c)
    ensures Rem(Low(n, c)) == c
  {
    hide Step, Add, Bit, Half, Odd;
    if n > 0 {
      RemLow(n - 1, Half(c));
      RemSnoc(Low(n - 1, Half(c)), Odd(c));
      StepHalf(c);
    }
  }

  lemma FitsByte(c: bv8)
    ensures Fits(8, c)
  {
    var d := c >> 1 >> 1 >> 1 >> 1;
    assert Fits(0, d >> 1 >> 1 >> 1 >> 1);
    assert Fits(2, d >> 1 >> 1);
    assert Fits(4, d);
    assert Fits(6, c >> 1 >> 1);
  }

  lemma FitsSevenBits(c: bv8)
    requires Fits(7, c)
    ensures c & 0x80 == 0
  {
    var d := c >> 1 >> 1 >> 1;
    assert Fits(6, c >> 1);
    assert Fits(5, c >> 1 >> 1);
    assert Fits(4, d);
    assert Fits(3, d >> 1);
    assert Fits(2, d >> 1 >> 1);
    assert Fits(1, d >> 1 >> 1 >> 1);
    assert Fits(0, d >> 1 >> 1 >> 1 >> 1);
  }

  lemma {:induction false} FitsMore(m: nat, n: nat, c: bv8)
    requires Fits(m, c) && m <= n
    ensures Fits(n, c)
    decreases n
  {
    hide Half;
    if m > 0 {
      FitsMore(m - 1, n - 1, Half(c));
    } else if n > 0 {
      assert Half(0) == 0 by { HalfZero(); }
      FitsMore(0, n - 1, 0);
    }
  }

  lemma HalfZero()
    ensures Half(0) == 0
  {}

  /** A remainder is its own coefficients: fewer than nine coefficients are already reduced. */
  lemma {:induction false} LowRem(p: Poly)
    requires |p| <= 8
    ensures Fits(|p|, Rem(p)) && Low(|p|, Rem(p)) == p
  {
    hide Step, Add, Bit, Half, Odd, Rem, Fits, Low;
    if p == [] {
      NoDigits();
    } else {
      var n := |p| - 1;
      var q, b := p[..n], p[n];
      assert p == q + [b];
      LowRem(q);
      FitsMore(n, 7, Rem(q));
      FitsSevenBits(Rem(q));
      HalfStep(Rem(q), b);
      RemSnoc(q, b);
      LastDigit(n, Rem(p));
    }
  }

  lemma NoDigits()
    ensures Rem([]) == 0 && Fits(0, 0) && Low(0, 0) == []
  {}

  lemma LastDigit(n: nat, c: bv8)
    ensures Fits(n + 1, c) == Fits(n, Half(c)) && Low(n + 1, c) == Low(n, Half(c)) + [Odd(c)]
  {
    hide Half, Odd;
  }

  lemma RemBits(b: bv8)
    ensures Rem(BitsOf(b)) == b
  {
    FitsByte(b);
    RemLow(8, b);
  }

  lemma {:induction false} LowAdd(n: nat, a: bv8, b: bv8)
    ensures Low(n, Add(a, b)) == Plus(Low(n, a), Low(n, b))
  {
    hide Add, Half, Odd;
    if n > 0 {
      HalfAdd(a, b);
      LowAdd(n - 1, Half(a), Half(b));
    }
  }

  lemma HalfAdd(a: bv8, b: bv8)
    ensures Half(Add(a, b)) == Add(Half(a), Half(b)) && Odd(Add(a, b)) == (Odd(a) != Odd(b))
  {}

  lemma {:induction false} RemTimesG(q: Poly)
    ensures Rem(TimesG(q)) == 0
  {
    hide Step, Add, Bit;
    if q == [] {
      RemZeros(8);
    } else {
      var n := |q| - 1;
      RemTimesG(q[..n]);
      RemThenZeros(TimesG(q[..n]), 1);
      assert Zeros(1) == [false];
      ShiftZero(1);
      RemGTerm(n, q[n]);
      RemPlus(TimesG(q[..n]) + [false], GTerm(n, q[n]));
      AddZero(0);
    }
  }

  lemma RemGTerm(n: nat, b: bool)
    ensures Rem(GTerm(n, b)) == 0
  {
    hide Rem;
    if b {
      RemGenerator();
      RemZerosThen(n, GENERATOR);
    } else {
      RemZeros(n + 9);
    }
  }

  lemma RemGenerator()
    ensures Rem(GENERATOR) == 0
  {
    hide Rem;
    var p := [true, false, false, false, true, true, true, false];
    assert Low(4, 0x08) == [true, false, false, false] && Low(8, 0x8E) == p;
    RemBits(0x8E);
    RemSnoc(p, true);
    assert GENERATOR == p + [true];
  }

  // --- division with remainder -----------------------------------------------

  /** The coefficient of x^7. */
  predicate Top(c: bv8) {
    c & 0x80 != 0
  }

  /** The quotient of long division: the bits the register shifts out. */
  function Quotient(p: Poly): (q: Poly)
    requires |p| >= 8
    ensures |q| == |p| - 8
  {
    if |p| == 8 then []
    else
      var p' := p[..|p| - 1];
      Quotient(p') + [Top(Rem(p'))]
  }

  lemma LowHead(n: nat, c: bv8)
    requires n > 1
    ensures Low(n, c)[0] == Low(n - 1, Half(c))[0]
  {}

  lemma BitsOfHead(c: bv8)
    ensures BitsOf(c)[0] == Top(c)
  {
    var d := Half(Half(Half(c)));
    var e := Half(Half(Half(d)));
    LowHead(8, c);
    LowHead(7, Half(c));
    LowHead(6, Half(Half(c)));
    LowHead(5, d);
    LowHead(4, Half(d));
    LowHead(3, Half(Half(d)));
    LowHead(2, e);
    assert Low(1, Half(e))[0] == Odd(Half(e));
  }

  lemma {:induction false} LowZero(n: nat)
    ensures Low(n, 0) == Zeros(n)
  {
    if n > 0 {
      LowZero(n - 1);
    }
  }

  /** Nine coefficients are known from the first and the remainder. */
  lemma NineCoefficients(p: Poly, q: Poly)
    requires |p| == |q| == 9 && p[0] == q[0] && Rem(p) == Rem(q)
    ensures p == q
  {
    hide Rem, Low;
    var d := Plus(p, q);
    RemPlus(p, q);
    AddCancels(Rem(p), Rem(q));
    assert d == Zeros(1) + d[1..];
    RemZerosThen(1, d[1..]);
    LowRem(d[1..]);
    LowZero(8);
    forall i | 0 <= i < 9
      ensures p[i] == q[i]
    {
      assert d[i] == (p[i] != q[i]);
      if i > 0 { assert d[i] == d[1..][i - 1] == Zeros(8)[i - 1]; }
    }
  }

  /** One round of long division. */
  lemma DivisionStep(r: bv8, b: bool)
    ensures BitsOf(r) + [b] == Plus(GTerm(0, Top(r)), [false] + BitsOf(Add(Step(r), Bit(b))))
  {
    hide Add, Step, Bit, Rem, BitsOf, Top;
    var r' := Add(Step(r), Bit(b));
    var t := [false] + BitsOf(r');
    var p, q := BitsOf(r) + [b], Plus(GTerm(0, Top(r)), t);
    BitsOfHead(r);
    GTermHead(Top(r));
    RemSnoc(BitsOf(r), b);
    RemBits(r);
    RemGTerm(0, Top(r));
    RemPlus(GTerm(0, Top(r)), t);
    assert t == Zeros(1) + BitsOf(r');
    RemZerosThen(1, BitsOf(r'));
    RemBits(r');
    AddZero(r');
    NineCoefficients(p, q);
  }

  lemma GTermHead(b: bool)
    ensures GTerm(0, b)[0] == b
  {}

  lemma GTermSplit(n: nat, b: bool)
    ensures GTerm(n, b) == Zeros(n) + GTerm(0, b)
  {
    assert Zeros(n) + (Zeros(0) + GENERATOR) == Zeros(n) + GENERATOR;
  }

  lemma Regroup(m: nat, p: Poly, q: Poly, g: Poly, r: Poly, b: bool)
    requires |p| == m + |q| && |g| == |r| + 1 == |q| + 1
    requires q + [b] == Plus(g, [false] + r)
    ensures Plus(p, Zeros(m) + q) + [b] == Plus(Plus(p + [false], Zeros(m) + g), Zeros(m + 1) + r)
  {
    var lhs := Plus(p, Zeros(m) + q) + [b];
    var rhs := Plus(Plus(p + [false], Zeros(m) + g), Zeros(m + 1) + r);
    forall i | 0 <= i < |lhs|
      ensures lhs[i] == rhs[i]
    {
      if i >= m {
        assert (q + [b])[i - m] == Plus(g, [false] + r)[i - m];
      }
    }
  }

  /** Appending a coefficient to q * G + r. */
  lemma DivisionSnoc(q: Poly, r: bv8, b: bool)
    ensures Plus(TimesG(q), Zeros(|q|) + BitsOf(r)) + [b]
         == Plus(TimesG(q + [Top(r)]), Zeros(|q| + 1) + BitsOf(Add(Step(r), Bit(b))))
  {
    hide Add, Step, Bit, BitsOf, GTerm, Top, TimesG, Plus;
    var r' := BitsOf(Add(Step(r), Bit(b)));
    DivisionStep(r, b);
    Regroup(|q|, TimesG(q), BitsOf(r), GTerm(0, Top(r)), r', b);
    GTermSplit(|q|, Top(r));
    TimesGSnoc(q, Top(r));
  }

  lemma TimesGSnoc(q: Poly, b: bool)
    ensures TimesG(q + [b]) == Plus(TimesG(q) + [false], GTerm(|q|, b))
  {
    hide GTerm;
    assert (q + [b])[..|q|] == q;
  }

  lemma {:induction false} DivisionExists(p: Poly)
    requires |p| >= 8
    ensures p == Plus(TimesG(Quotient(p)), Zeros(|p| - 8) + BitsOf(Rem(p)))
  {
    hide Add, Step, Bit, BitsOf, Top, TimesG, Rem;
    if |p| == 8 {
      LowRem(p);
      BitsOfLow(Rem(p));
      NothingTimesG();
    } else {
      var p', b := p[..|p| - 1], p[|p| - 1];
      DivisionExists(p');
      assert p == p' + [b];
      RemSnoc(p', b);
      DivisionSnoc(Quotient(p'), Rem(p'), b);
    }
  }

  lemma NothingTimesG()
    ensures TimesG([]) == Zeros(8)
  {}

  lemma BitsOfLow(c: bv8)
    ensures BitsOf(c) == Low(8, c)
  {}

  lemma {:induction false} TimesGInjective(q: Poly, q': Poly)
    requires |q| == |q'| && TimesG(q) == TimesG(q')
    ensures q == q'
  {
    hide GTerm, TimesG, Plus;
    if q != [] {
      var n := |q| - 1;
      var f, f', b := q[..n], q'[..n], q[n];
      assert q == f + [b] && q' == f' + [q'[n]];
      LastOfTimesG(f, b);
      LastOfTimesG(f', q'[n]);
      TimesGSnoc(f, b);
      TimesGSnoc(f', b);
      PlusInjective(TimesG(f) + [false], TimesG(f') + [false], GTerm(n, b));
      assert TimesG(f) == (TimesG(f) + [false])[..n + 8] == TimesG(f');
      TimesGInjective(f, f');
    }
  }

  /** The lowest coefficient of a multiple of G is that of the factor. */
  lemma LastOfTimesG(q: Poly, b: bool)
    ensures TimesG(q + [b])[|q| + 8] == b
  {
    TimesGSnoc(q, b);
  }

  lemma PlusInjective(p: Poly, q: Poly, r: Poly)
    requires |p| == |q| == |r| && Plus(p, r) == Plus(q, r)
    ensures p == q
  {
    forall i | 0 <= i < |p|
      ensures p[i] == q[i]
    {
      assert Plus(p, r)[i] == Plus(q, r)[i];
    }
  }

  /**
   * Division theorem: p = q * G + r with r of degree below eight holds for
   * exactly one pair (q, r), and its r is Rem(p).
   */
  lemma DivisionTheorem(p: Poly, q: Poly, r: bv8)
    requires |p| == |q| + 8
    ensures p == Plus(TimesG(q), Zeros(|q|) + BitsOf(r)) <==> q == Quotient(p) && r == Rem(p)
  {
    hide Add, BitsOf, Rem, TimesG, Quotient;
    DivisionExists(p);
    var t := Zeros(|q|) + BitsOf(r);
    if p == Plus(TimesG(q), t) {
      RemPlus(TimesG(q), t);
      RemTimesG(q);
      RemZerosThen(|q|, BitsOf(r));
      RemBits(r);
      AddZero(r);
      PlusInjective(TimesG(q), TimesG(Quotient(p)), t);
      TimesGInjective(q, Quotient(p));
    }
  }

  lemma RemZeroIsMultiple(p: Poly)
    requires |p| >= 8
    ensures Rem(p) == 0 <==> MultipleOfG(p)
  {
    hide Rem, TimesG, Quotient;
    if Rem(p) == 0 {
      DivisionExists(p);
      LowZero(8);
      BitsOfLow(0);
      assert p == TimesG(Quotient(p));
    }
    if MultipleOfG(p) {
      var q :| |q| + 8 == |p| && TimesG(q) == p;
      RemTimesG(q);
    }
  }

  // --- the order of x modulo G is 255 ----------------------------------------

  function Step4(c: bv8): bv8 {
    Step(Step(Step(Step(c))))
  }

  function Step16(c: bv8): bv8 {
    Step4(Step4(Step4(Step4(c))))
  }

  lemma ShiftByFour(c: bv8)
    ensures Shift(4, c) == Step4(c)
  {
    hide Step;
    assert Shift(2, c) == Step(Step(c));
    ShiftShift(2, 2, c);
  }

  lemma ShiftBySixteen(c: bv8)
    ensures Shift(16, c) == Step16(c)
  {
    hide Step4, Shift;
    ShiftByFour(c);
    ShiftByFour(Step4(c));
    ShiftByFour(Step4(Step4(c)));
    ShiftByFour(Step4(Step4(Step4(c))));
    ShiftShift(4, 4, c);
    ShiftShift(8, 4, c);
    ShiftShift(12, 4, c);
  }

  lemma Hop1(n: nat, c: bv8, d: bv8)
    requires Shift(n, 1) == c && Step(c) == d
    ensures Shift(n + 1, 1) == d
  {
    hide Step;
    ShiftShift(n, 1, 1);
    assert Shift(1, c) == Step(c);
  }

  lemma Hop4(n: nat, c: bv8, d: bv8)
    requires Shift(n, 1) == c && Step4(c) == d
    ensures Shift(n + 4, 1) == d
  {
    hide Step4, Shift;
    ShiftShift(n, 4, 1);
    ShiftByFour(c);
  }

  lemma Hop16(n: nat, c: bv8, d: bv8)
    requires Shift(n, 1) == c && Step16(c) == d
    ensures Shift(n + 16, 1) == d
  {
    hide Step16, Shift;
    ShiftShift(n, 16, 1);
    ShiftBySixteen(c);
  }

  lemma SixteenStepTable()
    ensures Step16(1) == 0x4C && Step16(0x4C) == 0x9D && Step16(0x9D) == 0x46
    ensures Step16(0x46) == 0x5F && Step16(0x5F) == 0xFD && Step16(0xFD) == 0xD9
    ensures Step16(0xD9) == 0x81 && Step16(0x81) == 0x85 && Step16(0x85) == 0xA8
    ensures Step16(0xA8) == 0xE6 && Step16(0xE6) == 0xE3 && Step16(0xE3) == 0x82
    ensures Step16(0x82) == 0x51 && Step16(0x51) == 0x12 && Step16(0x12) == 0x2C
  {}

  lemma PowersOfX()
    ensures Shift(15, 1) == 0x26 && Shift(51, 1) == 0x0A && Shift(85, 1) == 0xD6 && Shift(255, 1) == 1
  {
    hide Step16, Shift;
    SixteenStepTable();
    assert Shift(0, 1) == 1 by { ShiftNone(1); }
    Hop16(0, 1, 0x4C);
    Hop16(16, 0x4C, 0x9D);
    Hop16(32, 0x9D, 0x46);
    Hop16(48, 0x46, 0x5F);
    Hop16(64, 0x5F, 0xFD);
    Hop16(80, 0xFD, 0xD9);
    Hop16(96, 0xD9, 0x81);
    Hop16(112, 0x81, 0x85);
    Hop16(128, 0x85, 0xA8);
    Hop16(144, 0xA8, 0xE6);
    Hop16(160, 0xE6, 0xE3);
    Hop16(176, 0xE3, 0x82);
    Hop16(192, 0x82, 0x51);
    Hop16(208, 0x51, 0x12);
    Hop16(224, 0x12, 0x2C);
    SmallStepTable();
    Hop4(0, 1, 0x10); Hop4(4, 0x10, 0x1D); Hop4(8, 0x1D, 0xCD); Hop1(12, 0xCD, 0x87); Hop1(13, 0x87, 0x13);
    Hop1(14, 0x13, 0x26);
    Hop1(48, 0x46, 0x8C); Hop1(49, 0x8C, 0x05); Hop1(50, 0x05, 0x0A);
    Hop4(80, 0xFD, 0x6B); Hop1(84, 0x6B, 0xD6);
    Hop4(240, 0x2C, 0xFA); Hop4(244, 0xFA, 0x1B); Hop4(248, 0x1B, 0xAD); Hop1(252, 0xAD, 0x47);
    Hop1(253, 0x47, 0x8E); Hop1(254, 0x8E, 1);
  }

  lemma ShiftNone(c: bv8)
    ensures Shift(0, c) == c
  {}

  lemma SmallStepTable()
    ensures Step4(1) == 0x10 && Step4(0x10) == 0x1D && Step4(0x1D) == 0xCD && Step4(0xFD) == 0x6B
    ensures Step4(0x2C) == 0xFA && Step4(0xFA) == 0x1B && Step4(0x1B) == 0xAD
    ensures Step(0xCD) == 0x87 && Step(0x87) == 0x13 && Step(0x13) == 0x26 && Step(0x46) == 0x8C
    ensures Step(0x8C) == 0x05 && Step(0x05) == 0x0A && Step(0x6B) == 0xD6 && Step(0xAD) == 0x47
    ensures Step(0x47) == 0x8E && Step(0x8E) == 1
  {}

  lemma DivisorUpTo15(g: nat, m: nat)
    requires g * m == 255 && 0 < g <= 15
    ensures g == 1 || g == 3 || g == 5 || g == 15
  {
    if g == 2 {} else if g == 4 {} else if g == 6 {} else if g == 7 {} else if g == 8 {}
    else if g == 9 {} else if g == 10 {} else if g == 11 {} else if g == 12 {}
    else if g == 13 {} else if g == 14 {}
  }

  lemma ProductGrows(g: nat, m: nat)
    ensures g >= 16 && m >= 16 ==> g * m >= 256
  {
    if g >= 16 && m >= 16 { assert g * m >= 16 * m; }
  }

  /** A proper divisor of 255 divides 85, 51 or 15. */
  lemma ProperDivisor(g: nat, m: nat)
    requires g * m == 255 && g != 255
    ensures 0 < g && (85 % g == 0 || 51 % g == 0 || 15 % g == 0)
  {
    assert g > 0 && m > 1;
    ProductGrows(g, m);
    if g <= 15 {
      DivisorUpTo15(g, m);
    } else {
      assert m <= 15;
      DivisorUpTo15(m, g);
      assert g == 85 || g == 51 || g == 17;
    }
  }

  lemma {:induction false} MultipleOfPeriod(g: nat, m: nat)
    requires Shift(g, 1) == 1
    ensures Shift(g * m, 1) == 1
    decreases m
  {
    hide Step;
    if m > 0 {
      MultipleOfPeriod(g, m - 1);
      assert g * m == g * (m - 1) + g;
      ShiftShift(g * (m - 1), g, 1);
    }
  }

  /** Euclid's algorithm on two periods of x. */
  lemma {:induction false} CommonPeriod(a: nat, b: nat) returns (g: nat, i: nat, j: nat)
    requires Shift(a, 1) == 1 && Shift(b, 1) == 1 && a > 0 && b > 0
    ensures g > 0 && a == g * i && b == g * j && Shift(g, 1) == 1
    decreases a + b
  {
    hide Shift;
    if a == b {
      g, i, j := a, 1, 1;
    } else if a < b {
      ShiftShift(b - a, a, 1);
      ShiftInjective(a, Shift(b - a, 1), 1);
      g, i, j := CommonPeriod(a, b - a);
      j := i + j;
      assert b == g * j;
    } else {
      ShiftShift(a - b, b, 1);
      ShiftInjective(b, Shift(a - b, 1), 1);
      g, i, j := CommonPeriod(a - b, b);
      i := i + j;
      assert a == g * i;
    }
  }

  lemma PeriodOfMultiple(g: nat, d: nat)
    requires g > 0 && d % g == 0 && Shift(g, 1) == 1
    ensures Shift(d, 1) == 1
  {
    MultipleOfPeriod(g, d / g);
    assert d == g * (d / g);
  }

  lemma PeriodIsMultipleOf255(n: nat)
    requires n > 0 && Shift(n, 1) == 1
    ensures n % 255 == 0
  {
    hide Shift;
    PowersOfX();
    var g, i, j := CommonPeriod(n, 255);
    if g != 255 {
      ProperDivisor(g, j);
      PeriodOfMultiple(g, if 85 % g == 0 then 85 else if 51 % g == 0 then 51 else 15);
      assert false;
    }
  }

  /** x^n = 1 modulo G exactly when 255 divides n. */
  lemma OrderOfX(n: nat)
    ensures Shift(n, 1) == 1 <==> n % 255 == 0
  {
    hide Shift;
    if n % 255 == 0 {
      PowersOfX();
      PeriodOfMultiple(255, n);
    } else if Shift(n, 1) == 1 {
      PeriodIsMultipleOf255(n);
    }
  }

  // --- error patterns --------------------------------------------------------

  /** All set coefficients lie in a window of at most eight, and there is one. */
  ghost predicate IsBurst(e: Poly) {
    exists k: nat, w: Poly, m: nat ::
      |w| <= 8 && (exists i :: 0 <= i < |w| && w[i]) && e == Zeros(k) + w + Zeros(m)
  }

  /** Exactly the coefficients i and j are set, and they are d apart. */
  ghost predicate IsPair(e: Poly, i: nat, d: nat) {
    d > 0 && i + d < |e| && forall k | 0 <= k < |e| :: e[k] <==> k == i || k == i + d
  }

  lemma BurstNonzero(e: Poly)
    requires IsBurst(e)
    ensures Rem(e) != 0
  {
    hide Rem, Low, Shift;
    var k: nat, w: Poly, m: nat :|
      |w| <= 8 && (exists i :: 0 <= i < |w| && w[i]) && e == Zeros(k) + w + Zeros(m);
    RemThenZeros(Zeros(k) + w, m);
    RemZerosThen(k, w);
    if Rem(w) == 0 {
      LowRem(w);
      LowZero(|w|);
      assert false;
    }
    if Rem(e) == 0 {
      ShiftZero(m);
      ShiftInjective(m, Rem(w), 0);
    }
  }

  /** Two flipped coefficients cancel modulo G exactly when 255 divides their distance. */
  lemma PairRemainder(e: Poly, i: nat, d: nat)
    requires IsPair(e, i, d)
    ensures Rem(e) == 0 <==> d % 255 == 0
  {
    hide Rem, Shift, Add, Step;
    var m := |e| - i - d - 1;
    var lo, hi := Zeros(i + d) + ([true] + Zeros(m)), Zeros(i) + ([true] + Zeros(d + m));
    assert e == Plus(hi, lo);
    RemPlus(hi, lo);
    RemZerosThen(i + d, [true] + Zeros(m));
    RemZerosThen(i, [true] + Zeros(d + m));
    RemThenZeros([true], m);
    RemThenZeros([true], d + m);
    RemOne();
    ShiftShift(d, m, 1);
    AddCancels(Shift(m, Shift(d, 1)), Shift(m, 1));
    if Shift(m, Shift(d, 1)) == Shift(m, 1) {
      ShiftInjective(m, Shift(d, 1), 1);
    }
    OrderOfX(d);
  }

  lemma RemOne()
    ensures Rem([true]) == 1
  {
    RemSnoc([], true);
    assert [] + [true] == [true];
  }

  // --- limits of detection ---------------------------------------------------

  /** The nine bits of G itself, anywhere in a message. */
  function NineBitBurst(k: nat, m: nat): Poly {
    Zeros(k) + GENERATOR + Zeros(m)
  }

  lemma NineBitsVanish(k: nat, m: nat)
    ensures Rem(NineBitBurst(k, m)) == 0
  {
    hide Rem, Shift;
    RemThenZeros(Zeros(k) + GENERATOR, m);
    RemZerosThen(k, GENERATOR);
    RemGenerator();
    ShiftZero(m);
  }

  /** Three bits, of which the first is 24 and 25 places before the others: x^25 + x + 1 is a multiple of G. */
  function ThreeBits(k: nat, m: nat): Poly {
    Zeros(k) + ([true] + Zeros(23) + [true, true]) + Zeros(m)
  }

  lemma ThreeBitsVanish(k: nat, m: nat)
    ensures Rem(ThreeBits(k, m)) == 0
  {
    hide Rem, Shift;
    var w := [true] + Zeros(23) + [true, true];
    RemThenZeros(Zeros(k) + w, m);
    RemZerosThen(k, w);
    TrinomialVanishes();
    ShiftZero(m);
  }

  lemma TrinomialVanishes()
    ensures Rem([true] + Zeros(23) + [true, true]) == 0
  {
    hide Rem, Shift, Step, Add, Bit;
    var high := [true] + Zeros(23);
    RemOne();
    RemThenZeros([true], 23);
    PowerTwentyThree();
    assert high + [true, true] == high + [true] + [true];
    RemSnoc(high, true);
    RemSnoc(high + [true], true);
    LastTwoSteps();
  }

  lemma PowerTwentyThree()
    ensures Shift(23, 1) == 0xC9
  {
    hide Step16, Shift;
    SixteenStepTable();
    assert Shift(0, 1) == 1 by { ShiftNone(1); }
    Hop16(0, 1, 0x4C);
    PowersToTwentyThree();
    Hop4(16, 0x4C, 0xB4);
    Hop1(20, 0xB4, 0x75);
    Hop1(21, 0x75, 0xEA);
    Hop1(22, 0xEA, 0xC9);
  }

  lemma PowersToTwentyThree()
    ensures Step4(0x4C) == 0xB4 && Step(0xB4) == 0x75 && Step(0x75) == 0xEA && Step(0xEA) == 0xC9
  {}

  lemma LastTwoSteps()
    ensures Add(Step(Add(Step(0xC9), Bit(true))), Bit(true)) == 0
  {}

  function Halves(n: nat, c: bv8): bv8
    decreases n
  {
    if n == 0 then c else Half(Halves(n - 1, c))
  }

  /** The coefficient of x^(n - 1 - j). */
  lemma {:induction false} DigitAt(n: nat, c: bv8, j: nat)
    requires j < n
    ensures Low(n, c)[j] == Odd(Halves(n - 1 - j, c))
    decreases n
  {
    hide Half, Odd, Low;
    LastDigit(n - 1, c);
    if j < n - 1 {
      DigitAt(n - 1, Half(c), j);
      HalvesShift(n - 2 - j, c);
    }
  }

  lemma {:induction false} HalvesShift(n: nat, c: bv8)
    ensures Halves(n, Half(c)) == Halves(n + 1, c)
  {
    hide Half;
    if n > 0 { HalvesShift(n - 1, c); }
  }
}
