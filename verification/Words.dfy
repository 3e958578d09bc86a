/** The fixed-width integers of the firmware, as ranges of the unbounded ones. */
module Words {

  datatype Option<+T> = None | Some(value: T)

  const TWO_31: int := 0x8000_0000
  const TWO_32: int := 0x1_0000_0000

  type u8 = x: int | 0 <= x < 0x100
  type u16 = x: int | 0 <= x < 0x1_0000
  type u32 = x: int | 0 <= x < 0x1_0000_0000
  type i16 = x: int | -0x8000 <= x < 0x8000
  type i32 = x: int | -0x8000_0000 <= x < 0x8000_0000

  /** The unsigned 32-bit value congruent to x. */
  function Wrap32(x: int): u32 {
    x % 0x1_0000_0000
  }

  /** Unsigned 32-bit subtraction. */
  function Sub32(a: u32, b: u32): u32 {
    Wrap32(a - b)
  }

  /** Unsigned 32-bit addition. */
  function Add32(a: u32, b: u32): u32 {
    Wrap32(a + b)
  }

  /** Reading an unsigned 32-bit pattern as two's complement. */
  function Signed32(a: u32): i32 {
    if a < TWO_31 then a else a - TWO_32
  }

  /** The low byte of n, as the firmware's narrowing casts keep it. */
  function Byte(n: int): bv8 {
    (n % 256) as bv8
  }

  function Val(b: bv8): u8 {
    b as int
  }

  /** The four bytes of v, low byte first. */
  function PutU32(v: u32): (s: seq<bv8>)
    ensures |s| == 4
  {
    [Byte(v), Byte(v / 0x100), Byte(v / 0x1_0000), Byte(v / 0x100_0000)]
  }

  lemma ByteNat(b: bv8)
    ensures (b as int) as bv8 == b
  {}

  lemma DoubleByte(b: bv8)
    requires b as int < 128
    ensures (b << 1) as int == 2 * (b as int) && ((b << 1) | 1) as int == 2 * (b as int) + 1
  {}

  /** Every value below 256 is the value of some byte. */
  lemma {:induction false} ByteFor(n: nat) returns (b: bv8)
    requires n < 256
    ensures b as int == n
  {
    if n == 0 {
      b := 0;
    } else {
      b := ByteFor(n / 2);
      DoubleByte(b);
      b := if n % 2 == 1 then (b << 1) | 1 else b << 1;
    }
  }

  lemma ValByte(n: int)
    ensures Val(Byte(n)) == n % 256
  {
    var b := ByteFor(n % 256);
    ByteNat(b);
  }

  lemma ValOfByte(n: u8)
    ensures Val(Byte(n)) == n
  {
    hide Val, Byte;
    ValByte(n);
  }

  lemma ByteVal(b: bv8)
    ensures Byte(Val(b)) == b
  {
    ByteNat(b);
    assert Val(b) % 256 == Val(b);
    assert Byte(Val(b)) == Val(b) as bv8;
  }

  /** The constants that appear as bytes in one place and as integers in another. */
  lemma ByteLiterals()
    ensures Byte(0) == 0 && Byte(1) == 1 && Byte(2) == 2 && Byte(3) == 3 && Byte(4) == 4
    ensures Byte(0x38) == 0x38 && Byte(0x40) == 0x40 && Byte(0x80) == 0x80 && Byte(0xFF) == 0xFF
  {
    hide Byte, Val;
    LiteralValues();
    ByteVal(0);
    ByteVal(1);
    ByteVal(2);
    ByteVal(3);
    ByteVal(4);
    ByteVal(0x38);
    ByteVal(0x40);
    ByteVal(0x80);
    ByteVal(0xFF);
  }

  lemma LiteralValues()
    ensures Val(0) == 0 && Val(1) == 1 && Val(2) == 2 && Val(3) == 3 && Val(4) == 4
    ensures Val(0x38) == 0x38 && Val(0x40) == 0x40 && Val(0x80) == 0x80 && Val(0xFF) == 0xFF
  {}

  lemma SameLowByte(n: int, k: int)
    ensures (n + 256 * k) % 256 == n % 256
  {}

  lemma SmallWraps(x: int)
    ensures 0 <= x < TWO_32 ==> Wrap32(x) == x
  {}

  lemma WholeTurns(x: int, k: int)
    ensures Wrap32(x + 0x1_0000_0000 * k) == Wrap32(x)
  {}

  lemma DifferenceWraps(a: int, b: int)
    ensures Sub32(Wrap32(a), Wrap32(b)) == Wrap32(a - b)
  {}

  lemma SumWraps(a: int, b: int)
    ensures Wrap32(Wrap32(a) + b) == Wrap32(a + b)
  {}

  /** The signed difference of two wrapped times is the true one while that fits. */
  lemma SignedDifference(now: int, next: int)
    requires -TWO_31 <= now - next < TWO_31
    ensures Signed32(Sub32(Wrap32(now), Wrap32(next))) == now - next
  {
    hide Sub32;
    DifferenceWraps(now, next);
  }
}
