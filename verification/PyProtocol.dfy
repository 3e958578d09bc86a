/**
 * The second implementation of the protocol, host/rover_protocol.py, on
 * unbounded integers and masks, proved against the same specification.
 */
module PyProtocol {
  import opened Words
  import opened Config
  import opened Gf2
  import opened Crc8
  import opened Frame
  import opened Protocol
  import opened PyBits

  /** A Python byte string as the bytes the firmware holds. */
  function Raw(s: seq<u8>): (r: seq<bv8>)
    ensures |r| == |s|
  {
    seq(|s|, i requires 0 <= i < |s| => Byte(s[i]))
  }

  lemma RawConcat(s: seq<u8>, t: seq<u8>)
    ensures Raw(s + t) == Raw(s) + Raw(t)
  {
    hide Byte;
  }

  lemma RawPart(s: seq<u8>, i: nat, j: nat)
    requires i <= j <= |s|
    ensures Raw(s[i..j]) == Raw(s)[i..j]
  {
    hide Byte;
  }

  // --- CRC -------------------------------------------------------------------

  lemma StepOnInts(c: bv8)
    ensures And(Val(c), 0x80) != 0 <==> c & 0x80 != 0
    ensures And(2 * Val(c), 0xFF) == Val(c << 1)
    ensures And(Combine(XOR, 2 * Val(c), 0x1D), 0xFF) == Val((c << 1) ^ 0x1D)
  {
    hide Val, Byte, And, Combine, Apply;
    AndIsByteAnd(Val(c), 0x80);
    ByteVal(c);
    ByteLiterals();
    MaskTest(c, 0x80);
    LowByte(2 * Val(c));
    DoubleVal(c);
    LowByte(Combine(XOR, 2 * Val(c), 0x1D));
    CombineLow(XOR, 8, 2 * Val(c), 0x1D);
    LowByteOf(2 * Val(c));
    LowByteOf(0x1D);
    LowByteOf(Combine(XOR, 2 * Val(c), 0x1D));
    CombineVal(XOR, c << 1, 0x1D);
    XorPoly(c);
  }

  lemma DoubleVal(c: bv8)
    ensures Val(c << 1) == 2 * Val(c) % 0x100
  {}

  lemma XorPoly(c: bv8)
    ensures Apply(XOR, c << 1, 0x1D) == (c << 1) ^ 0x1D && Val(0x1D) == 0x1D
  {}

  /** One turn of the inner loop, on integers, is one step of the register. */
  lemma NextIsStep(c: bv8)
    ensures (if And(Val(c), 0x80) != 0 then And(Combine(XOR, 2 * Val(c), 0x1D), 0xFF) else And(2 * Val(c), 0xFF))
         == Val(Step(c))
  {
    hide Val, And, Combine;
    StepOnInts(c);
  }

  lemma XorIsAdd(c: bv8, x: u8)
    ensures Combine(XOR, Val(c), x) == Val(Add(c, Byte(x)))
  {
    hide Val, Byte, Combine;
    CombineVal(XOR, c, Byte(x));
    ValByte(x);
  }

  lemma ShiftUnfolds(n: nat, c: bv8)
    ensures Shift(0, c) == c && (n > 0 ==> Shift(n, c) == Shift(n - 1, Step(c)))
  {
    hide Step;
  }

  method Crc8Update(start: u8, data: seq<u8>) returns (crc: nat)
    ensures crc == Val(CrcOver(Byte(start), Raw(data)))
  {
    hide Val, Byte, And, Combine, Shift, Add, CrcOver, Step;
    crc := start;
    ValByte(start);
    CrcNone(Byte(start));
    ghost var raw, c := Raw(data), Byte(start);
    for i := 0 to |data|
      invariant crc == Val(c) && c == CrcOver(Byte(start), raw[..i])
    {
      XorIsAdd(c, data[i]);
      ghost var mixed := Add(c, raw[i]);
      crc := Combine(XOR, crc, data[i]);
      c := mixed;
      for bit := 0 to 8
        invariant crc == Val(c) && Shift(8 - bit, c) == Shift(8, mixed)
      {
        NextIsStep(c);
        ShiftUnfolds(8 - bit, c);
        crc := if And(crc, 0x80) != 0 then And(Combine(XOR, 2 * crc, 0x1D), 0xFF) else And(2 * crc, 0xFF);
        c := Step(c);
      }
      ShiftUnfolds(0, c);
      assert raw[..i + 1] == raw[..i] + [raw[i]];
      CrcSnoc(Byte(start), raw[..i], raw[i]);
    }
    assert raw[..|data|] == raw;
  }

  lemma CrcNone(c: bv8)
    ensures CrcOver(c, []) == c
  {}

  method FrameCrc8(id: u32, payload: seq<u8>) returns (crc: nat)
    ensures crc == Val(FrameCrc(id, Raw(payload)))
  {
    hide Val, Byte, And, Combine, CrcOver, Add;
    RawIdBytes(id);
    var idBytes: seq<u8> := [And(id, 0xFF), And(id / 0x100, 0xFF), And(id / 0x1_0000, 0xFF), And(id / 0x100_0000, 0xFF)];
    crc := Crc8Update(0xFF, idBytes);
    ghost var seed := CrcOver(Byte(0xFF), Raw(idBytes));
    ByteVal(seed);
    crc := Crc8Update(crc, payload);
    ByteLiterals();
    XorIsAdd(CrcOver(seed, Raw(payload)), 0xFF);
    crc := Combine(XOR, crc, 0xFF);
  }

  lemma LowBytes(x: int)
    ensures And(x, 0xFF) < 0x100 && Byte(And(x, 0xFF)) == Byte(x)
  {
    hide And;
    LowByte(x);
  }

  lemma RawIdBytes(id: u32)
    ensures And(id, 0xFF) < 0x100 && And(id / 0x100, 0xFF) < 0x100
    ensures And(id / 0x1_0000, 0xFF) < 0x100 && And(id / 0x100_0000, 0xFF) < 0x100
    ensures Raw([And(id, 0xFF), And(id / 0x100, 0xFF), And(id / 0x1_0000, 0xFF), And(id / 0x100_0000, 0xFF)]) == PutU32(id)
  {
    hide And, Byte;
    LowBytes(id);
    LowBytes(id / 0x100);
    LowBytes(id / 0x1_0000);
    LowBytes(id / 0x100_0000);
  }

  // --- the frame envelope ----------------------------------------------------

  method SealFrame(id: u32, payload: seq<u8>, seqNo: int) returns (frame: seq<u8>)
    requires |payload| == FRAME_SEQ_OFFSET
    ensures Raw(frame) == Frame.Seal(id, Raw(payload), seqNo % 0x100)
  {
    hide Byte, And, FrameCrc, Raw, Val;
    LowBytes(seqNo);
    LowByte(seqNo);
    var body := payload + [And(seqNo, 0xFF)];
    RawConcat(payload, [And(seqNo, 0xFF)]);
    RawOne(And(seqNo, 0xFF));
    var crc := FrameCrc8(id, body);
    ByteVal(FrameCrc(id, Raw(body)));
    RawConcat(body, [crc]);
    RawOne(crc);
    frame := body + [crc];
  }

  lemma RawOne(x: u8)
    ensures Raw([x]) == [Byte(x)]
  {
    hide Byte;
  }

  method Open(id: u32, frame: seq<u8>) returns (result: DecodeResult, content: Option<(seq<u8>, u8)>)
    ensures result == TelemetryVerdict(id, Raw(frame))
    ensures content == if result == DECODE_OK then Some((frame[..FRAME_SEQ_OFFSET], frame[FRAME_SEQ_OFFSET])) else None
  {
    hide Byte, FrameCrc, Raw, Val;
    if |frame| != FRAME_DLC { return DECODE_BAD_DLC, None; }
    var body := frame[..FRAME_CRC_OFFSET];
    RawPart(frame, 0, FRAME_CRC_OFFSET);
    RawAt(frame, FRAME_CRC_OFFSET);
    assert Raw(frame)[0..FRAME_CRC_OFFSET] == Raw(frame)[..|Raw(frame)| - 1];
    assert frame[0..FRAME_CRC_OFFSET] == body;
    var crc := FrameCrc8(id, body);
    ByteVal(FrameCrc(id, Raw(body)));
    ValByte(frame[FRAME_CRC_OFFSET]);
    if crc != frame[FRAME_CRC_OFFSET] { return DECODE_BAD_CRC, None; }
    return DECODE_OK, Some((frame[..FRAME_SEQ_OFFSET], frame[FRAME_SEQ_OFFSET]));
  }

  lemma RawAt(s: seq<u8>, i: nat)
    requires i < |s|
    ensures Raw(s)[i] == Byte(s[i]) && Val(Raw(s)[i]) == s[i]
  {
    hide Byte, Val;
    ValOfByte(s[i]);
  }

  // --- the struct module's little-endian fields ------------------------------

  function UnpackU16(s: seq<u8>): u16
    requires |s| == 2
  {
    var lo: int, hi: int := s[0], s[1];
    lo + 0x100 * hi
  }

  function UnpackI16(s: seq<u8>): i16
    requires |s| == 2
  {
    if UnpackU16(s) < 0x8000 then UnpackU16(s) else UnpackU16(s) - 0x1_0000
  }

  function UnpackI32(s: seq<u8>): i32
    requires |s| == 4
  {
    var a: int, b: int, c: int, d: int := s[0], s[1], s[2], s[3];
    var u := a + 0x100 * b + 0x1_0000 * c + 0x100_0000 * d;
    if u < 0x8000_0000 then u else u - 0x1_0000_0000
  }

  lemma UnpackTwo(s: seq<u8>)
    requires |s| == 2
    ensures UnpackU16(s) == GetU16(Raw(s)) && UnpackI16(s) == GetI16(Raw(s))
  {
    hide Byte, Val;
    ValOfByte(s[0]);
    ValOfByte(s[1]);
  }

  lemma UnpackFour(s: seq<u8>)
    requires |s| == 4
    ensures UnpackI32(s) == GetI32(Raw(s))
  {
    hide Byte, Val, Raw;
    RawAt(s, 0);
    RawAt(s, 1);
    RawAt(s, 2);
    RawAt(s, 3);
  }

  function PackTwo(v: int): seq<u8> {
    [v % 0x100, v / 0x100 % 0x100]
  }

  function PackFour(v: int): seq<u8> {
    [v % 0x100, v / 0x100 % 0x100, v / 0x1_0000 % 0x100, v / 0x100_0000 % 0x100]
  }

  lemma ByteDigit(v: int, w: int, k: int)
    requires v == w + 0x100 * k
    ensures Byte(v % 0x100) == Byte(w)
  {
    hide Byte;
    ByteOfSum(w, k);
    ByteOfSum(v % 0x100, v / 0x100);
  }

  lemma PackedTwo(v: int)
    ensures 0 <= v < 0x1_0000 ==> Raw(PackTwo(v)) == PutU16(v)
    ensures -0x8000 <= v < 0x8000 ==> Raw(PackTwo(v)) == PutI16(v)
  {
    hide Byte;
    var u := v % 0x1_0000;
    var k := v / 0x1_0000;
    ByteDigit(v, u, 0x100 * k);
    ByteDigit(v / 0x100, u / 0x100, k);
    ByteDigit(v, v, 0);
    ByteDigit(v / 0x100, v / 0x100, 0);
  }

  lemma PackedFour(v: i32)
    ensures Raw(PackFour(v)) == PutI32(v)
  {
    hide Byte;
    var u := Wrap32(v);
    var k := v / 0x1_0000_0000;
    assert v == u + 0x1_0000_0000 * k;
    ByteDigit(v, u, 0x100_0000 * k);
    ByteDigit(v / 0x100, u / 0x100, 0x1_0000 * k);
    ByteDigit(v / 0x1_0000, u / 0x1_0000, 0x100 * k);
    ByteDigit(v / 0x100_0000, u / 0x100_0000, k);
  }
}
