/** The CONTROL and telemetry codecs of host/rover_protocol.py, equivalent to the firmware's. */
module PyMessages {
  import opened Words
  import opened Config
  import Gf2
  import Frame
  import opened Protocol
  import opened PyBits
  import opened PyProtocol

  // --- flags -----------------------------------------------------------------

  lemma FlagTests(f: u8)
    ensures And(f, 0x01) != 0 <==> Byte(f) & 0x01 != 0
    ensures And(f, 0x02) != 0 <==> Byte(f) & 0x02 != 0
    ensures And(f, 0x04) != 0 <==> Byte(f) & 0x04 != 0
    ensures And(f, 0x40) != 0 <==> Byte(f) & 0x40 != 0
    ensures And(f, 0x80) != 0 <==> Byte(f) & 0x80 != 0
    ensures And(f, 0x38) / 8 == Val(FlagsIndicator(Byte(f)))
  {
    hide Byte, Val, And, Apply, FlagsIndicator;
    AndIsByteAnd(f, 0x01);
    AndIsByteAnd(f, 0x02);
    AndIsByteAnd(f, 0x04);
    AndIsByteAnd(f, 0x40);
    AndIsByteAnd(f, 0x80);
    AndIsByteAnd(f, 0x38);
    ByteLiterals();
    MaskTest(Byte(f), 0x01);
    MaskTest(Byte(f), 0x02);
    MaskTest(Byte(f), 0x04);
    MaskTest(Byte(f), 0x40);
    MaskTest(Byte(f), 0x80);
    MaskIndicator(Byte(f));
  }

  lemma MaskIndicator(b: bv8)
    ensures Val(Apply(AND, b, Byte(0x38))) / 8 == Val(FlagsIndicator(b))
  {
    hide Val, Byte, Gf2.Half;
    var x := b & 0x38;
    ByteLiterals();
    HalfVal(x);
    HalfVal(Gf2.Half(x));
    HalfVal(Gf2.Half(Gf2.Half(x)));
    ThreeHalves(x);
  }

  lemma ThreeHalves(x: bv8)
    ensures x >> 3 == Gf2.Half(Gf2.Half(Gf2.Half(x)))
  {}

  function Set(f: bv8, on: bool, mask: bv8): bv8 {
    if on then f | mask else f
  }

  lemma SetFlag(f: bv8, mask: u8)
    ensures Combine(OR, Val(f), mask) == Val(Set(f, true, Byte(mask)))
    ensures Set(f, false, Byte(mask)) == f
  {
    hide Val, Byte, Combine;
    CombineVal(OR, f, Byte(mask));
    ValByte(mask);
  }

  lemma NoFlags()
    ensures Val(0) == 0
  {}

  function FieldBits(x: bv8): bv8 {
    (x << 3) & 0x38
  }

  lemma FlagsInSteps(stop: bool, abort: bool, ret: bool, c2Lost: bool, x: bv8)
    ensures PackFlags(stop, abort, ret, c2Lost, x)
         == Set(Set(Set(Set(Set(0, stop, 0x01), abort, 0x02), ret, 0x04), c2Lost, 0x40), true, FieldBits(x))
  {}

  lemma IndicatorField(indicator: int)
    ensures And(8 * indicator, 0x38) < 0x100
    ensures Byte(And(8 * indicator, 0x38)) == FieldBits(Byte(indicator))
  {
    hide Byte, Val, And, Apply, FieldBits;
    AndIsByteAnd(8 * indicator, 0x38);
    ByteVal(Apply(AND, Byte(8 * indicator), Byte(0x38)));
    EightTimes(indicator);
    FieldOfShift(Byte(indicator));
  }

  function ShiftThree(x: bv8): bv8 {
    x << 3
  }

  lemma EightTimes(n: int)
    ensures Byte(8 * n) == ShiftThree(Byte(n))
  {
    hide Byte, Val, ShiftThree;
    ValByte(n);
    ValByte(8 * n);
    ShiftThreeVal(Byte(n));
    ByteVal(Byte(8 * n));
    ByteVal(ShiftThree(Byte(n)));
    assert 8 * n % 0x100 == 8 * (n % 0x100) % 0x100 by { EightMod(n); }
  }

  lemma EightMod(n: int)
    ensures 8 * n % 0x100 == 8 * (n % 0x100) % 0x100
  {
    var m, k := n % 0x100, n / 0x100;
    assert 8 * n == 8 * m + 0x100 * (8 * k);
    SameLowByte(8 * m, 8 * k);
  }

  lemma ShiftThreeVal(x: bv8)
    ensures Val(ShiftThree(x)) == 8 * Val(x) % 0x100
  {}

  lemma FieldOfShift(x: bv8)
    ensures Apply(AND, ShiftThree(x), Byte(0x38)) == FieldBits(x)
  {}

  method PackControlFlags(c2Lost: bool, stop: bool, autonomyAbort: bool, returnRequest: bool, indicator: int)
    returns (flags: nat)
    ensures flags < 0x100 && Byte(flags) == PackFlags(stop, autonomyAbort, returnRequest, c2Lost, Byte(indicator))
  {
    hide Byte, Val, Combine, PackFlags, And, Set, FieldBits;
    ghost var f: bv8 := 0;
    NoFlags();
    ByteLiterals();
    FlagsInSteps(stop, autonomyAbort, returnRequest, c2Lost, Byte(indicator));
    flags := 0;
    SetFlag(f, 0x01);
    if stop { flags := Combine(OR, flags, 0x01); }
    f := Set(f, stop, 0x01);
    SetFlag(f, 0x02);
    if autonomyAbort { flags := Combine(OR, flags, 0x02); }
    f := Set(f, autonomyAbort, 0x02);
    SetFlag(f, 0x04);
    if returnRequest { flags := Combine(OR, flags, 0x04); }
    f := Set(f, returnRequest, 0x04);
    SetFlag(f, 0x40);
    if c2Lost { flags := Combine(OR, flags, 0x40); }
    f := Set(f, c2Lost, 0x40);
    IndicatorField(indicator);
    SetFlag(f, And(8 * indicator, 0x38));
    flags := Combine(OR, flags, And(8 * indicator, 0x38));
    f := Set(f, true, FieldBits(Byte(indicator)));
    ByteVal(f);
  }

  // --- CONTROL ---------------------------------------------------------------

  predicate FitsI16(v: int) {
    -0x8000 <= v < 0x8000
  }

  /** None where struct.pack raises. Any indicator, and any integer as sequence number, is cut to its low bits. */
  method EncodeControl(drive: int, steer: int, mode: int, c2Lost: bool, stop: bool, seqNo: int,
                       autonomyAbort: bool, returnRequest: bool, indicator: int)
    returns (frame: Option<seq<u8>>)
    ensures frame.Some? <==> FitsI16(drive) && FitsI16(steer) && 0 <= mode < 0x100
    ensures frame.Some? ==>
              Raw(frame.value) == ControlFrame(CAN_ID_CONTROL,
                ControlMsg(drive, steer, mode, stop, autonomyAbort, returnRequest, indicator % 0x100, c2Lost,
                           seqNo % 0x100))
  {
    hide Byte, PackFlags, Frame.Seal, Raw, PackTwo, PutI16;
    var flags := PackControlFlags(c2Lost, stop, autonomyAbort, returnRequest, indicator);
    if !FitsI16(drive) || !FitsI16(steer) || !(0 <= mode < 0x100) { return None; }
    PackedTwo(drive);
    PackedTwo(steer);
    IndicatorByte(indicator);
    RawConcat(PackTwo(drive), PackTwo(steer));
    RawConcat(PackTwo(drive) + PackTwo(steer), [mode, flags]);
    RawPair(mode, flags);
    PackTwoLength(drive);
    PackTwoLength(steer);
    var payload := PackTwo(drive) + PackTwo(steer) + [mode, flags];
    var sealed := SealFrame(CAN_ID_CONTROL, payload, seqNo);
    frame := Some(sealed);
  }

  lemma PackTwoLength(v: int)
    ensures |PackTwo(v)| == 2
  {}

  lemma IndicatorByte(n: int)
    ensures Byte(n % 0x100) == Byte(n)
  {}

  lemma RawPair(x: u8, y: u8)
    ensures Raw([x, y]) == [Byte(x), Byte(y)]
  {
    hide Byte;
  }

  /** For every byte string of every length the verdict and the fields are the firmware's. */
  method DecodeControl(frame: seq<u8>, id: u32) returns (result: DecodeResult, fields: Option<ControlMsg>)
    ensures result == ControlVerdict(id, Raw(frame))
    ensures fields == if result == DECODE_OK then Some(ControlFields(Raw(frame))) else None
  {
    hide Frame.CrcMatches, Raw, Byte, Val, GetI16, UnpackI16, And, FlagsIndicator;
    var content;
    result, content := Open(id, frame);
    if result != DECODE_OK { return result, None; }
    var (payload, seqNo) := content.value;
    ghost var raw := Raw(frame);
    var mode, flags := payload[4], payload[5];
    RawAt(frame, 4);
    RawAt(frame, 5);
    RawAt(frame, 6);
    FlagTests(flags);
    if !(mode in {MODE_DISABLED, MODE_MANUAL, MODE_AUTONOMOUS}) { return DECODE_BAD_MODE, None; }
    if And(flags, 0x80) != 0 { return DECODE_BAD_FLAGS, None; }
    var indicator := And(flags, 0x38) / 8;
    if !(0 <= indicator <= INDICATOR_FAULT) { return DECODE_BAD_INDICATOR, None; }
    RawPart(frame, 0, 2);
    RawPart(frame, 2, 4);
    assert frame[0..2] == payload[..2] && frame[2..4] == payload[2..4];
    assert raw[0..2] == raw[..6][..2] && raw[2..4] == raw[..6][2..4];
    UnpackTwo(payload[..2]);
    UnpackTwo(payload[2..4]);
    var drive, steer := UnpackI16(payload[..2]), UnpackI16(payload[2..4]);
    if !(CMD_MIN <= drive <= CMD_MAX && CMD_MIN <= steer <= CMD_MAX) { return DECODE_BAD_RANGE, None; }
    fields := Some(ControlMsg(drive, steer, mode, And(flags, 0x01) != 0, And(flags, 0x02) != 0,
                              And(flags, 0x04) != 0, indicator, And(flags, 0x40) != 0, seqNo));
  }

  // --- telemetry -------------------------------------------------------------

  /** The arguments of the four telemetry encoders, as the integers Python passes. */
  datatype PyTelemetry =
    | PyDriveL(encLeft: int, steerFb: int)
    | PyDriveR(encRight: int, cmdAgeMs: int)
    | PyPower(currentCa: int, voltageCv: int, faultStatus: int)
    | PyState(mode: int, jetsonLink: int, c2Link: int, controllerHealth: int, indicatorState: int, reserved: int)

  predicate FitsU16(v: int) {
    0 <= v < 0x1_0000
  }

  predicate FitsU8(v: int) {
    0 <= v < 0x100
  }

  /** What struct.pack accepts; encoder counts are wrapped first and always fit. */
  predicate Fits(t: PyTelemetry) {
    match t
    case PyDriveL(_, steer) => FitsI16(steer)
    case PyDriveR(_, age) => FitsU16(age)
    case PyPower(current, voltage, faults) => FitsI16(current) && FitsI16(voltage) && FitsU16(faults)
    case PyState(a, b, c, d, e, r) => FitsU8(a) && FitsU8(b) && FitsU8(c) && FitsU8(d) && FitsU8(e) && FitsU8(r)
  }

  function WrapPy(value: int): (r: i32)
    ensures Wrap32(r) == Wrap32(value)
  {
    (value + TWO_31) % 0x1_0000_0000 - TWO_31
  }

  /** Floored and truncated remainders lead to the same wrapped value. */
  lemma WrapsAgree(value: int)
    requires -0x8000_0000_0000_0000 <= value <= 0x7FFF_FFFF_FFFF_FFFF - TWO_31
    ensures WrapPy(value) == WrapI32(value)
  {
    hide WrapPy, WrapI32, Wrap32;
    WrapUnique(WrapPy(value), WrapI32(value));
  }

  /** The firmware message with the same fields. */
  function Meant(t: PyTelemetry): Telemetry
    requires Fits(t)
  {
    match t
    case PyDriveL(enc, steer) => DriveL(WrapPy(enc), steer)
    case PyDriveR(enc, age) => DriveR(WrapPy(enc), age)
    case PyPower(current, voltage, faults) => Power(current, voltage, faults)
    case PyState(a, b, c, d, e, r) => State(a, b, c, d, e, r)
  }

  /** What that means field by field, and which values struct.pack accepts. */
  lemma FieldsMeant(t: PyTelemetry)
    ensures t.PyDriveL? ==> (Fits(t) <==> -32768 <= t.steerFb <= 32767)
    ensures t.PyDriveR? ==> (Fits(t) <==> 0 <= t.cmdAgeMs <= 65535)
    ensures t.PyPower? ==>
              (Fits(t) <==> -32768 <= t.currentCa <= 32767 && -32768 <= t.voltageCv <= 32767
                            && 0 <= t.faultStatus <= 65535)
    ensures t.PyState? ==>
              (Fits(t) <==> 0 <= t.mode <= 255 && 0 <= t.jetsonLink <= 255 && 0 <= t.c2Link <= 255
                            && 0 <= t.controllerHealth <= 255 && 0 <= t.indicatorState <= 255 && 0 <= t.reserved <= 255)
    ensures Fits(t) && t.PyDriveL? ==>
              Meant(t).DriveL? && (Meant(t).encLeft - t.encLeft) % 0x1_0000_0000 == 0 && Meant(t).steerFb == t.steerFb
    ensures Fits(t) && t.PyDriveR? ==>
              && Meant(t).DriveR? && (Meant(t).encRight - t.encRight) % 0x1_0000_0000 == 0
              && Meant(t).cmdAgeMs == t.cmdAgeMs
    ensures Fits(t) && t.PyPower? ==> Meant(t) == Power(t.currentCa, t.voltageCv, t.faultStatus)
    ensures Fits(t) && t.PyState? ==>
              Meant(t) == State(t.mode, t.jetsonLink, t.c2Link, t.controllerHealth, t.indicatorState, t.reserved)
  {}

  function PyIdOf(t: PyTelemetry): u32 {
    match t
    case PyDriveL(_, _) => CAN_ID_TELEM_DRIVE_L
    case PyDriveR(_, _) => CAN_ID_TELEM_DRIVE_R
    case PyPower(_, _, _) => CAN_ID_TELEM_POWER
    case PyState(_, _, _, _, _, _) => CAN_ID_TELEM_STATE
  }

  function Pack(t: PyTelemetry): (p: seq<u8>)
    requires Fits(t)
    ensures |p| == 6
  {
    match t
    case PyDriveL(enc, steer) => PackFour(WrapPy(enc)) + PackTwo(steer)
    case PyDriveR(enc, age) => PackFour(WrapPy(enc)) + PackTwo(age)
    case PyPower(current, voltage, faults) => PackTwo(current) + (PackTwo(voltage) + PackTwo(faults))
    case PyState(a, b, c, d, e, r) => [a, b, c, d, e, r]
  }

  lemma PackedPayload(t: PyTelemetry)
    requires Fits(t)
    ensures Raw(Pack(t)) == TelemetryPayload(Meant(t)) && PyIdOf(t) == IdOf(Meant(t))
  {
    hide Byte, Raw, PackTwo, PackFour, PutI16, PutU16, PutI32, WrapPy;
    match t {
      case PyDriveL(enc, steer) =>
        PackedFour(WrapPy(enc));
        PackedTwo(steer);
        RawConcat(PackFour(WrapPy(enc)), PackTwo(steer));
      case PyDriveR(enc, age) =>
        PackedFour(WrapPy(enc));
        PackedTwo(age);
        RawConcat(PackFour(WrapPy(enc)), PackTwo(age));
      case PyPower(current, voltage, faults) =>
        PackedTwo(current);
        PackedTwo(voltage);
        PackedTwo(faults);
        RawConcat(PackTwo(voltage), PackTwo(faults));
        RawConcat(PackTwo(current), PackTwo(voltage) + PackTwo(faults));
      case PyState(a, b, c, d, e, r) =>
        RawSix(a, b, c, d, e, r);
    }
  }

  lemma RawSix(a: u8, b: u8, c: u8, d: u8, e: u8, r: u8)
    ensures Raw([a, b, c, d, e, r]) == [Byte(a), Byte(b), Byte(c), Byte(d), Byte(e), Byte(r)]
  {
    hide Byte;
  }

  /** The four encoders: the firmware's frame for every message that packs, an error for every other. */
  method EncodeTelemetry(t: PyTelemetry, seqNo: int) returns (frame: Option<seq<u8>>)
    ensures frame.Some? <==> Fits(t)
    ensures frame.Some? ==> Raw(frame.value) == TelemetryFrame(Meant(t), seqNo % 0x100)
  {
    hide Frame.Seal, Raw, Pack, TelemetryPayload, Meant, Fits;
    if !Fits(t) { return None; }
    PackedPayload(t);
    var sealed := SealFrame(PyIdOf(t), Pack(t), seqNo);
    frame := Some(sealed);
  }

  function Unpack(kind: u32, p: seq<u8>): Telemetry
    requires IsTelemetryId(kind) && |p| == 6
  {
    if kind == CAN_ID_TELEM_DRIVE_L then DriveL(UnpackI32(p[..4]), UnpackI16(p[4..]))
    else if kind == CAN_ID_TELEM_DRIVE_R then DriveR(UnpackI32(p[..4]), UnpackU16(p[4..]))
    else if kind == CAN_ID_TELEM_POWER then Power(UnpackI16(p[..2]), UnpackI16(p[2..4]), UnpackU16(p[4..]))
    else State(p[0], p[1], p[2], p[3], p[4], p[5])
  }

  lemma UnpackedPayload(kind: u32, p: seq<u8>)
    requires IsTelemetryId(kind) && |p| == 6
    ensures Unpack(kind, p) == TelemetryOf(kind, Raw(p))
  {
    hide Raw, Byte, Val, UnpackI32, UnpackI16, UnpackU16, GetI32, GetI16, GetU16;
    RawPart(p, 0, 4);
    RawPart(p, 4, 6);
    RawPart(p, 0, 2);
    RawPart(p, 2, 4);
    assert p[..4] == p[0..4] && p[4..] == p[4..6] && p[..2] == p[0..2];
    var r := Raw(p);
    assert r[..4] == r[0..4] && r[4..] == r[4..6] && r[..2] == r[0..2];
    UnpackFour(p[..4]);
    UnpackTwo(p[4..]);
    UnpackTwo(p[..2]);
    UnpackTwo(p[2..4]);
    RawAt(p, 0);
    RawAt(p, 1);
    RawAt(p, 2);
    RawAt(p, 3);
    RawAt(p, 4);
    RawAt(p, 5);
  }

  /** The four decoders: verdict, fields and sequence number are the firmware's for every byte string. */
  method DecodeTelemetry(kind: u32, id: u32, frame: seq<u8>)
    returns (result: DecodeResult, decoded: Option<(Telemetry, u8)>)
    requires IsTelemetryId(kind)
    ensures result == TelemetryVerdict(id, Raw(frame))
    ensures decoded == if result == DECODE_OK
                       then Some((TelemetryFields(kind, Raw(frame)), Val(Raw(frame)[FRAME_SEQ_OFFSET]))) else None
  {
    hide Frame.CrcMatches, Raw, Byte, Val, Unpack, TelemetryOf;
    var content;
    result, content := Open(id, frame);
    if result != DECODE_OK { return result, None; }
    var (payload, seqNo) := content.value;
    RawPart(frame, 0, 6);
    assert frame[0..6] == payload && Raw(frame)[0..6] == Raw(frame)[..6];
    RawAt(frame, 6);
    UnpackedPayload(kind, payload);
    decoded := Some((Unpack(kind, payload), seqNo));
  }

  // --- helpers ---------------------------------------------------------------

  function PyClampCmdAgeMs(age: int): int {
    if age < 0 then 0 else if age < CMD_AGE_MAX then age else CMD_AGE_MAX
  }

  function PySeqDelta(previous: int, current: int): nat {
    And(current - previous, 0xFF)
  }

  lemma HelpersAgree(age: int, previous: u8, current: u8)
    ensures PyClampCmdAgeMs(age) == ClampCmdAgeMs(age)
    ensures PySeqDelta(previous, current) == SeqDelta(previous, current)
  {
    hide And;
    LowByte(current - previous);
  }
}
