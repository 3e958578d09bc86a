/** The messages of firmware/src/rover_protocol.cpp and their validating codecs. */
module Protocol {
  import opened Words
  import opened Config
  import Gf2
  import opened Frame

  datatype DecodeResult =
    | DECODE_OK
    | DECODE_BAD_DLC
    | DECODE_BAD_CRC
    | DECODE_BAD_MODE
    | DECODE_BAD_FLAGS
    | DECODE_BAD_INDICATOR
    | DECODE_BAD_RANGE

  datatype ControlMsg = ControlMsg(
    driveCmd: i16, steerCmd: i16, mode: u8,
    stop: bool, autonomyAbort: bool, returnRequest: bool,
    indicatorRequest: u8, c2Lost: bool, seqNo: u8)

  // --- little-endian fields --------------------------------------------------

  function PutU16(v: u16): (s: seq<bv8>)
    ensures |s| == 2
  {
    [Byte(v), Byte(v / 0x100)]
  }

  function PutI16(v: i16): (s: seq<bv8>)
    ensures |s| == 2
  {
    PutU16(v % 0x1_0000)
  }

  function PutI32(v: i32): (s: seq<bv8>)
    ensures |s| == 4
  {
    PutU32(Wrap32(v))
  }

  function GetU16(s: seq<bv8>): u16
    requires |s| == 2
  {
    Val(s[0]) + 0x100 * Val(s[1])
  }

  function GetU32(s: seq<bv8>): u32
    requires |s| == 4
  {
    Val(s[0]) + 0x100 * Val(s[1]) + 0x1_0000 * Val(s[2]) + 0x100_0000 * Val(s[3])
  }

  function GetI16(s: seq<bv8>): i16
    requires |s| == 2
  {
    var u := GetU16(s);
    if u >= 0x8000 then u - 0x1_0000 else u
  }

  function GetI32(s: seq<bv8>): i32
    requires |s| == 4
  {
    Signed32(GetU32(s))
  }

  lemma GetPutI16(v: i16)
    ensures GetI16(PutI16(v)) == v
  {
    hide PutU16, GetU16;
    GetPutU16(v % 0x1_0000);
  }

  lemma GetPutU16(v: u16)
    ensures GetU16(PutU16(v)) == v
  {
    hide Byte, Val;
    ValByte(v);
    ValByte(v / 0x100);
  }

  lemma GetPutU32(v: u32)
    ensures GetU32(PutU32(v)) == v
  {
    hide Byte, Val;
    ValByte(v);
    ValByte(v / 0x100);
    ValByte(v / 0x1_0000);
    ValByte(v / 0x100_0000);
    FourDigits(v);
  }

  lemma FourDigits(v: u32)
    ensures v == v % 256 + 0x100 * (v / 0x100 % 256) + 0x1_0000 * (v / 0x1_0000 % 256)
              + 0x100_0000 * (v / 0x100_0000 % 256)
  {
    var h := v / 0x100;
    var k := h / 0x100;
    assert v / 0x1_0000 == k && v / 0x100_0000 == k / 0x100;
    assert v == v % 256 + 0x100 * h && h == h % 256 + 0x100 * k && k == k % 256 + 0x100 * (k / 0x100);
  }

  lemma GetPutI32(v: i32)
    ensures GetI32(PutI32(v)) == v
  {
    hide PutU32, GetU32;
    GetPutU32(Wrap32(v));
  }

  lemma ByteOfSum(n: int, k: int)
    ensures Byte(n + 256 * k) == Byte(n)
  {
    assert (n + 256 * k) % 256 == n % 256;
  }

  lemma PutGetU16(s: seq<bv8>)
    requires |s| == 2
    ensures PutU16(GetU16(s)) == s
  {
    hide Byte, Val;
    ByteOfSum(Val(s[0]), Val(s[1]));
    ByteVal(s[0]);
    ByteVal(s[1]);
    assert GetU16(s) / 0x100 == Val(s[1]);
  }

  lemma PutGetI16(s: seq<bv8>)
    requires |s| == 2
    ensures PutI16(GetI16(s)) == s
  {
    hide Byte, Val, PutU16;
    PutGetU16(s);
    assert GetI16(s) % 0x1_0000 == GetU16(s);
  }

  lemma PutGetU32(s: seq<bv8>)
    requires |s| == 4
    ensures PutU32(GetU32(s)) == s
  {
    hide Byte, Val;
    var a: int, b: int, c: int, d: int := Val(s[0]), Val(s[1]), Val(s[2]), Val(s[3]);
    ByteOfSum(a, b + 0x100 * c + 0x1_0000 * d);
    ByteOfSum(b, c + 0x100 * d);
    ByteOfSum(c, d);
    ByteVal(s[0]);
    ByteVal(s[1]);
    ByteVal(s[2]);
    ByteVal(s[3]);
    assert GetU32(s) / 0x100 == b + 0x100 * c + 0x1_0000 * d;
    assert GetU32(s) / 0x1_0000 == c + 0x100 * d;
    assert GetU32(s) / 0x100_0000 == d;
  }

  lemma PutGetI32(s: seq<bv8>)
    requires |s| == 4
    ensures PutI32(GetI32(s)) == s
  {
    hide PutU32, GetU32;
    PutGetU32(s);
    assert Wrap32(GetI32(s)) == GetU32(s);
  }

  // --- CONTROL ---------------------------------------------------------------

  predicate IsKnownMode(mode: u8) {
    mode == MODE_DISABLED || mode == MODE_MANUAL || mode == MODE_AUTONOMOUS
  }

  predicate ModePermitsMotion(mode: u8) {
    mode == MODE_MANUAL || mode == MODE_AUTONOMOUS
  }

  predicate IsValidCommand(value: i16) {
    CMD_MIN <= value <= CMD_MAX
  }

  predicate IsKnownIndicator(indicator: u8) {
    indicator <= INDICATOR_FAULT
  }

  predicate ValidControl(m: ControlMsg) {
    IsKnownMode(m.mode) && IsKnownIndicator(m.indicatorRequest)
    && IsValidCommand(m.driveCmd) && IsValidCommand(m.steerCmd)
  }

  /** The flags byte for an indicator request x. */
  function PackFlags(stop: bool, abort: bool, ret: bool, c2Lost: bool, x: bv8): bv8 {
    (if stop then 0x01 else 0) | (if abort then 0x02 else 0) | (if ret then 0x04 else 0)
    | (if c2Lost then 0x40 else 0) | ((x << 3) & 0x38)
  }

  function FlagsIndicator(flags: bv8): bv8 {
    (flags & 0x38) >> 3
  }

  function ControlPayload(m: ControlMsg): (s: seq<bv8>)
    ensures |s| == 6
  {
    PutI16(m.driveCmd) + PutI16(m.steerCmd) + [Byte(m.mode),
      PackFlags(m.stop, m.autonomyAbort, m.returnRequest, m.c2Lost, Byte(m.indicatorRequest))]
  }

  /** The frame that carries m, sealed under identifier id. */
  function ControlFrame(id: u32, m: ControlMsg): (f: seq<bv8>)
    ensures |f| == FRAME_DLC
  {
    Seal(id, ControlPayload(m), m.seqNo)
  }

  method EncodeControl(m: ControlMsg, buf: array<bv8>) returns (len: nat)
    requires buf.Length >= FRAME_DLC
    modifies buf
    ensures len == FRAME_DLC
    ensures buf[..FRAME_DLC] == ControlFrame(CAN_ID_CONTROL, m)
    ensures buf[FRAME_DLC..] == old(buf[FRAME_DLC..])
  {
    hide Byte, PackFlags, Seal, PutI16;
    var drive, steer := PutI16(m.driveCmd), PutI16(m.steerCmd);
    buf[0], buf[1] := drive[0], drive[1];
    buf[2], buf[3] := steer[0], steer[1];
    buf[4] := Byte(m.mode);
    var flags := FlagsOf(m);
    buf[5] := flags;
    assert buf[..6] == ControlPayload(m);
    len := SealFrame(CAN_ID_CONTROL, m.seqNo, buf);
  }

  method FlagsOf(m: ControlMsg) returns (flags: bv8)
    ensures flags == PackFlags(m.stop, m.autonomyAbort, m.returnRequest, m.c2Lost, Byte(m.indicatorRequest))
  {
    hide Byte;
    flags := 0;
    if m.stop { flags := flags | 0x01; }
    if m.autonomyAbort { flags := flags | 0x02; }
    if m.returnRequest { flags := flags | 0x04; }
    if m.c2Lost { flags := flags | 0x40; }
    flags := flags | ((Byte(m.indicatorRequest) << 3) & 0x38);
  }

  function ControlOf(p: seq<bv8>, seqNo: u8): ControlMsg
    requires |p| == 6
  {
    ControlMsg(GetI16(p[..2]), GetI16(p[2..4]), Val(p[4]),
               p[5] & 0x01 != 0, p[5] & 0x02 != 0, p[5] & 0x04 != 0,
               Val(FlagsIndicator(p[5])), p[5] & 0x40 != 0, seqNo)
  }

  /** The fields an eight-byte frame carries, before any validation. */
  function ControlFields(f: seq<bv8>): ControlMsg
    requires |f| == FRAME_DLC
  {
    ControlOf(f[..FRAME_SEQ_OFFSET], Val(f[FRAME_SEQ_OFFSET]))
  }

  /** The verdict on a received frame: the first check that fails, in the firmware's order. */
  function ControlVerdict(id: u32, f: seq<bv8>): DecodeResult {
    if |f| != FRAME_DLC then DECODE_BAD_DLC
    else if !CrcMatches(id, f) then DECODE_BAD_CRC
    else
      var m := ControlFields(f);
      if !IsKnownMode(m.mode) then DECODE_BAD_MODE
      else if f[5] & 0x80 != 0 then DECODE_BAD_FLAGS
      else if !IsKnownIndicator(m.indicatorRequest) then DECODE_BAD_INDICATOR
      else if !IsValidCommand(m.driveCmd) || !IsValidCommand(m.steerCmd) then DECODE_BAD_RANGE
      else DECODE_OK
  }

  method OpenFrame(id: u32, buf: array<bv8>, len: u8, prior: u8) returns (r: DecodeResult, seqOut: u8)
    requires len <= buf.Length
    ensures r == if len != FRAME_DLC then DECODE_BAD_DLC
                 else if !CrcMatches(id, buf[..FRAME_DLC]) then DECODE_BAD_CRC else DECODE_OK
    ensures seqOut == if r == DECODE_OK then Val(buf[FRAME_SEQ_OFFSET]) else prior
  {
    hide FrameCrc;
    seqOut := prior;
    if len != FRAME_DLC { return DECODE_BAD_DLC, prior; }
    assert buf[..FRAME_DLC][..FRAME_CRC_OFFSET] == buf[..FRAME_CRC_OFFSET];
    var crc := FrameCrc8(id, buf[..FRAME_CRC_OFFSET]);
    if crc != buf[FRAME_CRC_OFFSET] { return DECODE_BAD_CRC, prior; }
    seqOut := Val(buf[FRAME_SEQ_OFFSET]);
    r := DECODE_OK;
  }

  /** `prior` is what the caller's message holds before the call; only acceptance overwrites it. */
  method DecodeControl(id: u32, buf: array<bv8>, len: u8, prior: ControlMsg)
    returns (r: DecodeResult, out: ControlMsg)
    requires len <= buf.Length
    ensures r == ControlVerdict(id, buf[..len])
    ensures out == if r == DECODE_OK then ControlFields(buf[..len]) else prior
  {
    hide CrcMatches, Val, GetI16, FlagsIndicator;
    out := prior;
    var seqNo;
    r, seqNo := OpenFrame(id, buf, len, 0);
    if r != DECODE_OK { return; }

    var mode := Val(buf[4]);
    var flags := buf[5];
    if !IsKnownMode(mode) { r := DECODE_BAD_MODE; return; }
    if flags & 0x80 != 0 { r := DECODE_BAD_FLAGS; return; }
    var indicator := Val(FlagsIndicator(flags));
    if !IsKnownIndicator(indicator) { r := DECODE_BAD_INDICATOR; return; }
    assert buf[..8][..6][..2] == buf[0..2] && buf[..8][..6][2..4] == buf[2..4];
    var drive := GetI16(buf[0..2]);
    var steer := GetI16(buf[2..4]);
    if !IsValidCommand(drive) || !IsValidCommand(steer) { r := DECODE_BAD_RANGE; return; }

    out := ControlMsg(drive, steer, mode, flags & 0x01 != 0, flags & 0x02 != 0,
                      flags & 0x04 != 0, indicator, flags & 0x40 != 0, seqNo);
  }

  // --- the CONTROL codec is a bijection --------------------------------------

  lemma FlagsRoundTrip(stop: bool, abort: bool, ret: bool, c2Lost: bool, x: bv8)
    ensures var f := PackFlags(stop, abort, ret, c2Lost, x);
            f & 0x80 == 0 && (f & 0x01 != 0) == stop && (f & 0x02 != 0) == abort
            && (f & 0x04 != 0) == ret && (f & 0x40 != 0) == c2Lost && FlagsIndicator(f) == x & 0x07
  {}

  lemma FlagsRepack(f: bv8)
    requires f & 0x80 == 0
    ensures PackFlags(f & 0x01 != 0, f & 0x02 != 0, f & 0x04 != 0, f & 0x40 != 0, FlagsIndicator(f)) == f
  {}

  lemma ThreeBits(x: bv8)
    ensures (x & 0x07) as int == x as int % 8
  {}

  lemma ControlOfPayload(m: ControlMsg)
    ensures ControlOf(ControlPayload(m), m.seqNo) == m.(indicatorRequest := m.indicatorRequest % 8)
    ensures ControlPayload(m)[5] & 0x80 == 0
  {
    hide Byte, Val, PackFlags, FlagsIndicator, PutI16, GetI16, ControlPayload;
    var x := Byte(m.indicatorRequest);
    ControlPayloadParts(m);
    GetPutI16(m.driveCmd);
    GetPutI16(m.steerCmd);
    FlagsRoundTrip(m.stop, m.autonomyAbort, m.returnRequest, m.c2Lost, x);
    ValByte(m.mode);
    ValByte(m.indicatorRequest);
    ThreeBitsVal(x);
  }

  lemma ControlPayloadParts(m: ControlMsg)
    ensures var p := ControlPayload(m);
            && p[..2] == PutI16(m.driveCmd) && p[2..4] == PutI16(m.steerCmd) && p[4] == Byte(m.mode)
            && p[5] == PackFlags(m.stop, m.autonomyAbort, m.returnRequest, m.c2Lost, Byte(m.indicatorRequest))
  {
    hide Byte, PackFlags, PutI16;
  }

  lemma PayloadOfControl(p: seq<bv8>, seqNo: u8)
    requires |p| == 6 && p[5] & 0x80 == 0
    ensures ControlPayload(ControlOf(p, seqNo)) == p
  {
    hide Byte, Val, PackFlags, FlagsIndicator, PutI16, GetI16;
    PutGetI16(p[..2]);
    PutGetI16(p[2..4]);
    ByteVal(p[4]);
    ByteVal(FlagsIndicator(p[5]));
    FlagsRepack(p[5]);
    assert p == p[..2] + p[2..4] + [p[4], p[5]];
  }

  /** The fields of an encoded frame: everything survives, the indicator only its low three bits. */
  lemma FieldsOfFrame(id: u32, m: ControlMsg)
    ensures ControlFields(ControlFrame(id, m)) == m.(indicatorRequest := m.indicatorRequest % 8)
    ensures ControlFrame(id, m)[5] & 0x80 == 0
  {
    hide Byte, Val, Seal, ControlPayload, ControlOf;
    var f, p := ControlFrame(id, m), ControlPayload(m);
    SealParts(id, p, m.seqNo);
    assert f[5] == f[..6][5];
    ControlOfPayload(m);
    ValByte(m.seqNo);
  }

  lemma ThreeBitsVal(x: bv8)
    ensures Val(x & 0x07) == Val(x) % 8
  {
    ThreeBits(x);
  }

  /** The verdict on an encoded message, for every message the struct can hold. */
  lemma VerdictOfFrame(id: u32, m: ControlMsg)
    ensures ControlVerdict(id, ControlFrame(id, m)) ==
      if !IsKnownMode(m.mode) then DECODE_BAD_MODE
      else if m.indicatorRequest % 8 > INDICATOR_FAULT then DECODE_BAD_INDICATOR
      else if !IsValidCommand(m.driveCmd) || !IsValidCommand(m.steerCmd) then DECODE_BAD_RANGE
      else DECODE_OK
  {
    hide CrcMatches, Seal, ControlPayload, ControlFields;
    FieldsOfFrame(id, m);
    SealMatches(id, ControlPayload(m), m.seqNo);
  }

  /** Encoding then decoding gives the message back exactly when it is a valid one. */
  lemma DecodeOfEncode(id: u32, m: ControlMsg)
    ensures var f := ControlFrame(id, m);
            ControlVerdict(id, f) == DECODE_OK && ControlFields(f) == m <==> ValidControl(m)
  {
    hide CrcMatches, Seal, ControlPayload, ControlFields, ControlVerdict, ControlFrame;
    VerdictOfFrame(id, m);
    FieldsOfFrame(id, m);
  }

  /** Every accepted frame carries a valid message and is, byte for byte, that message's encoding. */
  lemma EncodeOfDecode(id: u32, f: seq<bv8>)
    requires ControlVerdict(id, f) == DECODE_OK
    ensures ValidControl(ControlFields(f)) && ControlFrame(id, ControlFields(f)) == f
  {
    hide Val, CrcMatches, Seal, ControlPayload, ControlOf;
    MatchingFrameIsSealed(id, f);
    assert f[5] == f[..6][5];
    PayloadOfControl(f[..6], Val(f[6]));
    SeqOfControl(f[..6], Val(f[6]));
  }

  lemma SeqOfControl(p: seq<bv8>, seqNo: u8)
    requires |p| == 6
    ensures ControlOf(p, seqNo).seqNo == seqNo
  {}

  /** Accepted frames and valid messages correspond one to one. */
  lemma ControlCodecBijective(id: u32, f: seq<bv8>)
    ensures ControlVerdict(id, f) == DECODE_OK <==> exists m :: ValidControl(m) && ControlFrame(id, m) == f
    ensures forall m, m' | ValidControl(m) && ValidControl(m')
              && ControlFrame(id, m) == ControlFrame(id, m') :: m == m'
  {
    hide CrcMatches, ControlFields, ControlVerdict, ControlFrame;
    if ControlVerdict(id, f) == DECODE_OK {
      EncodeOfDecode(id, f);
    }
    forall m | ValidControl(m)
      ensures ControlVerdict(id, ControlFrame(id, m)) == DECODE_OK && ControlFields(ControlFrame(id, m)) == m
    {
      DecodeOfEncode(id, m);
    }
  }

  // --- telemetry -------------------------------------------------------------

  datatype Telemetry =
    | DriveL(encLeft: i32, steerFb: i16)
    | DriveR(encRight: i32, cmdAgeMs: u16)
    | Power(currentCa: i16, voltageCv: i16, faultStatus: u16)
    | State(mode: u8, jetsonLink: u8, c2Link: u8, controllerHealth: u8, indicatorState: u8, reserved: u8)

  predicate IsTelemetryId(id: u32) {
    id == CAN_ID_TELEM_DRIVE_L || id == CAN_ID_TELEM_DRIVE_R
    || id == CAN_ID_TELEM_POWER || id == CAN_ID_TELEM_STATE
  }

  /** The identifier each message travels under. */
  function IdOf(t: Telemetry): (id: u32)
    ensures IsTelemetryId(id)
  {
    match t
    case DriveL(_, _) => CAN_ID_TELEM_DRIVE_L
    case DriveR(_, _) => CAN_ID_TELEM_DRIVE_R
    case Power(_, _, _) => CAN_ID_TELEM_POWER
    case State(_, _, _, _, _, _) => CAN_ID_TELEM_STATE
  }

  function TelemetryPayload(t: Telemetry): (s: seq<bv8>)
    ensures |s| == 6
  {
    match t
    case DriveL(enc, steer) => PutI32(enc) + PutI16(steer)
    case DriveR(enc, age) => PutI32(enc) + PutU16(age)
    case Power(current, voltage, faults) => PutI16(current) + (PutI16(voltage) + PutU16(faults))
    case State(mode, jetson, c2, health, indicator, reserved) =>
      [Byte(mode), Byte(jetson), Byte(c2), Byte(health), Byte(indicator), Byte(reserved)]
  }

  function TelemetryFrame(t: Telemetry, seqNo: u8): (f: seq<bv8>)
    ensures |f| == FRAME_DLC
  {
    Seal(IdOf(t), TelemetryPayload(t), seqNo)
  }

  method EncodeTelemetry(t: Telemetry, seqNo: u8, buf: array<bv8>) returns (len: nat)
    requires buf.Length >= FRAME_DLC
    modifies buf
    ensures len == FRAME_DLC
    ensures buf[..FRAME_DLC] == TelemetryFrame(t, seqNo)
    ensures buf[FRAME_DLC..] == old(buf[FRAME_DLC..])
  {
    hide Seal, TelemetryPayload;
    var p := TelemetryPayload(t);
    buf[0], buf[1], buf[2], buf[3], buf[4], buf[5] := p[0], p[1], p[2], p[3], p[4], p[5];
    assert buf[..6] == p;
    len := SealFrame(IdOf(t), seqNo, buf);
  }

  /** What the decoder for `id` reads out of a six-byte payload. */
  function TelemetryOf(id: u32, p: seq<bv8>): (t: Telemetry)
    requires IsTelemetryId(id) && |p| == 6
    ensures IdOf(t) == id
  {
    if id == CAN_ID_TELEM_DRIVE_L then DriveL(GetI32(p[..4]), GetI16(p[4..]))
    else if id == CAN_ID_TELEM_DRIVE_R then DriveR(GetI32(p[..4]), GetU16(p[4..]))
    else if id == CAN_ID_TELEM_POWER then Power(GetI16(p[..2]), GetI16(p[2..4]), GetU16(p[4..]))
    else State(Val(p[0]), Val(p[1]), Val(p[2]), Val(p[3]), Val(p[4]), Val(p[5]))
  }

  function TelemetryFields(id: u32, f: seq<bv8>): (t: Telemetry)
    requires IsTelemetryId(id) && |f| == FRAME_DLC
    ensures IdOf(t) == id
  {
    TelemetryOf(id, f[..FRAME_SEQ_OFFSET])
  }

  function TelemetryVerdict(id: u32, f: seq<bv8>): DecodeResult {
    if |f| != FRAME_DLC then DECODE_BAD_DLC
    else if !CrcMatches(id, f) then DECODE_BAD_CRC
    else DECODE_OK
  }

  /** The four decoders: `kind` names the message, `id` is what the frame arrived under. */
  method DecodeTelemetry(kind: u32, id: u32, buf: array<bv8>, len: u8, prior: Telemetry, priorSeq: u8)
    returns (r: DecodeResult, out: Telemetry, seqOut: u8)
    requires IsTelemetryId(kind) && len <= buf.Length
    ensures r == TelemetryVerdict(id, buf[..len])
    ensures (out, seqOut) == if r == DECODE_OK then (TelemetryFields(kind, buf[..len]), Val(buf[FRAME_SEQ_OFFSET]))
                             else (prior, priorSeq)
  {
    hide CrcMatches, Val, GetI16, GetU16, GetI32;
    out := prior;
    r, seqOut := OpenFrame(id, buf, len, priorSeq);
    if r != DECODE_OK { return; }
    ghost var p := buf[..len][..FRAME_SEQ_OFFSET];
    assert p[..4] == buf[0..4] && p[4..] == buf[4..6] && p[..2] == buf[0..2] && p[2..4] == buf[2..4];
    if kind == CAN_ID_TELEM_DRIVE_L {
      out := DriveL(GetI32(buf[0..4]), GetI16(buf[4..6]));
    } else if kind == CAN_ID_TELEM_DRIVE_R {
      out := DriveR(GetI32(buf[0..4]), GetU16(buf[4..6]));
    } else if kind == CAN_ID_TELEM_POWER {
      out := Power(GetI16(buf[0..2]), GetI16(buf[2..4]), GetU16(buf[4..6]));
    } else {
      out := State(Val(buf[0]), Val(buf[1]), Val(buf[2]), Val(buf[3]), Val(buf[4]), Val(buf[5]));
    }
  }

  lemma TelemetryOfPayload(t: Telemetry)
    ensures TelemetryOf(IdOf(t), TelemetryPayload(t)) == t
  {
    hide Byte, Val, PutI16, PutU16, PutI32, TelemetryOf;
    match t {
      case DriveL(enc, steer) => DriveLOfPayload(enc, steer);
      case DriveR(enc, age) => DriveROfPayload(enc, age);
      case Power(current, voltage, faults) => PowerOfPayload(current, voltage, faults);
      case State(a, b, c, d, e, r) => StateOfPayload(a, b, c, d, e, r);
    }
  }

  lemma DriveLOfPayload(enc: i32, steer: i16)
    ensures TelemetryOf(CAN_ID_TELEM_DRIVE_L, PutI32(enc) + PutI16(steer)) == DriveL(enc, steer)
  {
    hide PutI16, GetI16, PutI32, GetI32;
    Halves(PutI32(enc), PutI16(steer));
    GetPutI32(enc);
    GetPutI16(steer);
  }

  lemma DriveROfPayload(enc: i32, age: u16)
    ensures TelemetryOf(CAN_ID_TELEM_DRIVE_R, PutI32(enc) + PutU16(age)) == DriveR(enc, age)
  {
    hide PutU16, GetU16, PutI32, GetI32;
    Halves(PutI32(enc), PutU16(age));
    GetPutI32(enc);
    GetPutU16(age);
  }

  lemma PowerOfPayload(current: i16, voltage: i16, faults: u16)
    ensures TelemetryOf(CAN_ID_TELEM_POWER, PutI16(current) + (PutI16(voltage) + PutU16(faults)))
         == Power(current, voltage, faults)
  {
    hide PutI16, GetI16, PutU16, GetU16;
    var p := PutI16(current) + (PutI16(voltage) + PutU16(faults));
    Halves(PutI16(current), PutI16(voltage) + PutU16(faults));
    Halves(PutI16(voltage), PutU16(faults));
    assert p[2..4] == p[2..][..2] && p[4..] == p[2..][2..];
    GetPutI16(current);
    GetPutI16(voltage);
    GetPutU16(faults);
  }

  lemma StateFields(p: seq<bv8>)
    requires |p| == 6
    ensures TelemetryOf(CAN_ID_TELEM_STATE, p)
         == State(Val(p[0]), Val(p[1]), Val(p[2]), Val(p[3]), Val(p[4]), Val(p[5]))
  {
    hide Val, GetI32, GetI16, GetU16;
  }

  lemma StateOfPayload(a: u8, b: u8, c: u8, d: u8, e: u8, r: u8)
    ensures TelemetryOf(CAN_ID_TELEM_STATE, [Byte(a), Byte(b), Byte(c), Byte(d), Byte(e), Byte(r)])
         == State(a, b, c, d, e, r)
  {
    hide Byte, Val, TelemetryOf, IdOf, IsTelemetryId;
    var p := [Byte(a), Byte(b), Byte(c), Byte(d), Byte(e), Byte(r)];
    StateFields(p);
    ValOfByte(a);
    ValOfByte(b);
    ValOfByte(c);
    ValOfByte(d);
    ValOfByte(e);
    ValOfByte(r);
  }

  lemma Halves(a: seq<bv8>, b: seq<bv8>)
    ensures (a + b)[..|a|] == a && (a + b)[|a|..] == b
  {}

  lemma PayloadOfTelemetry(id: u32, p: seq<bv8>)
    requires IsTelemetryId(id) && |p| == 6
    ensures TelemetryPayload(TelemetryOf(id, p)) == p
  {
    hide Byte, Val, PutI16, GetI16, PutU16, GetU16, PutI32, GetI32;
    if id == CAN_ID_TELEM_DRIVE_L {
      PutGetI32(p[..4]);
      PutGetI16(p[4..]);
    } else if id == CAN_ID_TELEM_DRIVE_R {
      PutGetI32(p[..4]);
      PutGetU16(p[4..]);
    } else if id == CAN_ID_TELEM_POWER {
      PutGetI16(p[..2]);
      PutGetI16(p[2..4]);
      PutGetU16(p[4..]);
      assert p == p[..2] + (p[2..4] + p[4..]);
    } else {
      ByteVal(p[0]);
      ByteVal(p[1]);
      ByteVal(p[2]);
      ByteVal(p[3]);
      ByteVal(p[4]);
      ByteVal(p[5]);
    }
  }

  /**
   * A frame opens under a telemetry identifier exactly when it is the encoding
   * of a message of that kind, and then decoding and encoding undo each other.
   */
  lemma TelemetryRoundTrip(id: u32, f: seq<bv8>, t: Telemetry, seqNo: u8)
    requires IsTelemetryId(id)
    ensures TelemetryVerdict(id, f) == DECODE_OK && TelemetryFields(id, f) == t && Val(f[FRAME_SEQ_OFFSET]) == seqNo
       <==> IdOf(t) == id && f == TelemetryFrame(t, seqNo)
  {
    hide Byte, Val, CrcMatches, Seal, TelemetryOf, TelemetryPayload;
    if IdOf(t) == id && f == TelemetryFrame(t, seqNo) {
      SealMatches(id, TelemetryPayload(t), seqNo);
      SealParts(id, TelemetryPayload(t), seqNo);
      TelemetryOfPayload(t);
      ValByte(seqNo);
    }
    if TelemetryVerdict(id, f) == DECODE_OK && TelemetryFields(id, f) == t && Val(f[FRAME_SEQ_OFFSET]) == seqNo {
      MatchingFrameIsSealed(id, f);
      PayloadOfTelemetry(id, f[..FRAME_SEQ_OFFSET]);
    }
  }

  /** No frame of one kind is accepted under another identifier in use. */
  lemma WrongIdRejected(t: Telemetry, seqNo: u8, m: ControlMsg, id: u32)
    requires InUse(id)
    ensures id != IdOf(t) ==> TelemetryVerdict(id, TelemetryFrame(t, seqNo)) == DECODE_BAD_CRC
    ensures id != IdOf(t) ==> ControlVerdict(id, TelemetryFrame(t, seqNo)) == DECODE_BAD_CRC
    ensures id != CAN_ID_CONTROL ==> TelemetryVerdict(id, ControlFrame(CAN_ID_CONTROL, m)) == DECODE_BAD_CRC
  {
    hide CrcMatches, Seal, ControlPayload, TelemetryPayload;
    SealMatches(IdOf(t), TelemetryPayload(t), seqNo);
    SealMatches(CAN_ID_CONTROL, ControlPayload(m), m.seqNo);
    if id != IdOf(t) {
      IdsInUseSeparated(IdOf(t), id, TelemetryFrame(t, seqNo));
    }
    if id != CAN_ID_CONTROL {
      IdsInUseSeparated(CAN_ID_CONTROL, id, ControlFrame(CAN_ID_CONTROL, m));
    }
  }

  /**
   * Corrupting any one or two bits of a sealed frame, or any bits within eight
   * consecutive ones, makes both kinds of decoder answer BAD_CRC.
   */
  lemma CorruptionRejected(id: u32, m: ControlMsg, t: Telemetry, seqNo: u8, sent: seq<bv8>, received: seq<bv8>,
                           i: nat, d: nat)
    requires sent == ControlFrame(id, m) || (id == IdOf(t) && sent == TelemetryFrame(t, seqNo))
    requires |received| == FRAME_DLC
    requires Gf2.IsBurst(Difference(sent, received)) || Gf2.IsPair(Difference(sent, received), i, d)
    ensures ControlVerdict(id, received) == DECODE_BAD_CRC && TelemetryVerdict(id, received) == DECODE_BAD_CRC
  {
    hide CrcMatches, Seal, ControlPayload, TelemetryPayload, Difference, Gf2.IsBurst, Gf2.IsPair, ControlFields;
    SealMatches(id, ControlPayload(m), m.seqNo);
    SealMatches(IdOf(t), TelemetryPayload(t), seqNo);
    FrameErrorDetection(id, sent, received, i, d);
  }

  // --- helpers ---------------------------------------------------------------

  /** How many frames elapsed from `previous` to `current`, modulo 256. */
  function SeqDelta(previous: u8, current: u8): u8 {
    (current - previous) % 256
  }

  /** A command age as the two-byte field can hold it. */
  function ClampCmdAgeMs(age: int): u16 {
    if age < 0 then 0 else if age >= CMD_AGE_MAX then CMD_AGE_MAX else age
  }

  // --- wrapped accumulators --------------------------------------------------

  /** The C++ remainder: it takes the sign of the dividend. */
  function TruncMod(a: int, m: int): int
    requires m > 0
  {
    if a >= 0 then a % m else -(-a % m)
  }

  /** An accumulator in int32 range; the 64-bit subtraction must not overflow. */
  function WrapI32(value: int): (r: i32)
    requires -0x8000_0000_0000_0000 <= value <= 0x7FFF_FFFF_FFFF_FFFF - TWO_31
    ensures Wrap32(r) == Wrap32(value)
  {
    var shifted := TruncMod(value + TWO_31, 0x1_0000_0000);
    WrapShifts(value, shifted);
    (if shifted < 0 then shifted + TWO_32 else shifted) - TWO_31
  }

  lemma WrapShifts(value: int, shifted: int)
    requires shifted == TruncMod(value + TWO_31, 0x1_0000_0000)
    ensures -TWO_32 < shifted < TWO_32
    ensures Wrap32((if shifted < 0 then shifted + TWO_32 else shifted) - TWO_31) == Wrap32(value)
  {
    hide Wrap32;
    var v := value + TWO_31;
    var k := if v >= 0 then v / 0x1_0000_0000 else -(-v / 0x1_0000_0000);
    assert v == shifted + 0x1_0000_0000 * k;
    WholeTurns(shifted - TWO_31, k);
    WholeTurns(shifted - TWO_31, 1);
  }

  /** No other int32 is congruent to the value. */
  lemma WrapUnique(r: i32, s: i32)
    requires Wrap32(r) == Wrap32(s)
    ensures r == s
  {}

  /** The difference of two wrapped readings, wrapped, is the true displacement exactly when that fits. */
  lemma WrapRecoversDisplacement(before: int, after: int, x: i32, y: i32)
    requires Wrap32(x) == Wrap32(before) && Wrap32(y) == Wrap32(after)
    ensures WrapI32(y - x) == after - before <==> -TWO_31 <= after - before < TWO_31
  {
    hide Wrap32, WrapI32;
    CongruentDifference(before, after, x, y);
    if -TWO_31 <= after - before < TWO_31 { WrapUnique(WrapI32(y - x), after - before); }
  }

  lemma CongruentDifference(a: int, b: int, x: int, y: int)
    requires Wrap32(x) == Wrap32(a) && Wrap32(y) == Wrap32(b)
    ensures Wrap32(y - x) == Wrap32(b - a)
  {}
}
