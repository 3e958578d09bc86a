/**
 * The wire format said in bytes and bits alone: where every field lies, in which
 * order a decoder objects, and which CRC-8 closes the frame.
 */
module Layout {
  import opened Words
  import opened Config
  import opened Gf2
  import opened Crc8
  import opened Frame
  import opened Protocol

  // --- the CRC ---------------------------------------------------------------

  /** The check value of CRC-8/SAE-J1850 over the digits one to nine. */
  lemma KnownAnswer()
    ensures CrcOver(0xFF, [0x31, 0x32, 0x33, 0x34, 0x35, 0x36, 0x37, 0x38, 0x39]) ^ 0xFF == 0x4B
  {
    hide Shift, Add, CrcOver, EightSteps;
    var d: seq<bv8> := [0x31, 0x32, 0x33, 0x34, 0x35, 0x36, 0x37, 0x38, 0x39];
    KnownSums();
    KnownSteps();
    CrcNothing(0xFF);
    OneMoreByte(0xFF, d, 0, 0xFF, 0xCE, 0x93);
    OneMoreByte(0xFF, d, 1, 0x93, 0xA1, 0xBC);
    OneMoreByte(0xFF, d, 2, 0xBC, 0x8F, 0x9D);
    OneMoreByte(0xFF, d, 3, 0x9D, 0xA9, 0x54);
    OneMoreByte(0xFF, d, 4, 0x54, 0x61, 0x89);
    OneMoreByte(0xFF, d, 5, 0x89, 0xBF, 0xD7);
    OneMoreByte(0xFF, d, 6, 0xD7, 0xE0, 0xB2);
    OneMoreByte(0xFF, d, 7, 0xB2, 0x8A, 0xF4);
    OneMoreByte(0xFF, d, 8, 0xF4, 0xCD, 0xB4);
    assert d[..9] == d && d[..0] == [];
  }

  lemma CrcNothing(c: bv8)
    ensures CrcOver(c, []) == c
  {}

  lemma OneMoreByte(start: bv8, d: seq<bv8>, n: nat, c: bv8, x: bv8, next: bv8)
    requires n < |d| && CrcOver(start, d[..n]) == c && Add(c, d[n]) == x && EightSteps(x) == next
    ensures CrcOver(start, d[..n + 1]) == next
  {
    hide Shift, Add, CrcOver, EightSteps;
    assert d[..n + 1] == d[..n] + [d[n]];
    CrcSnoc(start, d[..n], d[n]);
    ShiftByEight(x);
  }

  lemma KnownSums()
    ensures Add(0xFF, 0x31) == 0xCE && Add(0x93, 0x32) == 0xA1 && Add(0xBC, 0x33) == 0x8F && Add(0x9D, 0x34) == 0xA9
    ensures Add(0x54, 0x35) == 0x61 && Add(0x89, 0x36) == 0xBF && Add(0xD7, 0x37) == 0xE0 && Add(0xB2, 0x38) == 0x8A
    ensures Add(0xF4, 0x39) == 0xCD
  {}

  lemma KnownSteps()
    ensures EightSteps(0xCE) == 0x93 && EightSteps(0xA1) == 0xBC && EightSteps(0x8F) == 0x9D && EightSteps(0xA9) == 0x54
    ensures EightSteps(0x61) == 0x89 && EightSteps(0xBF) == 0xD7 && EightSteps(0xE0) == 0xB2 && EightSteps(0x8A) == 0xF4
    ensures EightSteps(0xCD) == 0xB4
  {}

  /** The frame CRC is that CRC over the identifier's four bytes, low byte first, and the payload. */
  lemma FrameCrcIsStandard(id: u32, idBytes: seq<bv8>, payload: seq<bv8>)
    requires |idBytes| == 4
    requires Val(idBytes[0]) + 0x100 * Val(idBytes[1]) + 0x1_0000 * Val(idBytes[2]) + 0x100_0000 * Val(idBytes[3]) == id
    ensures FrameCrc(id, payload) == CrcOver(0xFF, idBytes + payload) ^ 0xFF
  {
    hide CrcOver, PutU32, Val;
    PutGetU32(idBytes);
    CrcChains(0xFF, idBytes, payload);
  }

  // --- CONTROL ---------------------------------------------------------------

  /** Where an encoded CONTROL message keeps each of its fields. */
  lemma ControlLayout(m: ControlMsg)
    ensures var f := ControlFrame(0x100, m);
            && |f| == 8
            && Val(f[0]) + 0x100 * Val(f[1]) == m.driveCmd % 0x1_0000
            && Val(f[2]) + 0x100 * Val(f[3]) == m.steerCmd % 0x1_0000
            && Val(f[4]) == m.mode && Val(f[6]) == m.seqNo
            && f[7] == FrameCrc(0x100, f[..7])
    ensures var f := ControlFrame(0x100, m);
            && (f[5] & 0x01 != 0) == m.stop && (f[5] & 0x02 != 0) == m.autonomyAbort
            && (f[5] & 0x04 != 0) == m.returnRequest && (f[5] & 0x40 != 0) == m.c2Lost
            && f[5] & 0x80 == 0 && Val((f[5] & 0x38) >> 3) == m.indicatorRequest % 8
  {
    hide Byte, Val, FrameCrc, ControlPayload, PackFlags, FlagsIndicator;
    var p, x := ControlPayload(m), Byte(m.indicatorRequest);
    var f := ControlFrame(0x100, m);
    assert f[..6] == p && f[..7] == p + [Byte(m.seqNo)];
    ControlPayloadParts(m);
    assert p[0] == p[..2][0] && p[1] == p[..2][1] && p[2] == p[2..4][0] && p[3] == p[2..4][1];
    LowHigh(m.driveCmd % 0x1_0000);
    LowHigh(m.steerCmd % 0x1_0000);
    ValOfByte(m.mode);
    ValOfByte(m.seqNo);
    FlagsRoundTrip(m.stop, m.autonomyAbort, m.returnRequest, m.c2Lost, x);
    IndicatorBits(f[5]);
    ThreeBitsVal(x);
    ValOfByte(m.indicatorRequest);
  }

  lemma LowHigh(v: u16)
    ensures Val(PutU16(v)[0]) + 0x100 * Val(PutU16(v)[1]) == v
  {
    hide Byte, Val;
    ValByte(v);
    ValByte(v / 0x100);
  }

  lemma IndicatorBits(b: bv8)
    ensures FlagsIndicator(b) == (b & 0x38) >> 3
  {}

  /** What the decoder reads out of eight bytes. */
  lemma ControlOnBytes(f: seq<bv8>)
    requires |f| == 8
    ensures var m := ControlFields(f);
            && m.driveCmd == SignedField(Val(f[0]) + 0x100 * Val(f[1]))
            && m.steerCmd == SignedField(Val(f[2]) + 0x100 * Val(f[3]))
            && m.mode == Val(f[4]) && m.seqNo == Val(f[6])
            && m.stop == (f[5] & 0x01 != 0) && m.autonomyAbort == (f[5] & 0x02 != 0)
            && m.returnRequest == (f[5] & 0x04 != 0) && m.c2Lost == (f[5] & 0x40 != 0)
            && m.indicatorRequest == Val((f[5] & 0x38) >> 3)
  {
    hide Val;
    assert f[..6][..2] == f[..2] && f[..6][2..4] == f[2..4] && f[..6][5] == f[5];
  }

  /** Sixteen bits as a two's-complement number. */
  function SignedField(u: int): (v: int)
    requires 0 <= u < 0x1_0000
    ensures -0x8000 <= v < 0x8000 && (v == u || v == u - 0x1_0000)
  {
    if u < 0x8000 then u else u - 0x1_0000
  }

  /** A decoder's verdict on every byte string: the first objection, in this order. */
  lemma VerdictOnBytes(id: u32, f: seq<bv8>)
    ensures |f| != 8 ==> ControlVerdict(id, f) == DECODE_BAD_DLC
    ensures |f| == 8 ==>
              var drive, steer := Val(f[0]) + 0x100 * Val(f[1]), Val(f[2]) + 0x100 * Val(f[3]);
              ControlVerdict(id, f) ==
                if f[7] != FrameCrc(id, f[..7]) then DECODE_BAD_CRC
                else if Val(f[4]) > 2 then DECODE_BAD_MODE
                else if f[5] & 0x80 != 0 then DECODE_BAD_FLAGS
                else if Val((f[5] & 0x38) >> 3) > 4 then DECODE_BAD_INDICATOR
                else if 1000 < drive < 64536 || 1000 < steer < 64536 then DECODE_BAD_RANGE
                else DECODE_OK
  {
    hide Val, FrameCrc, ControlFields;
    if |f| == 8 { ControlOnBytes(f); }
  }

  // --- telemetry -------------------------------------------------------------

  /** The four telemetry identifiers. */
  lemma TelemetryIds(id: u32)
    ensures IsTelemetryId(id) <==> 0x200 <= id <= 0x203
  {}

  lemma TelemetryVerdictOnBytes(id: u32, f: seq<bv8>)
    ensures TelemetryVerdict(id, f)
         == if |f| != 8 then DECODE_BAD_DLC else if f[7] != FrameCrc(id, f[..7]) then DECODE_BAD_CRC else DECODE_OK
  {
    hide FrameCrc;
  }

  /** Where each telemetry message keeps its fields, and under which identifier it travels. */
  lemma TelemetryLayout(t: Telemetry, seqNo: u8)
    ensures var f := TelemetryFrame(t, seqNo);
            |f| == 8 && Val(f[6]) == seqNo && f[7] == FrameCrc(IdOf(t), f[..7])
    ensures t.DriveL? ==>
              var f := TelemetryFrame(t, seqNo);
              && IdOf(t) == 0x200 && FourBytes(f) == t.encLeft % 0x1_0000_0000
              && Val(f[4]) + 0x100 * Val(f[5]) == t.steerFb % 0x1_0000
    ensures t.DriveR? ==>
              var f := TelemetryFrame(t, seqNo);
              && IdOf(t) == 0x201 && FourBytes(f) == t.encRight % 0x1_0000_0000
              && Val(f[4]) + 0x100 * Val(f[5]) == t.cmdAgeMs
    ensures t.Power? ==>
              var f := TelemetryFrame(t, seqNo);
              && IdOf(t) == 0x202 && Val(f[0]) + 0x100 * Val(f[1]) == t.currentCa % 0x1_0000
              && Val(f[2]) + 0x100 * Val(f[3]) == t.voltageCv % 0x1_0000
              && Val(f[4]) + 0x100 * Val(f[5]) == t.faultStatus
    ensures t.State? ==>
              var f := TelemetryFrame(t, seqNo);
              && IdOf(t) == 0x203 && Val(f[0]) == t.mode && Val(f[1]) == t.jetsonLink && Val(f[2]) == t.c2Link
              && Val(f[3]) == t.controllerHealth && Val(f[4]) == t.indicatorState && Val(f[5]) == t.reserved
  {
    hide Byte, Val, FrameCrc, TelemetryPayload, PutI16, PutU16, PutI32;
    var p, f := TelemetryPayload(t), TelemetryFrame(t, seqNo);
    assert f[..6] == p && f[..7] == p + [Byte(seqNo)];
    assert forall i | 0 <= i < 6 :: f[i] == p[i];
    ValOfByte(seqNo);
    match t {
      case DriveL(enc, steer) => DriveLLayout(enc, steer);
      case DriveR(enc, age) => DriveRLayout(enc, age);
      case Power(current, voltage, faults) => PowerLayout(current, voltage, faults);
      case State(a, b, c, d, e, r) => StateLayout(a, b, c, d, e, r);
    }
  }

  /** The first four bytes as a number, low byte first. */
  function FourBytes(f: seq<bv8>): int
    requires |f| >= 4
  {
    Val(f[0]) + 0x100 * Val(f[1]) + 0x1_0000 * Val(f[2]) + 0x100_0000 * Val(f[3])
  }

  lemma FourBytesOf(v: i32, rest: seq<bv8>)
    ensures FourBytes(PutI32(v) + rest) == v % 0x1_0000_0000
  {
    hide PutU32, Val;
    GetPutU32(Wrap32(v));
  }

  lemma DriveLLayout(enc: i32, steer: i16)
    ensures var p := TelemetryPayload(DriveL(enc, steer));
            FourBytes(p) == enc % 0x1_0000_0000 && Val(p[4]) + 0x100 * Val(p[5]) == steer % 0x1_0000
  {
    hide Val, PutU16, PutI32;
    FourBytesOf(enc, PutI16(steer));
    LowHigh(steer % 0x1_0000);
  }

  lemma DriveRLayout(enc: i32, age: u16)
    ensures var p := TelemetryPayload(DriveR(enc, age));
            FourBytes(p) == enc % 0x1_0000_0000 && Val(p[4]) + 0x100 * Val(p[5]) == age
  {
    hide Val, PutU16, PutI32;
    FourBytesOf(enc, PutU16(age));
    LowHigh(age);
  }

  lemma PowerLayout(current: i16, voltage: i16, faults: u16)
    ensures var p := TelemetryPayload(Power(current, voltage, faults));
            && Val(p[0]) + 0x100 * Val(p[1]) == current % 0x1_0000
            && Val(p[2]) + 0x100 * Val(p[3]) == voltage % 0x1_0000
            && Val(p[4]) + 0x100 * Val(p[5]) == faults
  {
    hide Val, PutU16;
    LowHigh(current % 0x1_0000);
    LowHigh(voltage % 0x1_0000);
    LowHigh(faults);
  }

  lemma StateLayout(a: u8, b: u8, c: u8, d: u8, e: u8, r: u8)
    ensures var p := TelemetryPayload(State(a, b, c, d, e, r));
            && Val(p[0]) == a && Val(p[1]) == b && Val(p[2]) == c
            && Val(p[3]) == d && Val(p[4]) == e && Val(p[5]) == r
  {
    hide Val, Byte;
    ValOfByte(a);
    ValOfByte(b);
    ValOfByte(c);
    ValOfByte(d);
    ValOfByte(e);
    ValOfByte(r);
  }
}
