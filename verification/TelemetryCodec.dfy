/** Telemetry messages as frames with a fixed nineteen-byte payload. */
module TelemetryCodec {
  import opened Wrappers
  import opened Bytes
  import opened FrameCodec
  import FlightMode
  import T = Telemetry

  const TELEMETRY_PAYLOAD_SIZE: nat := 19

  datatype EncodeFailure = InvalidMode | UnknownFaultBits | FrameEncodeFailure(error: EncodeError)

  datatype DecodeFailure =
    | FrameDecodeFailure(error: DecodeError)
    | IncorrectPayloadLength
    | InvalidModeByte
    | UnknownFaultBitsRead

  function ModeToByte(m: FlightMode.Mode): Option<byte> {
    match m
    case Boot => Some(0)
    case Safe => Some(1)
    case Nominal => Some(2)
    case UnknownMode => None
  }

  function ByteToMode(b: byte): Option<FlightMode.Mode> {
    if b == 0 then Some(FlightMode.Boot)
    else if b == 1 then Some(FlightMode.Safe)
    else if b == 2 then Some(FlightMode.Nominal)
    else None
  }

  /** No bit above the three known ones is set. */
  predicate OnlyKnownFaults(mask: u32) { mask / 8 == 0 }

  /** Two's complement: the cast of a signed sixteen-bit value to unsigned, and its reading back. */
  function TemperatureToWord(t: i16): u16 { if t < 0 then t + 0x1_0000 else t }

  function WordToTemperature(w: u16): i16 { if w <= 0x7FFF then w else w - 0x1_0000 }

  function PayloadOf(m: T.Message, modeByte: byte): (p: bytes)
    ensures |p| == TELEMETRY_PAYLOAD_SIZE
  {
    var r := m.snapshot.readings;
    LittleEndian(m.snapshot.uptimeMs, 8) + [modeByte] + LittleEndian(r.batteryMv, 2)
    + LittleEndian(TemperatureToWord(r.boardTemperatureCentiC), 2) + LittleEndian(r.solarCurrentMa, 2)
    + LittleEndian(m.latchedFaultMask, 4)
  }

  function TelemetryFrame(m: T.Message, modeByte: byte): Frame {
    Frame(PROTOCOL_VERSION, Telemetry, TELEMETRY_PAYLOAD_SIZE, m.snapshot.sequence,
          PayloadOf(m, modeByte) + Zeros(MAXIMUM_PAYLOAD_SIZE - TELEMETRY_PAYLOAD_SIZE))
  }

  function EncodedTelemetry(m: T.Message): Result<bytes, EncodeFailure> {
    var modeByte := ModeToByte(m.snapshot.flightMode);
    if modeByte.None? then Failure(InvalidMode)
    else if !OnlyKnownFaults(m.latchedFaultMask) then Failure(UnknownFaultBits)
    else match Encoded(TelemetryFrame(m, modeByte.value))
      case Success(b) => Success(b)
      case Failure(e) => Failure(FrameEncodeFailure(e))
  }

  /** The message in a frame whose payload has the right length; the frame's type is not looked at. */
  function MessageIn(f: Frame): Result<T.Message, DecodeFailure> {
    var mode := ByteToMode(f.payload[8]);
    var mask := ValueU32(f.payload[15..19]);
    if mode.None? then Failure(InvalidModeByte)
    else if !OnlyKnownFaults(mask) then Failure(UnknownFaultBitsRead)
    else
      var readings := T.SensorReadings(Word(f.payload, 9), WordToTemperature(Word(f.payload, 11)), Word(f.payload, 13));
      Success(T.Message(T.Snapshot(f.sequence, ValueU64(f.payload[0..8]), mode.value, readings), mask))
  }

  function DecodedTelemetry(b: bytes): Result<T.Message, DecodeFailure> {
    match Decoded(b)
    case Failure(e) => Failure(FrameDecodeFailure(e))
    case Success(f) =>
      if f.payloadLength != TELEMETRY_PAYLOAD_SIZE then Failure(IncorrectPayloadLength) else MessageIn(f)
  }

  method EncodeTelemetry(m: T.Message) returns (r: Result<bytes, EncodeFailure>)
    ensures r == EncodedTelemetry(m)
  {
    hide Encoded;
    var modeByte := ModeToByte(m.snapshot.flightMode);
    if modeByte.None? {
      return Failure(InvalidMode);
    }
    if !OnlyKnownFaults(m.latchedFaultMask) {
      return Failure(UnknownFaultBits);
    }
    var payload := new byte[MAXIMUM_PAYLOAD_SIZE](_ => 0);
    WritePayload(payload, m, modeByte.value);
    var encoded := Encode(Frame(PROTOCOL_VERSION, Telemetry, TELEMETRY_PAYLOAD_SIZE, m.snapshot.sequence, payload[..]));
    match encoded
    case Success(b) => return Success(b);
    case Failure(e) => return Failure(FrameEncodeFailure(e));
  }

  method WritePayload(payload: array<byte>, m: T.Message, modeByte: byte)
    requires payload.Length == MAXIMUM_PAYLOAD_SIZE && payload[..] == Zeros(MAXIMUM_PAYLOAD_SIZE)
    modifies payload
    ensures payload[..] == PayloadOf(m, modeByte) + Zeros(MAXIMUM_PAYLOAD_SIZE - TELEMETRY_PAYLOAD_SIZE)
  {
    hide LittleEndian, ByteOf;
    var r := m.snapshot.readings;
    WriteLittleEndian(payload, 0, m.snapshot.uptimeMs, 8);
    payload[8] := modeByte;
    ghost var p := LittleEndian(m.snapshot.uptimeMs, 8) + [modeByte];
    assert payload[..] == p + Zeros(55);
    WriteLittleEndian(payload, 9, r.batteryMv, 2);
    p := p + LittleEndian(r.batteryMv, 2);
    assert payload[..] == p + Zeros(53);
    WriteLittleEndian(payload, 11, TemperatureToWord(r.boardTemperatureCentiC), 2);
    p := p + LittleEndian(TemperatureToWord(r.boardTemperatureCentiC), 2);
    assert payload[..] == p + Zeros(51);
    WriteLittleEndian(payload, 13, r.solarCurrentMa, 2);
    p := p + LittleEndian(r.solarCurrentMa, 2);
    assert payload[..] == p + Zeros(49);
    WriteLittleEndian(payload, 15, m.latchedFaultMask, 4);
    p := p + LittleEndian(m.latchedFaultMask, 4);
    assert payload[..] == p + Zeros(45);
  }

  method DecodeTelemetry(b: bytes) returns (r: Result<T.Message, DecodeFailure>)
    ensures r == DecodedTelemetry(b)
  {
    hide Decoded, Value;
    var decoded := Decode(b);
    if decoded.Failure? {
      return Failure(FrameDecodeFailure(decoded.error));
    }
    var f := decoded.value;
    if f.payloadLength != TELEMETRY_PAYLOAD_SIZE {
      return Failure(IncorrectPayloadLength);
    }
    var mode := ByteToMode(f.payload[8]);
    if mode.None? {
      return Failure(InvalidModeByte);
    }
    var mask := ReadLittleEndian(f.payload, 15, 4);
    assert mask == ValueU32(f.payload[15..19]);
    if !OnlyKnownFaults(mask) {
      return Failure(UnknownFaultBitsRead);
    }
    var uptimeMs := ReadLittleEndian(f.payload, 0, 8);
    assert uptimeMs == ValueU64(f.payload[0..8]);
    var readings := T.SensorReadings(Word(f.payload, 9), WordToTemperature(Word(f.payload, 11)), Word(f.payload, 13));
    return Success(T.Message(T.Snapshot(f.sequence, uptimeMs, mode.value, readings), mask));
  }

  // ----- Round trips

  lemma ModeByteInverse(m: FlightMode.Mode, b: byte)
    ensures ModeToByte(m) == Some(b) <==> ByteToMode(b) == Some(m)
  {}

  lemma TemperatureInverse(t: i16, w: u16)
    ensures TemperatureToWord(t) == w <==> WordToTemperature(w) == t
  {}

  /** Where each field of the payload lies. */
  lemma PayloadLayout(m: T.Message, modeByte: byte, p: Payload)
    requires PayloadOf(m, modeByte) <= p
    ensures p[0..8] == LittleEndian(m.snapshot.uptimeMs, 8) && p[8] == modeByte
    ensures p[9..11] == LittleEndian(m.snapshot.readings.batteryMv, 2)
    ensures p[11..13] == LittleEndian(TemperatureToWord(m.snapshot.readings.boardTemperatureCentiC), 2)
    ensures p[13..15] == LittleEndian(m.snapshot.readings.solarCurrentMa, 2)
    ensures p[15..19] == LittleEndian(m.latchedFaultMask, 4)
  {
    hide LittleEndian, ByteOf;
    var q := PayloadOf(m, modeByte);
    assert p[0..8] == q[0..8] && p[9..11] == q[9..11] && p[11..13] == q[11..13];
    assert p[13..15] == q[13..15] && p[15..19] == q[15..19];
  }

  lemma MessageInTelemetryFrame(m: T.Message, modeByte: byte)
    requires ModeToByte(m.snapshot.flightMode) == Some(modeByte) && OnlyKnownFaults(m.latchedFaultMask)
    ensures MessageIn(TelemetryFrame(m, modeByte)) == Success(m)
  {
    hide LittleEndian, ByteOf, Value, PayloadOf;
    var p := TelemetryFrame(m, modeByte).payload;
    var r := m.snapshot.readings;
    PayloadLayout(m, modeByte, p);
    ModeByteInverse(m.snapshot.flightMode, modeByte);
    StoredWord(p, 9, r.batteryMv);
    StoredWord(p, 11, TemperatureToWord(r.boardTemperatureCentiC));
    StoredWord(p, 13, r.solarCurrentMa);
    Pow256Widths();
    StoreThenLoad(m.snapshot.uptimeMs, 8);
    StoreThenLoad(m.latchedFaultMask, 4);
  }

  lemma EncodeTelemetryThenDecode(m: T.Message)
    requires EncodedTelemetry(m).Success?
    ensures DecodedTelemetry(EncodedTelemetry(m).value) == Success(m)
  {
    var f := TelemetryFrame(m, ModeToByte(m.snapshot.flightMode).value);
    hide Encoded, Decoded, PayloadOf;
    EncodeThenDecode(f);
    assert Normalized(f) == f;
    MessageInTelemetryFrame(m, ModeToByte(m.snapshot.flightMode).value);
  }

  /** Encoding fails only for a mode outside the enumeration or an unknown fault bit. */
  lemma EncodeTelemetrySucceedsWhen(m: T.Message)
    ensures EncodedTelemetry(m).Success? <==>
      m.snapshot.flightMode != FlightMode.UnknownMode && OnlyKnownFaults(m.latchedFaultMask)
  {
    hide Encoded, PayloadOf;
    if ModeToByte(m.snapshot.flightMode).Some? {
      EncodeSucceedsWhen(TelemetryFrame(m, ModeToByte(m.snapshot.flightMode).value));
    }
  }

  lemma PayloadOfMessageIn(f: Frame)
    requires MessageIn(f).Success?
    ensures var m := MessageIn(f).value;
      ModeToByte(m.snapshot.flightMode) == Some(f.payload[8]) && PayloadOf(m, f.payload[8]) == f.payload[..19]
  {
    hide LittleEndian, Value;
    var m, p := MessageIn(f).value, f.payload;
    ModeByteInverse(m.snapshot.flightMode, p[8]);
    LoadedWord(p, 9);
    LoadedWord(p, 11);
    LoadedWord(p, 13);
    TemperatureInverse(m.snapshot.readings.boardTemperatureCentiC, Word(p, 11));
    LoadThenStore(p[0..8]);
    LoadThenStore(p[15..19]);
    assert p[..19] == p[0..8] + [p[8]] + p[9..11] + p[11..13] + p[13..15] + p[15..19];
  }

  /** What the decoder accepts is encoded back byte for byte, exactly when its type byte says telemetry. */
  lemma DecodeTelemetryThenEncode(b: bytes)
    requires DecodedTelemetry(b).Success?
    ensures EncodedTelemetry(DecodedTelemetry(b).value) == Success(b) <==> b[3] == 0x01
  {
    var f := Decoded(b).value;
    var m := MessageIn(f).value;
    PayloadOfMessageIn(f);
    var g := TelemetryFrame(m, f.payload[8]);
    assert f.payload == f.payload[..19] + Zeros(45);
    assert g == f.(messageType := Telemetry) by {
      hide LittleEndian;
    }
    DecodeThenEncode(b);
    EncodeSucceedsWhen(g);
    EncodedLayout(g);
    TypeByteInverse(f.messageType, b[3]);
  }

  lemma TypeByteOf(f: Frame)
    requires Encoded(f).Success?
    ensures |Encoded(f).value| > 3 && (Encoded(f).value[3] == 0x01 <==> f.messageType == Telemetry)
  {
    EncodedLayout(f);
  }

  lemma OtherTypeDecodes(m: T.Message, modeByte: byte, f: Frame)
    requires ModeToByte(m.snapshot.flightMode) == Some(modeByte) && OnlyKnownFaults(m.latchedFaultMask)
    requires f == TelemetryFrame(m, modeByte).(messageType := f.messageType) && f.messageType != UnknownType
    ensures Encoded(f).Success? && DecodedTelemetry(Encoded(f).value) == Success(m)
  {
    hide Encoded, Decoded, PayloadOf, ModeToByte, OnlyKnownFaults;
    EncodeSucceedsWhen(f);
    EncodeThenDecode(f);
    assert Normalized(f) == f;
    MessageInTelemetryFrame(m, modeByte);
  }

  /** The other side of that: any encodable message in a frame of any other known type is read just the same. */
  lemma OtherTypesAreRead(m: T.Message, t: MessageType)
    requires EncodedTelemetry(m).Success? && t != UnknownType
    ensures var f := TelemetryFrame(m, ModeToByte(m.snapshot.flightMode).value).(messageType := t);
      && Encoded(f).Success?
      && DecodedTelemetry(Encoded(f).value) == Success(m)
      && (EncodedTelemetry(m) == Success(Encoded(f).value) <==> t == Telemetry)
  {
    EncodeTelemetrySucceedsWhen(m);
    var modeByte := ModeToByte(m.snapshot.flightMode).value;
    var f := TelemetryFrame(m, modeByte).(messageType := t);
    hide Encoded, TelemetryFrame, EncodedTelemetry, DecodedTelemetry, ModeToByte, OnlyKnownFaults;
    OtherTypeDecodes(m, modeByte, f);
    TypeByteOf(f);
    DecodeTelemetryThenEncode(Encoded(f).value);
  }
}
