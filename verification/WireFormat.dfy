/** Every message on the wire, byte for byte, and why a message cannot be sent or is not understood. */
module WireFormat {
  import opened Wrappers
  import opened Bytes
  import opened FrameCodec
  import opened FrameDiagnosis
  import Crc
  import FlightMode
  import T = Telemetry
  import TelemetryCodec
  import CommandCodec

  /** The number stored in these bytes, least significant first. */
  function Two(b: bytes, at: nat): nat
    requires at + 2 <= |b|
  {
    b[at] as int + 256 * (b[at + 1] as int)
  }

  function Four(b: bytes, at: nat): nat
    requires at + 4 <= |b|
  {
    Two(b, at) + 0x1_0000 * Two(b, at + 2)
  }

  function Eight(b: bytes, at: nat): nat
    requires at + 8 <= |b|
  {
    Four(b, at) + 0x1_0000_0000 * Four(b, at + 4)
  }

  lemma ValueOfTwo(b: bytes, at: nat)
    requires at + 2 <= |b|
    ensures Value(b[at..at + 2]) == Two(b, at)
  {
    WordIsValue(b, at);
  }

  lemma {:induction false} ValueConcat(a: bytes, b: bytes)
    ensures Value(a + b) == Value(a) + Pow256(|a|) * Value(b)
    decreases |b|
  {
    if |b| == 0 {
      assert a + b == a;
    } else {
      var x := b[|b| - 1];
      var front := b[..|b| - 1];
      assert b == front + [x] && a + b == (a + front) + [x];
      ValueAppend(a + front, x);
      ValueAppend(front, x);
      ValueConcat(a, front);
      PowersMultiply(|a|, |front|);
      Distributes(Pow256(|a|), Value(front), x as int, Pow256(|front|));
    }
  }

  lemma {:induction false} PowersMultiply(m: nat, n: nat)
    ensures Pow256(m + n) == Pow256(m) * Pow256(n)
  {
    if m > 0 {
      PowersMultiply(m - 1, n);
      Associates(Pow256(m - 1), Pow256(n));
    }
  }

  lemma Associates(p: int, q: int)
    ensures 256 * (p * q) == (256 * p) * q
  {}

  lemma Distributes(p: int, v: int, x: int, q: int)
    ensures p * (v + x * q) == p * v + x * (p * q)
  {}

  lemma ValueOfFour(b: bytes, at: nat)
    requires at + 4 <= |b|
    ensures Value(b[at..at + 4]) == Four(b, at)
  {
    hide Value;
    ValueOfTwo(b, at);
    ValueOfTwo(b, at + 2);
    ValueConcat(b[at..at + 2], b[at + 2..at + 4]);
    Pow256Widths();
    assert b[at..at + 4] == b[at..at + 2] + b[at + 2..at + 4];
  }

  lemma ValueOfEight(b: bytes, at: nat)
    requires at + 8 <= |b|
    ensures Value(b[at..at + 8]) == Eight(b, at)
  {
    hide Value, Four;
    ValueOfFour(b, at);
    ValueOfFour(b, at + 4);
    ValueConcat(b[at..at + 4], b[at + 4..at + 8]);
    Pow256Widths();
    assert b[at..at + 8] == b[at..at + 4] + b[at + 4..at + 8];
  }

  lemma StoredTwo(b: bytes, at: nat, v: u16)
    requires at + 2 <= |b| && b[at..at + 2] == LittleEndian(v, 2)
    ensures Two(b, at) == v
  {
    StoredWord(b, at, v);
  }

  lemma StoredFour(b: bytes, at: nat, v: u32)
    requires at + 4 <= |b| && b[at..at + 4] == LittleEndian(v, 4)
    ensures Four(b, at) == v
  {
    hide Value, LittleEndian;
    ValueOfFour(b, at);
    Pow256Widths();
    StoreThenLoad(v, 4);
  }

  lemma StoredEight(b: bytes, at: nat, v: u64)
    requires at + 8 <= |b| && b[at..at + 8] == LittleEndian(v, 8)
    ensures Eight(b, at) == v
  {
    hide Value, LittleEndian;
    ValueOfEight(b, at);
    Pow256Widths();
    StoreThenLoad(v, 8);
  }

  // ----- Frames

  /** The frame around any payload. */
  lemma FrameWire(f: Frame)
    requires Encoded(f).Success?
    ensures var e, n := Encoded(f).value, f.payloadLength;
      && |e| == 12 + n
      && e[0] == 0xA5 && e[1] == 0x5A && e[2] == 1
      && (f.messageType == Telemetry ==> e[3] == 0x01)
      && (f.messageType == Command ==> e[3] == 0x10)
      && (f.messageType == CommandAck ==> e[3] == 0x11)
      && Two(e, 4) == n
      && Four(e, 6) == f.sequence
      && e[10..10 + n] == f.payload[..n]
      && Two(e, 10 + n) == Crc.Crc16(e[2..10 + n]) as int
  {
    hide LittleEndian, Encoded, Crc.Crc16;
    EncodeSucceedsWhen(f);
    EncodedLayout(f);
    var e, n := Encoded(f).value, f.payloadLength;
    assert e[0] == e[..2][0] && e[1] == e[..2][1];
    StoredTwo(e, 4, n);
    StoredFour(e, 6, f.sequence);
    StoredTwo(e, 10 + n, CrcWord(e[2..10 + n]));
  }

  // ----- Telemetry

  function ModeByte(mode: FlightMode.Mode): byte {
    if mode == FlightMode.Nominal then 2 else if mode == FlightMode.Safe then 1 else 0
  }

  lemma ModeByteIs(mode: FlightMode.Mode)
    ensures TelemetryCodec.ModeToByte(mode) == if mode == FlightMode.UnknownMode then None else Some(ModeByte(mode))
  {}

  lemma PayloadAt(e: bytes, p: bytes, from: nat, to: nat, start: nat, end: nat)
    requires 10 + |p| <= |e| && e[10..10 + |p|] == p && from <= to <= |p|
    requires start == 10 + from && end == 10 + to
    ensures e[start..end] == p[from..to]
  {
    var q := e[10..10 + |p|];
    assert forall k :: from <= k < to ==> e[10 + k] == q[k];
  }

  /** All 31 bytes of a telemetry message. The temperature is stored modulo 2^16. */
  predicate TelemetryBytes(m: T.Message, e: bytes) {
    var r := m.snapshot.readings;
    && |e| == 31
    && e[0] == 0xA5 && e[1] == 0x5A && e[2] == 1 && e[3] == 0x01
    && Two(e, 4) == 19
    && Four(e, 6) == m.snapshot.sequence
    && Eight(e, 10) == m.snapshot.uptimeMs
    && e[18] == ModeByte(m.snapshot.flightMode)
    && Two(e, 19) == r.batteryMv
    && (Two(e, 21) - r.boardTemperatureCentiC) % 0x1_0000 == 0
    && Two(e, 23) == r.solarCurrentMa
    && Four(e, 25) == m.latchedFaultMask
    && CarriesItsCrc(e)
  }

  /** A telemetry message is sent as exactly these bytes. */
  lemma TelemetryWire(m: T.Message)
    requires TelemetryCodec.EncodedTelemetry(m).Success?
    ensures TelemetryBytes(m, TelemetryCodec.EncodedTelemetry(m).value)
  {
    SentInFrame(m);
    hide Encoded, TelemetryCodec.EncodedTelemetry, TelemetryCodec.TelemetryFrame, TelemetryCodec.ModeToByte;
    hide TelemetryBytes;
    ModeByteIs(m.snapshot.flightMode);
    TelemetryFrameWire(m, ModeByte(m.snapshot.flightMode), TelemetryCodec.EncodedTelemetry(m).value);
  }

  lemma SentInFrame(m: T.Message)
    requires TelemetryCodec.EncodedTelemetry(m).Success?
    ensures var mode := TelemetryCodec.ModeToByte(m.snapshot.flightMode);
      && mode.Some?
      && Encoded(TelemetryCodec.TelemetryFrame(m, mode.value)) == Success(TelemetryCodec.EncodedTelemetry(m).value)
  {
    hide Encoded, TelemetryCodec.TelemetryFrame;
  }

  lemma PayloadOfFrame(m: T.Message, mode: byte)
    ensures var f := TelemetryCodec.TelemetryFrame(m, mode);
      && f.messageType == Telemetry && f.payloadLength == 19 && f.sequence == m.snapshot.sequence
      && TelemetryCodec.PayloadOf(m, mode) <= f.payload
  {}

  lemma FrameCarriesItsCrc(e: bytes)
    requires |e| >= 12 && Two(e, |e| - 2) == Crc.Crc16(e[2..|e| - 2]) as int
    ensures CarriesItsCrc(e)
  {
    hide Crc.Crc16;
  }

  lemma TelemetryFrameWire(m: T.Message, mode: byte, e: bytes)
    requires Encoded(TelemetryCodec.TelemetryFrame(m, mode)) == Success(e)
    ensures mode == ModeByte(m.snapshot.flightMode) ==> TelemetryBytes(m, e)
  {
    hide Encoded, LittleEndian, Crc.Crc16, TelemetryCodec.PayloadOf, TelemetryCodec.TelemetryFrame, Two, Four, Eight;
    var f := TelemetryCodec.TelemetryFrame(m, mode);
    PayloadOfFrame(m, mode);
    FrameWire(f);
    TelemetryFields(m, mode, f.payload, e);
    FrameCarriesItsCrc(e);
  }

  lemma Part(p: Payload, from: nat, to: nat)
    requires from <= to <= 19
    ensures p[..19][from..to] == p[from..to]
  {}

  lemma TelemetryFields(m: T.Message, mode: byte, payload: Payload, e: bytes)
    requires |e| == 31 && TelemetryCodec.PayloadOf(m, mode) <= payload && e[10..29] == payload[..19]
    ensures var s := m.snapshot;
      && Eight(e, 10) == s.uptimeMs
      && e[18] == mode
      && Two(e, 19) == s.readings.batteryMv
      && (Two(e, 21) - s.readings.boardTemperatureCentiC) % 0x1_0000 == 0
      && Two(e, 23) == s.readings.solarCurrentMa
      && Four(e, 25) == m.latchedFaultMask
  {
    hide LittleEndian, TelemetryCodec.PayloadOf, Two, Four, Eight;
    var r, p := m.snapshot.readings, payload[..19];
    TelemetryCodec.PayloadLayout(m, mode, payload);
    Part(payload, 0, 8);
    Part(payload, 9, 11);
    Part(payload, 11, 13);
    Part(payload, 13, 15);
    Part(payload, 15, 19);
    PayloadAt(e, p, 0, 8, 10, 18);
    PayloadAt(e, p, 8, 9, 18, 19);
    PayloadAt(e, p, 9, 11, 19, 21);
    PayloadAt(e, p, 11, 13, 21, 23);
    PayloadAt(e, p, 13, 15, 23, 25);
    PayloadAt(e, p, 15, 19, 25, 29);
    assert e[18] == e[18..19][0] == p[8..9][0];
    StoredEight(e, 10, m.snapshot.uptimeMs);
    StoredTwo(e, 19, r.batteryMv);
    StoredTwo(e, 21, TelemetryCodec.TemperatureToWord(r.boardTemperatureCentiC));
    StoredTwo(e, 23, r.solarCurrentMa);
    StoredFour(e, 25, m.latchedFaultMask);
  }

  /** Only a mode or a fault bit nobody knows keeps a message from being sent, the mode first. */
  lemma TelemetryEncodeFailsExactlyWhen(m: T.Message)
    ensures TelemetryCodec.EncodedTelemetry(m) == Failure(TelemetryCodec.InvalidMode) <==>
      m.snapshot.flightMode == FlightMode.UnknownMode
    ensures TelemetryCodec.EncodedTelemetry(m) == Failure(TelemetryCodec.UnknownFaultBits) <==>
      m.snapshot.flightMode != FlightMode.UnknownMode && m.latchedFaultMask >= 8
    ensures TelemetryCodec.EncodedTelemetry(m).Success? <==>
      m.snapshot.flightMode != FlightMode.UnknownMode && m.latchedFaultMask < 8
  {
    hide Encoded;
    TelemetryCodec.EncodeTelemetrySucceedsWhen(m);
  }

  /** Each reason for not understanding a telemetry frame, exactly when it is given. */
  lemma TelemetryDecodeFailsExactlyWhen(b: bytes)
    ensures var r := TelemetryCodec.DecodedTelemetry(b);
      && (!IsFrame(b) ==> r == Failure(TelemetryCodec.FrameDecodeFailure(Decoded(b).error)))
      && (IsFrame(b) ==>
            && |b| >= 12
            && (r == Failure(TelemetryCodec.IncorrectPayloadLength) <==> |b| != 31)
            && (r == Failure(TelemetryCodec.InvalidModeByte) <==> |b| == 31 && b[18] > 2)
            && (r == Failure(TelemetryCodec.UnknownFaultBitsRead) <==> |b| == 31 && b[18] <= 2 && Four(b, 25) >= 8)
            && (r.Success? <==> |b| == 31 && b[18] <= 2 && Four(b, 25) < 8))
  {
    DecodeFailsExactlyWhen(b);
    if IsFrame(b) && |b| == 31 {
      DecodedFields(b);
    } else if IsFrame(b) {
      DecodedLength(b);
    }
    hide Decoded, ValueU32, Four, CarriesItsCrc;
  }

  lemma DecodedLength(b: bytes)
    requires IsFrame(b)
    ensures |b| == 12 + Decoded(b).value.payloadLength
  {
    hide Value, CrcMatches;
  }

  /** Where the decoder finds mode and fault mask. */
  lemma DecodedFields(b: bytes)
    requires IsFrame(b) && |b| == 31
    ensures var f := Decoded(b).value;
      f.payloadLength == 19 && f.payload[8] == b[18] && ValueU32(f.payload[15..19]) == Four(b, 25)
  {
    hide Value, CrcMatches, Four;
    var f := Decoded(b).value;
    assert f.payload[15..19] == b[25..29];
    ValueOfFour(b, 25);
  }

  // ----- Commands and acknowledgements

  function CommandByte(c: CommandCodec.CommandId): byte {
    if c == CommandCodec.Ping then 1 else if c == CommandCodec.EnterSafeMode then 2 else 3
  }

  function StatusByte(s: CommandCodec.AckStatus): byte {
    if s == CommandCodec.AckAccepted then 0
    else if s == CommandCodec.InvalidCommand then 1
    else if s == CommandCodec.InvalidArgument then 2
    else 3
  }

  /** All bytes of a command: seventeen if it sets the telemetry period, thirteen otherwise. */
  predicate CommandBytes(c: CommandCodec.CommandMessage, e: bytes) {
    && |e| == (if c.command == CommandCodec.SetTelemetryPeriod then 17 else 13)
    && e[0] == 0xA5 && e[1] == 0x5A && e[2] == 1 && e[3] == 0x10
    && Two(e, 4) == |e| - 12
    && Four(e, 6) == c.sequence
    && e[10] == CommandByte(c.command)
    && (c.command == CommandCodec.SetTelemetryPeriod ==> Four(e, 11) == c.periodMs)
    && CarriesItsCrc(e)
  }

  /** All fourteen bytes of an acknowledgement. */
  predicate AckBytes(a: CommandCodec.AckMessage, e: bytes) {
    && |e| == 14
    && e[0] == 0xA5 && e[1] == 0x5A && e[2] == 1 && e[3] == 0x11
    && Two(e, 4) == 2
    && Four(e, 6) == a.sequence
    && e[10] == CommandByte(a.command) && e[11] == StatusByte(a.status)
    && CarriesItsCrc(e)
  }

  lemma CommandByteIs(c: CommandCodec.CommandId)
    ensures CommandCodec.CommandToByte(c) == if c == CommandCodec.UnknownCommand then None else Some(CommandByte(c))
  {}

  lemma StatusByteIs(s: CommandCodec.AckStatus)
    ensures CommandCodec.StatusToByte(s) == if s == CommandCodec.UnknownStatus then None else Some(StatusByte(s))
  {}

  /** A frame with this payload: its head, its payload and its CRC. */
  lemma FrameWithWire(t: MessageType, sequence: u32, p: bytes, e: bytes)
    requires |p| <= 64 && Encoded(CommandCodec.FrameWith(t, sequence, p)) == Success(e)
    ensures |e| == 12 + |p| && e[0] == 0xA5 && e[1] == 0x5A && e[2] == 1
    ensures (t == Command ==> e[3] == 0x10) && (t == CommandAck ==> e[3] == 0x11)
    ensures Two(e, 4) == |p| && Four(e, 6) == sequence && e[10..10 + |p|] == p && CarriesItsCrc(e)
  {
    var f := CommandCodec.FrameWith(t, sequence, p);
    assert f.payload[..|p|] == p;
    hide Encoded, Crc.Crc16, Two, Four;
    FrameWire(f);
    FrameCarriesItsCrc(e);
  }

  /** A command is sent as exactly these bytes. */
  lemma CommandWire(c: CommandCodec.CommandMessage)
    requires CommandCodec.EncodedCommand(c).Success?
    ensures CommandBytes(c, CommandCodec.EncodedCommand(c).value)
  {
    hide Encoded, LittleEndian, CarriesItsCrc, Two, Four, CommandCodec.FrameWith;
    var e := CommandCodec.EncodedCommand(c).value;
    var p := CommandCodec.CommandPayload(c, CommandByte(c.command));
    CommandByteIs(c.command);
    FrameWithWire(Command, c.sequence, p, e);
    assert e[10] == e[10..10 + |p|][0] == p[0];
    if c.command == CommandCodec.SetTelemetryPeriod {
      PayloadAt(e, p, 1, 5, 11, 15);
      StoredFour(e, 11, c.periodMs);
    }
  }

  /** An acknowledgement is sent as exactly these bytes. */
  lemma AckWire(a: CommandCodec.AckMessage)
    requires CommandCodec.EncodedAck(a).Success?
    ensures AckBytes(a, CommandCodec.EncodedAck(a).value)
  {
    hide Encoded, CarriesItsCrc, Two, Four, CommandCodec.FrameWith;
    var e := CommandCodec.EncodedAck(a).value;
    var p := [CommandByte(a.command), StatusByte(a.status)];
    CommandByteIs(a.command);
    StatusByteIs(a.status);
    FrameWithWire(CommandAck, a.sequence, p, e);
    assert e[10] == e[10..12][0] && e[11] == e[10..12][1];
  }

  /** Only an identifier nobody knows keeps a command or an acknowledgement from being sent. */
  lemma CommandEncodeFailsExactlyWhen(c: CommandCodec.CommandMessage, a: CommandCodec.AckMessage)
    ensures CommandCodec.EncodedCommand(c) == Failure(CommandCodec.EncodeUnknownCommand)
      <==> c.command == CommandCodec.UnknownCommand
    ensures CommandCodec.EncodedCommand(c).Failure? <==> c.command == CommandCodec.UnknownCommand
    ensures CommandCodec.EncodedAck(a) == Failure(CommandCodec.EncodeUnknownCommand)
      <==> a.command == CommandCodec.UnknownCommand
    ensures CommandCodec.EncodedAck(a) == Failure(CommandCodec.EncodeUnknownStatus)
      <==> a.command != CommandCodec.UnknownCommand && a.status == CommandCodec.UnknownStatus
    ensures CommandCodec.EncodedAck(a).Failure?
      <==> a.command == CommandCodec.UnknownCommand || a.status == CommandCodec.UnknownStatus
  {
    hide Encoded, CommandCodec.FrameWith;
    CommandCodec.EncodeCommandThenDecode(c);
    CommandCodec.EncodeAckThenDecode(a);
  }

  /** What the decoder finds in a frame of one or more payload bytes. */
  lemma DecodedHead(b: bytes)
    requires IsFrame(b)
    ensures |b| >= 12
    ensures var f := Decoded(b).value;
      && |b| == 12 + f.payloadLength
      && (f.messageType == Telemetry <==> b[3] == 0x01)
      && (f.messageType == Command <==> b[3] == 0x10)
      && (f.messageType == CommandAck <==> b[3] == 0x11)
      && (|b| > 12 ==> f.payload[0] == b[10])
      && (|b| > 13 ==> f.payload[1] == b[11])
  {
    hide Value, CrcMatches;
  }

  /** Each reason for not understanding a command frame, exactly when it is given. */
  lemma CommandDecodeFailsExactlyWhen(b: bytes)
    ensures var r := CommandCodec.DecodedCommand(b);
      && (!IsFrame(b) ==> r == Failure(CommandCodec.FrameDecodeFailure(Decoded(b).error)))
      && (IsFrame(b) ==>
            && |b| >= 12
            && (r == Failure(CommandCodec.IncorrectMessageType) <==> b[3] != 0x10)
            && (r == Failure(CommandCodec.DecodeUnknownCommand) <==>
                  b[3] == 0x10 && |b| > 12 && !(1 <= b[10] <= 3))
            && (r == Failure(CommandCodec.InvalidPayloadLength) <==>
                  b[3] == 0x10 && (|b| == 12 || (1 <= b[10] <= 3 && |b| != (if b[10] == 3 then 17 else 13))))
            && (r.Success? <==>
                  b[3] == 0x10 && |b| > 12 && 1 <= b[10] <= 3 && |b| == (if b[10] == 3 then 17 else 13)))
  {
    if IsFrame(b) {
      DecodedHead(b);
    }
    hide Decoded, Value;
  }

  /** Each reason for not understanding an acknowledgement frame, exactly when it is given. */
  lemma AckDecodeFailsExactlyWhen(b: bytes)
    ensures var r := CommandCodec.DecodedAck(b);
      && (!IsFrame(b) ==> r == Failure(CommandCodec.FrameDecodeFailure(Decoded(b).error)))
      && (IsFrame(b) ==>
            && |b| >= 12
            && (r == Failure(CommandCodec.IncorrectMessageType) <==> b[3] != 0x11)
            && (r == Failure(CommandCodec.InvalidPayloadLength) <==> b[3] == 0x11 && |b| != 14)
            && (r == Failure(CommandCodec.DecodeUnknownCommand) <==>
                  b[3] == 0x11 && |b| == 14 && !(1 <= b[10] <= 3))
            && (r == Failure(CommandCodec.DecodeUnknownStatus) <==>
                  b[3] == 0x11 && |b| == 14 && 1 <= b[10] <= 3 && b[11] > 3)
            && (r.Success? <==> b[3] == 0x11 && |b| == 14 && 1 <= b[10] <= 3 && b[11] <= 3))
  {
    if IsFrame(b) {
      DecodedHead(b);
    }
    hide Decoded, Value;
  }

  // ----- What the decoders read, from the bytes

  /** An understood telemetry frame, whatever its type: every field from its place. */
  lemma TelemetryRead(b: bytes)
    requires TelemetryCodec.DecodedTelemetry(b).Success?
    ensures |b| == 31
    ensures var m := TelemetryCodec.DecodedTelemetry(b).value;
      && Four(b, 6) == m.snapshot.sequence
      && Eight(b, 10) == m.snapshot.uptimeMs
      && b[18] == ModeByte(m.snapshot.flightMode) && m.snapshot.flightMode != FlightMode.UnknownMode
      && Two(b, 19) == m.snapshot.readings.batteryMv
      && (Two(b, 21) - m.snapshot.readings.boardTemperatureCentiC) % 0x1_0000 == 0
      && Two(b, 23) == m.snapshot.readings.solarCurrentMa
      && Four(b, 25) == m.latchedFaultMask
  {
    TelemetryDecodeFailsExactlyWhen(b);
    var f, m := Decoded(b).value, TelemetryCodec.DecodedTelemetry(b).value;
    assert TelemetryCodec.MessageIn(f) == Success(m) && m.snapshot.sequence == f.sequence;
    TelemetryCodec.PayloadOfMessageIn(f);
    DecodedBody(b);
    ModeByteIs(m.snapshot.flightMode);
    hide Decoded, TelemetryCodec.DecodedTelemetry, TelemetryCodec.MessageIn, TelemetryCodec.PayloadOf, Two, Four, Eight;
    TelemetryFields(m, f.payload[8], f.payload, b);
  }

  lemma DecodedBody(b: bytes)
    requires IsFrame(b) && |b| == 31
    ensures var f := Decoded(b).value;
      b[10..29] == f.payload[..19] && f.payload[8] == b[18] && f.sequence == Four(b, 6)
  {
    hide Value, CrcMatches, Four;
    ValueOfFour(b, 6);
  }

  /** An understood command: its number, itself, and an argument only if it takes one. */
  lemma CommandRead(b: bytes)
    requires CommandCodec.DecodedCommand(b).Success?
    ensures var c := CommandCodec.DecodedCommand(b).value;
      && CommandBytes(c, b) && c.command != CommandCodec.UnknownCommand
      && (c.command != CommandCodec.SetTelemetryPeriod ==> c.periodMs == 0)
  {
    var c := CommandCodec.DecodedCommand(b).value;
    assert c.command != CommandCodec.SetTelemetryPeriod ==> c.periodMs == 0 by {
      hide Decoded, Value;
    }
    hide CommandCodec.DecodedCommand, CommandCodec.EncodedCommand, CommandBytes;
    CommandCodec.DecodeCommandThenEncode(b);
    CommandWire(c);
    CommandEncodeFailsExactlyWhen(c, CommandCodec.AckMessage(0, CommandCodec.Ping, CommandCodec.AckAccepted));
  }

  /** An understood acknowledgement: its number, the command and the status. */
  lemma AckRead(b: bytes)
    requires CommandCodec.DecodedAck(b).Success?
    ensures var a := CommandCodec.DecodedAck(b).value;
      AckBytes(a, b) && a.command != CommandCodec.UnknownCommand && a.status != CommandCodec.UnknownStatus
  {
    var a := CommandCodec.DecodedAck(b).value;
    hide CommandCodec.DecodedAck, CommandCodec.EncodedAck, AckBytes;
    CommandCodec.DecodeAckThenEncode(b);
    CommandCodec.EncodeAckThenDecode(a);
    AckWire(a);
  }

  /** A decoded frame of any kind: every field from its place, the rest of the payload zero. */
  lemma FrameRead(b: bytes)
    requires IsFrame(b)
    ensures |b| >= 12
    ensures var f := Decoded(b).value;
      && f.version == 1
      && (f.messageType == Telemetry <==> b[3] == 0x01)
      && (f.messageType == Command <==> b[3] == 0x10)
      && (f.messageType == CommandAck <==> b[3] == 0x11)
      && f.payloadLength == |b| - 12 && Two(b, 4) == |b| - 12
      && f.sequence == Four(b, 6)
      && (forall k :: 0 <= k < 64 ==> f.payload[k] == if k < |b| - 12 then b[10 + k] else 0)
  {
    hide Value, CrcMatches, Four;
    DecodedHead(b);
    ValueOfFour(b, 6);
  }

  // ----- One frame in full

  lemma GoldenStart(rest: bytes)
    ensures Crc.Crc16([0x01] + ([0x01] + ([0x03] + ([0x00] + ([0x78] + ([0x56] + rest)))))) ==
      Crc.Register(0xC1FE, rest)
  {
    Crc.NextRegister(0xFFFF, 0x01, 0xF1D1, [0x01] + ([0x03] + ([0x00] + ([0x78] + ([0x56] + rest)))));
    Crc.NextRegister(0xF1D1, 0x01, 0x3E1F, [0x03] + ([0x00] + ([0x78] + ([0x56] + rest))));
    Crc.NextRegister(0x3E1F, 0x03, 0xF8FE, [0x00] + ([0x78] + ([0x56] + rest)));
    Crc.NextRegister(0xF8FE, 0x00, 0x9017, [0x78] + ([0x56] + rest));
    Crc.NextRegister(0x9017, 0x78, 0x6B26, [0x56] + rest);
    Crc.NextRegister(0x6B26, 0x56, 0xC1FE, rest);
  }

  lemma GoldenEnd()
    ensures Crc.Register(0xC1FE, [0x34] + ([0x12] + ([0x10] + ([0x20] + ([0x30] + []))))) == 0xA40F
  {
    Crc.NextRegister(0xC1FE, 0x34, 0x41BA, [0x12] + ([0x10] + ([0x20] + ([0x30] + []))));
    Crc.NextRegister(0x41BA, 0x12, 0xD096, [0x10] + ([0x20] + ([0x30] + [])));
    Crc.NextRegister(0xD096, 0x10, 0x4F4C, [0x20] + ([0x30] + []));
    Crc.NextRegister(0x4F4C, 0x20, 0xD149, [0x30] + []);
    Crc.NextRegister(0xD149, 0x30, 0xA40F, []);
  }

  lemma GoldenCrc()
    ensures Crc.Crc16([0x01, 0x01, 0x03, 0x00, 0x78, 0x56, 0x34, 0x12, 0x10, 0x20, 0x30]) == 0xA40F
  {
    hide Crc.Register, Crc.Crc16;
    var last: bytes := [0x34] + ([0x12] + ([0x10] + ([0x20] + ([0x30] + []))));
    GoldenStart(last);
    GoldenEnd();
    assert [0x01] + ([0x01] + ([0x03] + ([0x00] + ([0x78] + ([0x56] + last))))) ==
      [0x01, 0x01, 0x03, 0x00, 0x78, 0x56, 0x34, 0x12, 0x10, 0x20, 0x30];
  }

  /** The frame of sequence 0x12345678 with payload 0x10, 0x20, 0x30. */
  lemma GoldenFrame(f: Frame)
    requires f.version == 1 && f.messageType == Telemetry && f.payloadLength == 3 && f.sequence == 0x1234_5678
    requires f.payload[..3] == [0x10, 0x20, 0x30]
    ensures Encoded(f) ==
      Success([0xA5, 0x5A, 0x01, 0x01, 0x03, 0x00, 0x78, 0x56, 0x34, 0x12, 0x10, 0x20, 0x30, 0x0F, 0xA4])
  {
    hide Encoded, Crc.Crc16;
    EncodeSucceedsWhen(f);
    FrameWire(f);
    GoldenCrc();
    var e := Encoded(f).value;
    GoldenHead(e);
    assert e[10] == e[10..13][0] && e[11] == e[10..13][1] && e[12] == e[10..13][2];
    assert e[2..13] == [0x01, 0x01, 0x03, 0x00, 0x78, 0x56, 0x34, 0x12, 0x10, 0x20, 0x30];
    GoldenTail(e);
    assert e == [0xA5, 0x5A, 0x01, 0x01, 0x03, 0x00, 0x78, 0x56, 0x34, 0x12, 0x10, 0x20, 0x30, 0x0F, 0xA4];
  }

  lemma FourDigits(v0: int, v1: int, v2: int, v3: int)
    requires 0 <= v0 < 256 && 0 <= v1 < 256 && 0 <= v2 < 256 && 0 <= v3 < 256
    requires v0 + 256 * v1 + 0x1_0000 * (v2 + 256 * v3) == 0x1234_5678
    ensures v0 == 0x78 && v1 == 0x56 && v2 == 0x34 && v3 == 0x12
  {}

  lemma ByteIs(b: byte, v: nat, x: byte)
    requires b as int == v && x as int == v
    ensures b == x
  {
    ByteIsItsValue(b, x);
  }

  lemma GoldenHead(e: bytes)
    requires |e| == 15 && Two(e, 4) == 3 && Four(e, 6) == 0x1234_5678
    ensures e[4] == 0x03 && e[5] == 0x00
    ensures e[6] == 0x78 && e[7] == 0x56 && e[8] == 0x34 && e[9] == 0x12
  {
    var v0, v1, v2, v3 := e[6] as int, e[7] as int, e[8] as int, e[9] as int;
    FourDigits(v0, v1, v2, v3);
    ByteIs(e[4], 3, 0x03);
    ByteIs(e[5], 0, 0x00);
    ByteIs(e[6], 120, 0x78);
    ByteIs(e[7], 86, 0x56);
    ByteIs(e[8], 52, 0x34);
    ByteIs(e[9], 18, 0x12);
  }

  lemma GoldenTail(e: bytes)
    requires |e| == 15 && Two(e, 13) == 0xA40F
    ensures e[13] == 0x0F && e[14] == 0xA4
  {
    ByteIsItsValue(e[13], 0x0F);
    ByteIsItsValue(e[14], 0xA4);
  }
}
