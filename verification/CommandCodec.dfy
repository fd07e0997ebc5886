/** Commands and their acknowledgements as frames. */
module CommandCodec {
  import opened Wrappers
  import opened Bytes
  import opened FrameCodec

  /** `UnknownCommand` and `UnknownStatus` stand for values cast into the enumerations from outside them. */
  datatype CommandId = Ping | EnterSafeMode | SetTelemetryPeriod | UnknownCommand

  datatype AckStatus = AckAccepted | InvalidCommand | InvalidArgument | RejectedByState | UnknownStatus

  datatype CommandMessage = CommandMessage(sequence: u32, command: CommandId, periodMs: u32)

  datatype AckMessage = AckMessage(sequence: u32, command: CommandId, status: AckStatus)

  datatype EncodeFailure = EncodeUnknownCommand | EncodeUnknownStatus | FrameEncodeFailure(error: EncodeError)

  datatype DecodeFailure =
    | FrameDecodeFailure(error: DecodeError)
    | IncorrectMessageType
    | InvalidPayloadLength
    | DecodeUnknownCommand
    | DecodeUnknownStatus

  function CommandToByte(c: CommandId): Option<byte> {
    match c
    case Ping => Some(1)
    case EnterSafeMode => Some(2)
    case SetTelemetryPeriod => Some(3)
    case UnknownCommand => None
  }

  function ByteToCommand(b: byte): Option<CommandId> {
    if b == 1 then Some(Ping)
    else if b == 2 then Some(EnterSafeMode)
    else if b == 3 then Some(SetTelemetryPeriod)
    else None
  }

  function StatusToByte(s: AckStatus): Option<byte> {
    match s
    case AckAccepted => Some(0)
    case InvalidCommand => Some(1)
    case InvalidArgument => Some(2)
    case RejectedByState => Some(3)
    case UnknownStatus => None
  }

  function ByteToStatus(b: byte): Option<AckStatus> {
    if b == 0 then Some(AckAccepted)
    else if b == 1 then Some(InvalidCommand)
    else if b == 2 then Some(InvalidArgument)
    else if b == 3 then Some(RejectedByState)
    else None
  }

  /** Only SetTelemetryPeriod carries its argument. */
  function CommandPayload(c: CommandMessage, id: byte): (p: bytes)
    ensures |p| == RequiredLength(c.command)
  {
    if c.command == SetTelemetryPeriod then [id] + LittleEndian(c.periodMs, 4) else [id]
  }

  function RequiredLength(c: CommandId): nat { if c == SetTelemetryPeriod then 5 else 1 }

  /** A frame with this payload, zero-filled. */
  function FrameWith(messageType: MessageType, sequence: u32, payload: bytes): Frame
    requires |payload| <= MAXIMUM_PAYLOAD_SIZE
  {
    Frame(PROTOCOL_VERSION, messageType, |payload|, sequence, payload + Zeros(MAXIMUM_PAYLOAD_SIZE - |payload|))
  }

  function WithFrame(r: Result<bytes, EncodeError>): Result<bytes, EncodeFailure> {
    match r
    case Success(b) => Success(b)
    case Failure(e) => Failure(FrameEncodeFailure(e))
  }

  function EncodedCommand(c: CommandMessage): Result<bytes, EncodeFailure> {
    var id := CommandToByte(c.command);
    if id.None? then Failure(EncodeUnknownCommand)
    else WithFrame(Encoded(FrameWith(Command, c.sequence, CommandPayload(c, id.value))))
  }

  function CommandIn(f: Frame): Result<CommandMessage, DecodeFailure> {
    if f.messageType != Command then Failure(IncorrectMessageType)
    else if f.payloadLength < 1 then Failure(InvalidPayloadLength)
    else
      var id := ByteToCommand(f.payload[0]);
      if id.None? then Failure(DecodeUnknownCommand)
      else if f.payloadLength != RequiredLength(id.value) then Failure(InvalidPayloadLength)
      else
        var periodMs := if id.value == SetTelemetryPeriod then ValueU32(f.payload[1..5]) else 0;
        Success(CommandMessage(f.sequence, id.value, periodMs))
  }

  function DecodedCommand(b: bytes): Result<CommandMessage, DecodeFailure> {
    match Decoded(b)
    case Failure(e) => Failure(FrameDecodeFailure(e))
    case Success(f) => CommandIn(f)
  }

  function EncodedAck(a: AckMessage): Result<bytes, EncodeFailure> {
    var id, status := CommandToByte(a.command), StatusToByte(a.status);
    if id.None? then Failure(EncodeUnknownCommand)
    else if status.None? then Failure(EncodeUnknownStatus)
    else WithFrame(Encoded(FrameWith(CommandAck, a.sequence, [id.value, status.value])))
  }

  function AckIn(f: Frame): Result<AckMessage, DecodeFailure> {
    if f.messageType != CommandAck then Failure(IncorrectMessageType)
    else if f.payloadLength != 2 then Failure(InvalidPayloadLength)
    else if ByteToCommand(f.payload[0]).None? then Failure(DecodeUnknownCommand)
    else if ByteToStatus(f.payload[1]).None? then Failure(DecodeUnknownStatus)
    else Success(AckMessage(f.sequence, ByteToCommand(f.payload[0]).value, ByteToStatus(f.payload[1]).value))
  }

  function DecodedAck(b: bytes): Result<AckMessage, DecodeFailure> {
    match Decoded(b)
    case Failure(e) => Failure(FrameDecodeFailure(e))
    case Success(f) => AckIn(f)
  }

  method EncodeCommand(c: CommandMessage) returns (r: Result<bytes, EncodeFailure>)
    ensures r == EncodedCommand(c)
  {
    hide Encoded, LittleEndian;
    var id := CommandToByte(c.command);
    if id.None? {
      return Failure(EncodeUnknownCommand);
    }
    var payload := new byte[MAXIMUM_PAYLOAD_SIZE](_ => 0);
    payload[0] := id.value;
    var length := 1;
    if c.command == SetTelemetryPeriod {
      length := 5;
      WriteLittleEndian(payload, 1, c.periodMs, 4);
    }
    var frame := Frame(PROTOCOL_VERSION, Command, length, c.sequence, payload[..]);
    assert frame == FrameWith(Command, c.sequence, CommandPayload(c, id.value));
    var encoded := Encode(frame);
    return WithFrame(encoded);
  }

  method DecodeCommand(b: bytes) returns (r: Result<CommandMessage, DecodeFailure>)
    ensures r == DecodedCommand(b)
  {
    hide Decoded, ValueU32;
    var decoded := Decode(b);
    if decoded.Failure? {
      return Failure(FrameDecodeFailure(decoded.error));
    }
    var f := decoded.value;
    if f.messageType != Command {
      return Failure(IncorrectMessageType);
    }
    if f.payloadLength < 1 {
      return Failure(InvalidPayloadLength);
    }
    var command := ByteToCommand(f.payload[0]);
    if command.None? {
      return Failure(DecodeUnknownCommand);
    }
    var requiredLength := if command.value == SetTelemetryPeriod then 5 else 1;
    if f.payloadLength != requiredLength {
      return Failure(InvalidPayloadLength);
    }
    var periodMs := 0;
    if command.value == SetTelemetryPeriod {
      periodMs := ValueU32(f.payload[1..5]);
    }
    return Success(CommandMessage(f.sequence, command.value, periodMs));
  }

  method EncodeAck(a: AckMessage) returns (r: Result<bytes, EncodeFailure>)
    ensures r == EncodedAck(a)
  {
    hide Encoded;
    var id := CommandToByte(a.command);
    if id.None? {
      return Failure(EncodeUnknownCommand);
    }
    var status := StatusToByte(a.status);
    if status.None? {
      return Failure(EncodeUnknownStatus);
    }
    var payload := new byte[MAXIMUM_PAYLOAD_SIZE](_ => 0);
    payload[0] := id.value;
    payload[1] := status.value;
    var frame := Frame(PROTOCOL_VERSION, CommandAck, 2, a.sequence, payload[..]);
    assert frame == FrameWith(CommandAck, a.sequence, [id.value, status.value]);
    var encoded := Encode(frame);
    return WithFrame(encoded);
  }

  method DecodeAck(b: bytes) returns (r: Result<AckMessage, DecodeFailure>)
    ensures r == DecodedAck(b)
  {
    hide Decoded;
    var decoded := Decode(b);
    if decoded.Failure? {
      return Failure(FrameDecodeFailure(decoded.error));
    }
    var f := decoded.value;
    if f.messageType != CommandAck {
      return Failure(IncorrectMessageType);
    }
    if f.payloadLength != 2 {
      return Failure(InvalidPayloadLength);
    }
    var command := ByteToCommand(f.payload[0]);
    if command.None? {
      return Failure(DecodeUnknownCommand);
    }
    var status := ByteToStatus(f.payload[1]);
    if status.None? {
      return Failure(DecodeUnknownStatus);
    }
    return Success(AckMessage(f.sequence, command.value, status.value));
  }

  // ----- Round trips

  lemma CommandByteInverse(c: CommandId, b: byte)
    ensures CommandToByte(c) == Some(b) <==> ByteToCommand(b) == Some(c)
  {}

  lemma StatusByteInverse(s: AckStatus, b: byte)
    ensures StatusToByte(s) == Some(b) <==> ByteToStatus(b) == Some(s)
  {}

  lemma FrameWithRoundTrip(messageType: MessageType, sequence: u32, payload: bytes)
    requires |payload| <= MAXIMUM_PAYLOAD_SIZE && messageType != UnknownType
    ensures var f := FrameWith(messageType, sequence, payload);
      Encoded(f).Success? && Decoded(Encoded(f).value) == Success(f)
  {
    var f := FrameWith(messageType, sequence, payload);
    hide Encoded, Decoded;
    EncodeSucceedsWhen(f);
    EncodeThenDecode(f);
    assert Normalized(f) == f;
  }

  lemma FrameWithIsFrame(f: Frame, b: bytes)
    requires Decoded(b) == Success(f)
    ensures f == FrameWith(f.messageType, f.sequence, f.payload[..f.payloadLength])
    ensures Encoded(f) == Success(b)
  {
    DecodeThenEncode(b);
    assert f.payload == f.payload[..f.payloadLength] + Zeros(MAXIMUM_PAYLOAD_SIZE - f.payloadLength);
  }

  /** What a command looks like on the other side: an argument that does not belong to it is gone. */
  function NormalizedCommand(c: CommandMessage): CommandMessage {
    if c.command == SetTelemetryPeriod then c else c.(periodMs := 0)
  }

  /** Every known command encodes, and comes back with its argument if it has one. */
  lemma EncodeCommandThenDecode(c: CommandMessage)
    ensures EncodedCommand(c).Success? <==> c.command != UnknownCommand
    ensures EncodedCommand(c).Success? ==> DecodedCommand(EncodedCommand(c).value) == Success(NormalizedCommand(c))
  {
    hide Encoded, Decoded, LittleEndian, Value;
    var id := CommandToByte(c.command);
    if id.Some? {
      var p := CommandPayload(c, id.value);
      FrameWithRoundTrip(Command, c.sequence, p);
      CommandByteInverse(c.command, id.value);
      if c.command == SetTelemetryPeriod {
        assert FrameWith(Command, c.sequence, p).payload[1..5] == LittleEndian(c.periodMs, 4);
        Pow256Widths();
        StoreThenLoad(c.periodMs, 4);
      }
    }
  }

  lemma DecodeCommandThenEncode(b: bytes)
    requires DecodedCommand(b).Success?
    ensures EncodedCommand(DecodedCommand(b).value) == Success(b)
  {
    hide Encoded, Decoded, LittleEndian, Value;
    var f := Decoded(b).value;
    var c := CommandIn(f).value;
    FrameWithIsFrame(f, b);
    CommandByteInverse(c.command, f.payload[0]);
    if c.command == SetTelemetryPeriod {
      LoadThenStore(f.payload[1..5]);
      assert f.payload[..5] == [f.payload[0]] + f.payload[1..5];
    } else {
      assert f.payload[..1] == [f.payload[0]];
    }
  }

  lemma EncodeAckThenDecode(a: AckMessage)
    ensures EncodedAck(a).Success? <==> a.command != UnknownCommand && a.status != UnknownStatus
    ensures EncodedAck(a).Success? ==> DecodedAck(EncodedAck(a).value) == Success(a)
  {
    hide Encoded, Decoded;
    var id, status := CommandToByte(a.command), StatusToByte(a.status);
    if id.Some? && status.Some? {
      FrameWithRoundTrip(CommandAck, a.sequence, [id.value, status.value]);
      CommandByteInverse(a.command, id.value);
      StatusByteInverse(a.status, status.value);
    }
  }

  lemma DecodeAckThenEncode(b: bytes)
    requires DecodedAck(b).Success?
    ensures EncodedAck(DecodedAck(b).value) == Success(b)
  {
    hide Encoded, Decoded;
    var f := Decoded(b).value;
    var a := AckIn(f).value;
    FrameWithIsFrame(f, b);
    CommandByteInverse(a.command, f.payload[0]);
    StatusByteInverse(a.status, f.payload[1]);
    assert f.payload[..2] == [f.payload[0], f.payload[1]];
  }
}
