/** The frame format: sync pair, covered header and payload, CRC stored low byte first. */
module FrameCodec {
  import opened Wrappers
  import opened Bytes
  import Crc

  const PROTOCOL_VERSION: byte := 1
  const SYNC_FIRST: byte := 0xA5
  const SYNC_SECOND: byte := 0x5A
  const MAXIMUM_PAYLOAD_SIZE: nat := 64
  const MAXIMUM_FRAME_SIZE: nat := 76
  const MINIMUM_FRAME_SIZE: nat := 12
  const HEADER_SIZE: nat := 6

  /** `UnknownType` stands for a value cast into the enumeration from outside it. */
  datatype MessageType = Telemetry | Command | CommandAck | UnknownType

  type Payload = p: bytes | |p| == MAXIMUM_PAYLOAD_SIZE witness Zeros(MAXIMUM_PAYLOAD_SIZE)

  datatype Frame = Frame(version: byte, messageType: MessageType, payloadLength: u16, sequence: u32, payload: Payload)

  datatype EncodeError = EncodeVersion | EncodeMessageType | EncodePayloadTooLarge

  datatype DecodeError =
    | Truncated
    | BadSync
    | UnsupportedVersion
    | UnsupportedMessageType
    | PayloadTooLarge
    | LengthMismatch
    | CrcMismatch

  function TypeToByte(t: MessageType): Option<byte> {
    match t
    case Telemetry => Some(0x01)
    case Command => Some(0x10)
    case CommandAck => Some(0x11)
    case UnknownType => None
  }

  function ByteToType(b: byte): Option<MessageType> {
    if b == 0x01 then Some(Telemetry)
    else if b == 0x10 then Some(Command)
    else if b == 0x11 then Some(CommandAck)
    else None
  }

  function Word(b: bytes, offset: nat): (w: u16)
    requires offset + 2 <= |b|
  {
    b[offset] as int + 256 * (b[offset + 1] as int)
  }

  /** The payload length a frame announces in its header. */
  function PayloadLength(b: bytes): u16
    requires |b| >= HEADER_SIZE
  {
    Word(b, 4)
  }

  function CrcWord(covered: bytes): u16 {
    Crc.Crc16(covered) as int
  }

  /** The bytes the CRC covers: everything between the sync pair and the CRC itself. */
  function Covered(f: Frame, typeByte: byte): bytes
    requires f.payloadLength <= MAXIMUM_PAYLOAD_SIZE
  {
    [f.version, typeByte] + LittleEndian(f.payloadLength, 2) + LittleEndian(f.sequence, 4)
    + f.payload[..f.payloadLength]
  }

  function Sealed(covered: bytes): bytes {
    [SYNC_FIRST, SYNC_SECOND] + covered + LittleEndian(CrcWord(covered), 2)
  }

  function Encoded(f: Frame): Result<bytes, EncodeError> {
    if f.version != PROTOCOL_VERSION then Failure(EncodeVersion)
    else if TypeToByte(f.messageType).None? then Failure(EncodeMessageType)
    else if f.payloadLength > MAXIMUM_PAYLOAD_SIZE then Failure(EncodePayloadTooLarge)
    else Success(Sealed(Covered(f, TypeToByte(f.messageType).value)))
  }

  /** The first check of the header that fails, in the order the decoder makes them. */
  function HeaderFault(b: bytes): Option<DecodeError> {
    if |b| < MINIMUM_FRAME_SIZE then Some(Truncated)
    else if b[0] != SYNC_FIRST || b[1] != SYNC_SECOND then Some(BadSync)
    else if b[2] != PROTOCOL_VERSION then Some(UnsupportedVersion)
    else if ByteToType(b[3]).None? then Some(UnsupportedMessageType)
    else if PayloadLength(b) > MAXIMUM_PAYLOAD_SIZE then Some(PayloadTooLarge)
    else if |b| < MINIMUM_FRAME_SIZE + PayloadLength(b) then Some(Truncated)
    else if |b| != MINIMUM_FRAME_SIZE + PayloadLength(b) then Some(LengthMismatch)
    else None
  }

  predicate CrcMatches(b: bytes)
    requires |b| >= MINIMUM_FRAME_SIZE
  {
    CrcWord(b[2..|b| - 2]) == Word(b, |b| - 2)
  }

  function Decoded(b: bytes): (r: Result<Frame, DecodeError>)
    ensures r.Success? <==> HeaderFault(b).None? && CrcMatches(b)
  {
    if HeaderFault(b).Some? then Failure(HeaderFault(b).value)
    else if !CrcMatches(b) then Failure(CrcMismatch)
    else
      var length := PayloadLength(b);
      Success(Frame(b[2], ByteToType(b[3]).value, length, ValueU32(b[6..10]),
                    b[10..10 + length] + Zeros(MAXIMUM_PAYLOAD_SIZE - length)))
  }

  /** A byte sequence that is exactly one well-formed frame. */
  predicate IsFrame(b: bytes) { Decoded(b).Success? }

  lemma FrameStarts(f: bytes)
    requires IsFrame(f)
    ensures MINIMUM_FRAME_SIZE <= |f| <= MAXIMUM_FRAME_SIZE && f[0] == SYNC_FIRST && f[1] == SYNC_SECOND
  {}

  /** Everything before the payload. */
  function Header(f: Frame, typeByte: byte): bytes {
    [SYNC_FIRST, SYNC_SECOND, f.version, typeByte] + LittleEndian(f.payloadLength, 2) + LittleEndian(f.sequence, 4)
  }

  method WriteHeader(target: array<byte>, f: Frame, typeByte: byte)
    requires target.Length == MAXIMUM_FRAME_SIZE
    modifies target
    ensures target[..10] == Header(f, typeByte)
  {
    hide LittleEndian, ByteOf;
    target[0] := SYNC_FIRST;
    target[1] := SYNC_SECOND;
    target[2] := f.version;
    target[3] := typeByte;
    assert target[..4] == [SYNC_FIRST, SYNC_SECOND, f.version, typeByte];
    WriteLittleEndian(target, 4, f.payloadLength, 2);
    assert target[..6] == [SYNC_FIRST, SYNC_SECOND, f.version, typeByte] + LittleEndian(f.payloadLength, 2);
    WriteLittleEndian(target, 6, f.sequence, 4);
  }

  /** Computes the CRC of `target[2..end]` and stores it at `end`. */
  method AppendCrc(target: array<byte>, end: nat)
    requires 2 <= end <= target.Length - 2
    modifies target
    ensures target[..end + 2] == old(target[..end]) + LittleEndian(CrcWord(old(target[2..end])), 2)
  {
    hide LittleEndian, ByteOf;
    var crc := Crc.ComputeCrc16(target[2..end]);
    WriteLittleEndian(target, end, crc as int, 2);
  }

  method Encode(f: Frame) returns (r: Result<bytes, EncodeError>)
    ensures r == Encoded(f)
  {
    hide CrcWord, LittleEndian, ByteOf;
    if f.version != PROTOCOL_VERSION {
      return Failure(EncodeVersion);
    }
    var encodedType := TypeToByte(f.messageType);
    if encodedType.None? {
      return Failure(EncodeMessageType);
    }
    if f.payloadLength > MAXIMUM_PAYLOAD_SIZE {
      return Failure(EncodePayloadTooLarge);
    }
    var target := new byte[MAXIMUM_FRAME_SIZE](_ => 0);
    WriteHeader(target, f, encodedType.value);
    for k := 0 to f.payloadLength
      invariant target[..10 + k] == Header(f, encodedType.value) + f.payload[..k]
    {
      target[10 + k] := f.payload[k];
    }
    var crcOffset := 10 + f.payloadLength;
    ghost var covered := Covered(f, encodedType.value);
    assert target[..crcOffset] == [SYNC_FIRST, SYNC_SECOND] + covered;
    assert target[2..crcOffset] == target[..crcOffset][2..] == covered;
    AppendCrc(target, crcOffset);
    return Success(target[..crcOffset + 2]);
  }

  method CopyPayload(b: bytes, length: nat) returns (p: Payload)
    requires length <= MAXIMUM_PAYLOAD_SIZE && 10 + length <= |b|
    ensures p == b[10..10 + length] + Zeros(MAXIMUM_PAYLOAD_SIZE - length)
  {
    var payload := new byte[MAXIMUM_PAYLOAD_SIZE](_ => 0);
    for k := 0 to length
      invariant payload[..] == b[10..10 + k] + Zeros(MAXIMUM_PAYLOAD_SIZE - k)
    {
      payload[k] := b[10 + k];
    }
    p := payload[..];
  }

  method Decode(b: bytes) returns (r: Result<Frame, DecodeError>)
    ensures r == Decoded(b)
  {
    hide ValueU32, Crc.Register;
    if |b| < MINIMUM_FRAME_SIZE {
      return Failure(Truncated);
    }
    if b[0] != SYNC_FIRST || b[1] != SYNC_SECOND {
      return Failure(BadSync);
    }
    if b[2] != PROTOCOL_VERSION {
      return Failure(UnsupportedVersion);
    }
    var messageType := ByteToType(b[3]);
    if messageType.None? {
      return Failure(UnsupportedMessageType);
    }
    var length := PayloadLength(b);
    if length > MAXIMUM_PAYLOAD_SIZE {
      return Failure(PayloadTooLarge);
    }
    var expectedSize := MINIMUM_FRAME_SIZE + length;
    if |b| < expectedSize {
      return Failure(Truncated);
    }
    if |b| != expectedSize {
      return Failure(LengthMismatch);
    }
    var actualCrc := Crc.ComputeCrc16(b[2..2 + 8 + length]);
    assert HeaderFault(b).None? && 10 + length == |b| - 2;
    assert CrcMatches(b) <==> actualCrc as int == Word(b, 10 + length);
    if actualCrc as int != Word(b, 10 + length) {
      return Failure(CrcMismatch);
    }
    var payload := CopyPayload(b, length);
    return Success(Frame(b[2], messageType.value, length, ValueU32(b[6..10]), payload));
  }

  // ----- The codec is a bijection between valid frames and well-formed byte sequences

  lemma WordIsValue(b: bytes, offset: nat)
    requires offset + 2 <= |b|
    ensures Word(b, offset) == Value(b[offset..offset + 2])
  {
    var w := b[offset..offset + 2];
    assert Value(w[1..]) == w[1] as int + 256 * Value(w[1..][1..]);
    assert w[1..][1..] == [];
  }

  lemma StoredWord(b: bytes, offset: nat, v: u16)
    requires offset + 2 <= |b| && b[offset..offset + 2] == LittleEndian(v, 2)
    ensures Word(b, offset) == v
  {
    WordIsValue(b, offset);
    Pow256Widths();
    StoreThenLoad(v, 2);
  }

  lemma LoadedWord(b: bytes, offset: nat)
    requires offset + 2 <= |b|
    ensures LittleEndian(Word(b, offset), 2) == b[offset..offset + 2]
  {
    WordIsValue(b, offset);
    LoadThenStore(b[offset..offset + 2]);
  }

  lemma TypeByteInverse(t: MessageType, b: byte)
    ensures TypeToByte(t) == Some(b) <==> ByteToType(b) == Some(t)
  {}

  /** A frame as it comes back from the wire: payload bytes past the announced length read as zero. */
  function Normalized(f: Frame): Frame
    requires f.payloadLength <= MAXIMUM_PAYLOAD_SIZE
  {
    f.(payload := f.payload[..f.payloadLength] + Zeros(MAXIMUM_PAYLOAD_SIZE - f.payloadLength))
  }

  /** Where each field of a sealed frame lies. */
  lemma EncodedLayout(f: Frame)
    requires Encoded(f).Success?
    ensures var e, n := Encoded(f).value, f.payloadLength;
      && |e| == MINIMUM_FRAME_SIZE + n
      && e[..2] == [SYNC_FIRST, SYNC_SECOND]
      && e[2] == f.version && Some(e[3]) == TypeToByte(f.messageType)
      && e[4..6] == LittleEndian(n, 2) && e[6..10] == LittleEndian(f.sequence, 4)
      && e[10..10 + n] == f.payload[..n]
      && e[10 + n..10 + n + 2] == LittleEndian(CrcWord(e[2..10 + n]), 2)
  {
    hide LittleEndian, CrcWord;
    var e, n := Encoded(f).value, f.payloadLength;
    var covered := Covered(f, TypeToByte(f.messageType).value);
    assert e[2..10 + n] == covered;
    assert e[4..6] == covered[2..4];
    assert e[6..10] == covered[4..8];
    assert e[10..10 + n] == covered[8..];
  }

  lemma EncodeThenDecode(f: Frame)
    requires Encoded(f).Success?
    ensures Decoded(Encoded(f).value) == Success(Normalized(f))
  {
    hide Encoded, LittleEndian, CrcWord;
    EncodeSucceedsWhen(f);
    var e, n := Encoded(f).value, f.payloadLength;
    EncodedLayout(f);
    assert e[0] == e[..2][0] && e[1] == e[..2][1];
    TypeByteInverse(f.messageType, e[3]);
    StoredWord(e, 4, n);
    StoredWord(e, 10 + n, CrcWord(e[2..10 + n]));
    Pow256Widths();
    StoreThenLoad(f.sequence, 4);
  }

  lemma EncodeSucceedsWhen(f: Frame)
    ensures Encoded(f).Success? <==>
      f.version == PROTOCOL_VERSION && f.messageType != UnknownType && f.payloadLength <= MAXIMUM_PAYLOAD_SIZE
  {}

  lemma DecodeThenEncode(b: bytes)
    requires IsFrame(b)
    ensures Encoded(Decoded(b).value) == Success(b)
  {
    hide LittleEndian, CrcWord, Value;
    var f := Decoded(b).value;
    var n := f.payloadLength;
    TypeByteInverse(f.messageType, b[3]);
    LoadedWord(b, 4);
    LoadedWord(b, 10 + n);
    LoadThenStore(b[6..10]);
    assert TypeToByte(f.messageType) == Some(b[3]);
    var covered := b[2..10 + n];
    assert Covered(f, b[3]) == covered by {
      assert f.payload[..n] == b[10..10 + n];
    }
    assert CrcWord(covered) == Word(b, 10 + n);
    assert Sealed(covered) == b by {
      assert b == b[..2] + covered + b[10 + n..10 + n + 2];
    }
  }

  /** The well-formed byte sequences are exactly the encodings of frames. */
  lemma FramesAreEncodings(b: bytes)
    ensures IsFrame(b) <==> exists f: Frame :: Encoded(f) == Success(b)
  {
    hide Decoded, Encoded;
    if IsFrame(b) {
      DecodeThenEncode(b);
    }
    forall f: Frame | Encoded(f) == Success(b) ensures IsFrame(b) {
      EncodeThenDecode(f);
    }
  }
}
