/** What the frame decoder says about bytes that are no frame, told from the bytes themselves. */
module FrameDiagnosis {
  import opened Wrappers
  import opened Bytes
  import opened FrameCodec
  import Crc

  predicate SyncIntact(b: bytes)
    requires |b| >= 2
  {
    b[0] == 0xA5 && b[1] == 0x5A
  }

  predicate KnownTypeByte(b: byte) { b == 0x01 || b == 0x10 || b == 0x11 }

  /** The payload length in the header, low byte first. */
  function AnnouncedLength(b: bytes): nat
    requires |b| >= 6
  {
    b[4] as int + 256 * (b[5] as int)
  }

  /** Everything that is looked at before the length field is right. */
  predicate StartIntact(b: bytes)
    requires |b| >= 12
  {
    SyncIntact(b) && b[2] == 1 && KnownTypeByte(b[3])
  }

  /** The last two bytes, low byte first, are the CRC of everything between them and the sync pair. */
  predicate CarriesItsCrc(b: bytes)
    requires |b| >= 12
  {
    var n := |b|;
    Crc.Crc16(b[2..n - 2]) as int == b[n - 2] as int + 256 * (b[n - 1] as int)
  }

  /** Each reason, exactly when it is given. */
  lemma DecodeFailsExactlyWhen(b: bytes)
    ensures Decoded(b) == Failure(Truncated) <==>
      |b| < 12 || (StartIntact(b) && AnnouncedLength(b) <= 64 && |b| < 12 + AnnouncedLength(b))
    ensures Decoded(b) == Failure(BadSync) <==> |b| >= 12 && !SyncIntact(b)
    ensures Decoded(b) == Failure(UnsupportedVersion) <==> |b| >= 12 && SyncIntact(b) && b[2] != 1
    ensures Decoded(b) == Failure(UnsupportedMessageType) <==>
      |b| >= 12 && SyncIntact(b) && b[2] == 1 && !KnownTypeByte(b[3])
    ensures Decoded(b) == Failure(PayloadTooLarge) <==> |b| >= 12 && StartIntact(b) && AnnouncedLength(b) > 64
    ensures Decoded(b) == Failure(LengthMismatch) <==>
      |b| >= 12 && StartIntact(b) && AnnouncedLength(b) <= 64 && |b| > 12 + AnnouncedLength(b)
    ensures Decoded(b) == Failure(CrcMismatch) <==>
      |b| >= 12 && StartIntact(b) && AnnouncedLength(b) <= 64 && |b| == 12 + AnnouncedLength(b) && !CarriesItsCrc(b)
    ensures IsFrame(b) <==>
      |b| >= 12 && StartIntact(b) && AnnouncedLength(b) <= 64 && |b| == 12 + AnnouncedLength(b) && CarriesItsCrc(b)
  {
    hide Crc.Crc16, ValueU32;
  }

  /** Every way to damage a frame has its own name. */
  lemma DamageIsNamed(b: bytes, c: bytes)
    requires IsFrame(b)
    ensures c < b ==> Decoded(c) == Failure(Truncated)
    ensures b < c ==> Decoded(c) == Failure(LengthMismatch)
    ensures |c| >= 12 && c[..2] != b[..2] ==> Decoded(c) == Failure(BadSync)
    ensures |c| >= 12 && c[..2] == b[..2] && c[2] != b[2] ==> Decoded(c) == Failure(UnsupportedVersion)
    ensures |c| >= 12 && c[..3] == b[..3] && !KnownTypeByte(c[3]) ==> Decoded(c) == Failure(UnsupportedMessageType)
    ensures |c| >= 12 && c[..4] == b[..4] && AnnouncedLength(c) > 64 ==> Decoded(c) == Failure(PayloadTooLarge)
    ensures |c| == |b| && c[..6] == b[..6] ==> IsFrame(c) || Decoded(c) == Failure(CrcMismatch)
  {
    DecodeFailsExactlyWhen(b);
    DecodeFailsExactlyWhen(c);
    hide Decoded, IsFrame, CarriesItsCrc;
    if |c| >= 12 {
      SharedStart(b, c);
    }
  }

  lemma SharedStart(b: bytes, c: bytes)
    requires |b| >= 12 && |c| >= 12
    ensures c[..2] == b[..2] <==> c[0] == b[0] && c[1] == b[1]
    ensures c[..3] == b[..3] <==> c[0] == b[0] && c[1] == b[1] && c[2] == b[2]
    ensures c[..4] == b[..4] <==> c[..3] == b[..3] && c[3] == b[3]
    ensures c[..6] == b[..6] ==> c[..4] == b[..4] && c[4] == b[4] && c[5] == b[5]
    ensures b <= c || c <= b ==> c[..6] == b[..6]
  {
    assert b[..2] == [b[0], b[1]] && c[..2] == [c[0], c[1]];
    assert b[..3] == [b[0], b[1], b[2]] && c[..3] == [c[0], c[1], c[2]];
    assert b[..4] == [b[0], b[1], b[2], b[3]] && c[..4] == [c[0], c[1], c[2], c[3]];
    if c[..6] == b[..6] {
      assert c[4] == c[..6][4] && c[5] == c[..6][5];
      assert c[..4] == c[..6][..4];
    }
  }

  /** Why a frame is refused by the encoder: the first of three reasons. */
  lemma EncodeFailsExactlyWhen(f: Frame)
    ensures Encoded(f) == Failure(EncodeVersion) <==> f.version != 1
    ensures Encoded(f) == Failure(EncodeMessageType) <==> f.version == 1 && f.messageType == UnknownType
    ensures Encoded(f) == Failure(EncodePayloadTooLarge) <==>
      f.version == 1 && f.messageType != UnknownType && f.payloadLength > 64
  {}
}
