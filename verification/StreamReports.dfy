/** What the handler of the stream decoder is told: noise counts, reasons, and the bytes of a rejection. */
module StreamReports {
  import opened Bytes
  import opened FrameCodec
  import opened FrameDiagnosis
  import opened StreamMachine
  import opened BatchScanner
  import opened StreamGuarantees
  import opened FrameStreamDecoder

  // ----- Noise counts

  /** How many bytes the handler is told were discarded as noise. */
  function Reported(events: seq<StreamEvent>): nat {
    if |events| == 0 then 0 else (if events[0].NoiseDiscarded? then events[0].count else 0) + Reported(events[1..])
  }

  lemma {:induction false} ReportedIsNoise(spans: seq<Span>)
    ensures Reported(Events(spans)) == NoiseBytes(spans)
    decreases spans
  {
    if |spans| > 0 {
      assert Events(spans)[0] == EventOf(spans[0]) && Events(spans)[1..] == Events(spans[1..]);
      ReportedIsNoise(spans[1..]);
    }
  }

  /** The reported noise, the delivered frames, the bytes dropped with rejections and the buffer make up the input. */
  lemma ReportsAccountForBytes(input: bytes)
    ensures var p := Feed([], input);
      Reported(Events(p.spans)) + FrameBytes(Decisions(input)) + DroppedBytes(p.spans) + |p.buffer| == |input|
  {
    hide Feed, Events, Reported, NoiseBytes, FrameBytes, DroppedBytes, Decisions;
    ReportedIsNoise(Feed([], input).spans);
    BytesAreAccountedFor(input);
  }

  predicate IsRejection(e: StreamEvent) { e.FrameRejected? }

  /**
   * Between sync-free gaps every frame is handed over, nothing is rejected, and exactly the
   * gaps are reported or left in the buffer.
   */
  lemma GapsAreReported(segments: seq<Segment>, tail: bytes)
    requires Deliverable(segments) && NoSyncPair(tail)
    ensures var p := Feed([], Assemble(segments) + tail);
      && Announced(Events(p.spans)) == WithoutPositions(Expected(segments, 0))
      && (forall e :: e in Events(p.spans) ==> !IsRejection(e))
      && Reported(Events(p.spans)) + |p.buffer| == GapBytes(segments) + |tail|
  {
    hide Feed, Reported, NoiseBytes, Assemble, Expected, GapBytes, NoSyncPair, Deliverable, Scan, Announced, Findings;
    var input := Assemble(segments) + tail;
    var spans := Feed([], input).spans;
    DeliveryThroughNoise(segments, tail);
    ReportedIsNoise(spans);
    EventsAnnounceFindings(spans, 0);
    forall e | e in Events(spans) ensures !IsRejection(e) {
      var k :| 0 <= k < |spans| && Events(spans)[k] == e;
      assert e == EventOf(spans[k]) && spans[k] in spans;
    }
  }

  // ----- Reasons

  /** The header and all bytes it announces are there. */
  predicate Complete(b: bytes) {
    |b| >= 6 && AnnouncedLength(b) <= 64 && |b| >= 12 + AnnouncedLength(b)
  }

  /** What about these bytes calls for a rejection, and with which reason. The length is looked at first. */
  predicate CallsFor(b: bytes, reason: DecodeError) {
    match reason
    case PayloadTooLarge => |b| >= 6 && AnnouncedLength(b) > 64
    case UnsupportedVersion => Complete(b) && b[2] != 1
    case UnsupportedMessageType => Complete(b) && b[2] == 1 && !KnownTypeByte(b[3])
    case CrcMismatch =>
      Complete(b) && b[2] == 1 && KnownTypeByte(b[3]) && !CarriesItsCrc(b[..12 + AnnouncedLength(b)])
    case _ => false
  }

  lemma JudgeCallsFor(b: bytes, reason: DecodeError)
    requires |b| >= 2 && SyncIntact(b)
    ensures Judge(b) == Reject(reason) <==> CallsFor(b, reason)
  {
    JudgeCases(b);
    if |b| >= 6 {
      assert PayloadLength(b) == AnnouncedLength(b);
    }
    if Complete(b) {
      var c := b[..12 + AnnouncedLength(b)];
      assert forall k :: 0 <= k < 6 ==> c[k] == b[k];
      DecodeFailsExactlyWhen(c);
    }
    hide Judge, Decoded, CarriesItsCrc, IsFrame;
  }

  /** Every rejection and its reason, from the input alone. */
  lemma RejectedExactlyWhen(input: bytes, p: nat, reason: DecodeError)
    ensures Rejection(p, reason) in Decisions(input) <==>
      Reached(input, p) && SyncPairAt(input, p) && CallsFor(input[p..], reason)
  {
    hide Decisions, Reached, Judge, CallsFor;
    DecidedExactlyWhen(input, Rejection(p, reason));
    if SyncPairAt(input, p) {
      JudgeCallsFor(input[p..], reason);
      if CallsFor(input[p..], reason) && p < |input| {
        RejectReasons(input[p..]);
      }
    }
  }

  lemma DamageCallsForCrc(b: bytes, c: bytes, more: bytes)
    requires IsFrame(b) && |c| == |b| && c[..6] == b[..6] && !IsFrame(c)
    ensures |c| >= 12 && SyncIntact(c) && CallsFor(c + more, CrcMismatch)
  {
    DamageIsNamed(b, c);
    DecodeFailsExactlyWhen(c);
    hide IsFrame, Decoded, CarriesItsCrc;
    var rest := c + more;
    assert rest[..|c|] == c;
    assert forall k :: 0 <= k < 6 ==> rest[k] == c[k];
  }

  /** A frame damaged behind its header, where the decoder comes to it, is refused for its CRC. */
  lemma DamageIsReported(input: bytes, p: nat, b: bytes, c: bytes)
    requires IsFrame(b) && |c| == |b| && c[..6] == b[..6] && !IsFrame(c)
    requires p + |c| <= |input| && input[p..p + |c|] == c && Reached(input, p)
    ensures Rejection(p, CrcMismatch) in Decisions(input)
  {
    hide Decisions, Reached, IsFrame, CallsFor;
    DamageCallsForCrc(b, c, input[p + |c|..]);
    assert input[p..] == c + input[p + |c|..];
    assert input[p] == c[0] && input[p + 1] == c[1];
    RejectedExactlyWhen(input, p, CrcMismatch);
  }

  // ----- The bytes a rejection hands over

  /** Each rejection among these spans of `whole` hands over all that is held then: everything from its own start on. */
  predicate HandsOverRest(spans: seq<Span>, whole: bytes)
    decreases spans
  {
    |spans| > 0 ==>
      && (spans[0].Dropped? ==> EventOf(spans[0]) == FrameRejected(spans[0].reason, whole))
      && |SpanBytes(spans[0])| <= |whole|
      && HandsOverRest(spans[1..], whole[|SpanBytes(spans[0])|..])
  }

  lemma HandsOverCons(s: Span, more: seq<Span>, whole: bytes)
    requires |SpanBytes(s)| <= |whole| && (s.Dropped? ==> s.buffered == whole)
    requires HandsOverRest(more, whole[|SpanBytes(s)|..])
    ensures HandsOverRest([s] + more, whole)
  {
    assert ([s] + more)[1..] == more;
  }

  lemma HandsOverRealigned(rest: bytes, more: seq<Span>)
    requires HandsOverRest(more, rest[NextCandidate(rest, 0)..])
    ensures HandsOverRest(RealignNoise(rest) + more, rest)
  {
    hide NextCandidate, HandsOverRest;
    var i := NextCandidate(rest, 0);
    if RealignNoise(rest) == [] {
      assert [] + more == more;
      assert rest[i..] == rest;
    } else {
      HandsOverCons(Noise(rest[..i]), more, rest);
    }
  }

  lemma {:induction false} ProcessHandsOver(b: bytes)
    ensures HandsOverRest(Process(b).spans, b)
    decreases |b|
  {
    hide Judge, NextCandidate, RealignNoise, IsFrame, HandsOverRest, Process;
    match Judge(b)
    case Incomplete =>
      ProcessIdle([], b);
      AfterNothing(Process(b));
      NothingHandedOver(b);
    case Reject(reason) =>
      var i := NextCandidate(b, 1);
      ProcessReject(b, reason);
      ProcessHandsOver(b[i..]);
      HandsOverCons(Dropped(b[..i], reason, b), Process(b[i..]).spans, b);
    case Accept(size) =>
      var rest := b[size..];
      var more := Process(rest[NextCandidate(rest, 0)..]).spans;
      ProcessAccept(b, size);
      ProcessHandsOver(rest[NextCandidate(rest, 0)..]);
      HandsOverRealigned(rest, more);
      HandsOverCons(Accepted(b[..size]), RealignNoise(rest) + more, b);
      assert [Accepted(b[..size])] + RealignNoise(rest) + more == [Accepted(b[..size])] + (RealignNoise(rest) + more);
  }

  lemma NothingHandedOver(b: bytes)
    ensures HandsOverRest([], b)
  {}

  /** Whatever one byte sets off, each rejection reports the whole buffer of its moment. */
  lemma RejectionsHandOverBuffer(buffer: bytes, x: byte)
    ensures HandsOverRest(Push(buffer, x).spans, buffer + [x])
  {
    hide NextCandidate, Process, HandsOverRest;
    var b := buffer + [x];
    ProcessHandsOver(b);
    NothingHandedOver(b[NextCandidate(b, 0)..]);
    NothingHandedOver(b);
    if |buffer| < 2 && NextCandidate(b, 0) > 0 {
      HandsOverCons(Noise(b[..NextCandidate(b, 0)]), [], b);
      assert [Noise(b[..NextCandidate(b, 0)])] + [] == [Noise(b[..NextCandidate(b, 0)])];
    }
  }

  // ----- The object itself, from the first byte to the end of the stream

  /** A whole stream through one decoder: what it settles is reported, what is left at the end is reported truncated. */
  method DecodeStream(input: bytes) returns (events: seq<StreamEvent>)
    ensures var p, settled := Feed([], input), SettledBytes(input);
      events == Events(p.spans) + if settled < |input| then [StreamTruncated(input[settled..])] else []
  {
    hide Feed, Events, Settled, Decisions;
    var decoder := new Decoder();
    events := decoder.PushBytes(input);
    BufferIsRest(input);
    var last := decoder.Finish();
    events := events + last;
  }

  lemma BufferIsRest(input: bytes)
    ensures Feed([], input).buffer == input[SettledBytes(input)..]
  {
    hide Feed, SettledBytes, Scan, Findings, Decisions;
    StreamIsScan(input);
    DecisionsAreScan(input);
  }
}
