/**
 * What one pushed byte does to the stream decoder, on values: the buffered bytes go in,
 * and out come the new buffer and the spans of input that were settled on the way.
 */
module StreamMachine {
  import opened Wrappers
  import opened Bytes
  import opened FrameCodec

  datatype StreamEvent =
    | FrameDecoded(frame: bytes)
    | NoiseDiscarded(count: nat)
    | FrameRejected(reason: DecodeError, buffered: bytes)
    | StreamTruncated(buffered: bytes)

  /** A run of input bytes whose fate is settled. `Dropped` bytes leave with a rejection and no noise event. */
  datatype Span =
    | Noise(bytes: bytes)
    | Accepted(frame: bytes)
    | Dropped(bytes: bytes, reason: DecodeError, buffered: bytes)

  datatype Progress = Progress(spans: seq<Span>, buffer: bytes)

  function SpanBytes(s: Span): bytes {
    match s
    case Noise(b) => b
    case Accepted(f) => f
    case Dropped(b, _, _) => b
  }

  function Flatten(spans: seq<Span>): bytes {
    if |spans| == 0 then [] else SpanBytes(spans[0]) + Flatten(spans[1..])
  }

  function EventOf(s: Span): StreamEvent {
    match s
    case Noise(b) => NoiseDiscarded(|b|)
    case Accepted(f) => FrameDecoded(f)
    case Dropped(_, reason, buffered) => FrameRejected(reason, buffered)
  }

  /** The handler calls these spans give rise to, in order. */
  function Events(spans: seq<Span>): (e: seq<StreamEvent>)
    ensures |e| == |spans| && forall k :: 0 <= k < |e| ==> e[k] == EventOf(spans[k])
  {
    seq(|spans|, k requires 0 <= k < |spans| => EventOf(spans[k]))
  }

  /** A frame may start at `i`: the sync pair is there, or the first half of it ends the input. */
  predicate IsCandidate(b: bytes, i: nat)
    requires i < |b|
  {
    b[i] == SYNC_FIRST && (i + 1 < |b| ==> b[i + 1] == SYNC_SECOND)
  }

  /** The first candidate at or after `from`, or the end of the input. */
  function NextCandidate(b: bytes, from: nat): (i: nat)
    requires from <= |b|
    ensures from <= i <= |b|
    ensures i < |b| ==> IsCandidate(b, i)
    ensures forall j :: from <= j < i ==> !IsCandidate(b, j)
    decreases |b| - from
  {
    if from == |b| || IsCandidate(b, from) then from else NextCandidate(b, from + 1)
  }

  datatype Verdict = Incomplete | Accept(size: nat) | Reject(reason: DecodeError)

  /** What the bytes from a candidate onwards amount to. The length field is checked before version and type. */
  function Judge(b: bytes): (v: Verdict)
    ensures v.Incomplete? ==> |b| < MAXIMUM_FRAME_SIZE
    ensures v.Accept? ==> MINIMUM_FRAME_SIZE <= v.size <= |b| && v.size <= MAXIMUM_FRAME_SIZE && IsFrame(b[..v.size])
    ensures v.Reject? ==> |b| >= HEADER_SIZE
  {
    if |b| < HEADER_SIZE then Incomplete
    else if PayloadLength(b) > MAXIMUM_PAYLOAD_SIZE then Reject(PayloadTooLarge)
    else
      var size := MINIMUM_FRAME_SIZE + PayloadLength(b);
      if |b| < size then Incomplete
      else match Decoded(b[..size])
        case Success(_) => Accept(size)
        case Failure(reason) => Reject(reason)
  }

  /** Noise reported when the buffer is realigned after a frame; possibly of zero bytes. */
  function RealignNoise(rest: bytes): seq<Span> {
    var i := NextCandidate(rest, 0);
    if |rest| == 0 || (i == 0 && |rest| >= 2) then [] else [Noise(rest[..i])]
  }

  function After(spans: seq<Span>, p: Progress): Progress {
    Progress(spans + p.spans, p.buffer)
  }

  /** Settles everything that can be settled about a buffer. */
  function Process(b: bytes): Progress
    decreases |b|
  {
    match Judge(b)
    case Incomplete => Progress([], b)
    case Reject(reason) =>
      var i := NextCandidate(b, 1);
      After([Dropped(b[..i], reason, b)], Process(b[i..]))
    case Accept(size) =>
      var rest := b[size..];
      After([Accepted(b[..size])] + RealignNoise(rest), Process(rest[NextCandidate(rest, 0)..]))
  }

  function Push(buffer: bytes, x: byte): Progress {
    var b := buffer + [x];
    if |buffer| < 2 then
      var i := NextCandidate(b, 0);
      Progress(if i == 0 then [] else [Noise(b[..i])], b[i..])
    else Process(b)
  }

  function Feed(buffer: bytes, input: bytes): Progress
    decreases input
  {
    if |input| == 0 then Progress([], buffer)
    else
      var p := Push(buffer, input[0]);
      After(p.spans, Feed(p.buffer, input[1..]))
  }

  /** What a decoder holds between pushes: nothing, or the undecided start of a possible frame. */
  predicate Settled(b: bytes) {
    (|b| > 0 ==> IsCandidate(b, 0)) && Judge(b).Incomplete?
  }

  lemma {:induction false} FeedConcat(buffer: bytes, a: bytes, b: bytes)
    ensures Feed(buffer, a + b) == After(Feed(buffer, a).spans, Feed(Feed(buffer, a).buffer, b))
    decreases a
  {
    hide Push;
    if |a| == 0 {
      assert a + b == b;
    } else {
      assert (a + b)[1..] == a[1..] + b && (a + b)[0] == a[0];
      FeedConcat(Push(buffer, a[0]).buffer, a[1..], b);
    }
  }

  lemma {:induction false} FlattenConcat(a: seq<Span>, b: seq<Span>)
    ensures Flatten(a + b) == Flatten(a) + Flatten(b)
  {
    if |a| == 0 {
      assert a + b == b;
    } else {
      assert (a + b)[1..] == a[1..] + b;
      FlattenConcat(a[1..], b);
    }
  }

  lemma FlattenOne(s: Span)
    ensures Flatten([s]) == SpanBytes(s)
  {
    assert Flatten([s]) == SpanBytes(s) + Flatten([s][1..]);
  }

  lemma AfterTwice(a: seq<Span>, b: seq<Span>, p: Progress)
    ensures After(a, After(b, p)) == After(a + b, p)
  {
    assert a + (b + p.spans) == (a + b) + p.spans;
  }

  lemma AfterNothing(p: Progress)
    ensures After([], p) == p
  {
    assert [] + p.spans == p.spans;
  }

  lemma NoEvents()
    ensures Events([]) == []
  {}

  lemma EventsConcat(a: seq<Span>, b: seq<Span>)
    ensures Events(a + b) == Events(a) + Events(b)
  {}

  lemma OneEvent(s: Span)
    ensures Events([s]) == [EventOf(s)]
  {}

  lemma FeedStep(buffer: bytes, input: bytes, k: nat)
    requires k < |input|
    ensures var p := Push(buffer, input[k]);
      Feed(buffer, input[k..]) == After(p.spans, Feed(p.buffer, input[k + 1..]))
  {
    hide Push;
    assert input[k..][1..] == input[k + 1..];
  }

  lemma FeedNothing(spans: seq<Span>, buffer: bytes)
    ensures After(spans, Feed(buffer, [])) == Progress(spans, buffer)
  {}

  // ----- One turn of the processing loop, on values

  lemma JudgeCases(b: bytes)
    ensures |b| < HEADER_SIZE ==> Judge(b) == Incomplete
    ensures |b| >= HEADER_SIZE && PayloadLength(b) > MAXIMUM_PAYLOAD_SIZE ==> Judge(b) == Reject(PayloadTooLarge)
    ensures |b| >= HEADER_SIZE && PayloadLength(b) <= MAXIMUM_PAYLOAD_SIZE ==>
      var size := MINIMUM_FRAME_SIZE + PayloadLength(b);
      if |b| < size then Judge(b) == Incomplete
      else if Decoded(b[..size]).Success? then Judge(b) == Accept(size)
      else Judge(b) == Reject(Decoded(b[..size]).error)
  {
    hide Decoded;
  }

  lemma ProcessIdle(spans: seq<Span>, b: bytes)
    requires Judge(b) == Incomplete
    ensures After(spans, Process(b)) == Progress(spans, b)
  {}

  lemma ProcessReject(b: bytes, reason: DecodeError)
    requires Judge(b) == Reject(reason)
    ensures var i := NextCandidate(b, 1);
      var dropped := Dropped(b[..i], reason, b);
      && Process(b) == After([dropped], Process(b[i..]))
      && Events([dropped]) == [FrameRejected(reason, b)]
  {
    hide Judge;
  }

  lemma ProcessAccept(b: bytes, size: nat)
    requires Judge(b) == Accept(size)
    ensures var rest := b[size..];
      var settled := [Accepted(b[..size])] + RealignNoise(rest);
      && Process(b) == After(settled, Process(rest[NextCandidate(rest, 0)..]))
      && Events(settled) == [FrameDecoded(b[..size])] + Events(RealignNoise(rest))
  {
    hide Judge, RealignNoise, Events;
    EventsConcat([Accepted(b[..size])], RealignNoise(b[size..]));
    OneEvent(Accepted(b[..size]));
  }

  // ----- Candidates

  lemma NextCandidateIs(b: bytes, from: nat, i: nat)
    requires from <= i <= |b|
    requires i < |b| ==> IsCandidate(b, i)
    requires forall j :: from <= j < i ==> !IsCandidate(b, j)
    ensures NextCandidate(b, from) == i
  {}

  lemma CandidateInFront(b: bytes, i: nat)
    requires i < |b| ==> IsCandidate(b, i)
    requires i <= |b|
    ensures b[i..] != [] ==> IsCandidate(b[i..], 0)
  {}

  lemma CandidateShift(s: bytes, q: nat, k: nat)
    requires q + k <= |s|
    ensures NextCandidate(s, q + k) == q + NextCandidate(s[q..], k)
  {
    var i := NextCandidate(s[q..], k);
    forall j | q + k <= j < q + i ensures !IsCandidate(s, j) {
      assert !IsCandidate(s[q..], j - q);
    }
    NextCandidateIs(s, q + k, q + i);
  }

  // ----- No byte is lost or invented

  lemma RealignConserves(rest: bytes)
    ensures Flatten(RealignNoise(rest)) + rest[NextCandidate(rest, 0)..] == rest
  {
    var i := NextCandidate(rest, 0);
    FlattenOne(Noise(rest[..i]));
  }

  function Whole(p: Progress): bytes { Flatten(p.spans) + p.buffer }

  lemma AfterConserves(spans: seq<Span>, p: Progress)
    ensures Whole(After(spans, p)) == Flatten(spans) + Whole(p)
  {
    FlattenConcat(spans, p.spans);
  }

  lemma {:induction false} ProcessConserves(b: bytes)
    ensures Whole(Process(b)) == b
    decreases |b|
  {
    hide Judge, Whole, Flatten, RealignNoise, NextCandidate, IsFrame;
    match Judge(b)
    case Incomplete =>
      NothingSettled(b);
    case Reject(reason) =>
      var i := NextCandidate(b, 1);
      var dropped := Dropped(b[..i], reason, b);
      ProcessConserves(b[i..]);
      FlattenOne(dropped);
      AfterConserves([dropped], Process(b[i..]));
    case Accept(size) =>
      var rest := b[size..];
      var i := NextCandidate(rest, 0);
      ProcessConserves(rest[i..]);
      RealignConserves(rest);
      FlattenOne(Accepted(b[..size]));
      FlattenConcat([Accepted(b[..size])], RealignNoise(rest));
      AfterConserves([Accepted(b[..size])] + RealignNoise(rest), Process(rest[i..]));
      ConcatAssociates(b[..size], Flatten(RealignNoise(rest)), rest[i..]);
      assert b == b[..size] + rest;
  }

  lemma NothingSettled(b: bytes)
    ensures Whole(Progress([], b)) == b
  {}

  lemma PushConserves(buffer: bytes, x: byte)
    ensures Whole(Push(buffer, x)) == buffer + [x]
  {
    var b := buffer + [x];
    ProcessConserves(b);
    FlattenOne(Noise(b[..NextCandidate(b, 0)]));
  }

  /** The input is the settled spans, in order, followed by exactly what is still buffered. */
  lemma {:induction false} FeedConserves(buffer: bytes, input: bytes)
    ensures Whole(Feed(buffer, input)) == buffer + input
    decreases input
  {
    hide Push, Whole, Flatten;
    if |input| == 0 {
      NothingSettled(buffer);
      assert buffer + input == buffer;
    } else {
      var p := Push(buffer, input[0]);
      PushConserves(buffer, input[0]);
      FeedConserves(p.buffer, input[1..]);
      AfterConserves(p.spans, Feed(p.buffer, input[1..]));
      WholeIs(p);
      ConcatAssociates(Flatten(p.spans), p.buffer, input[1..]);
      ConcatAssociates(buffer, [input[0]], input[1..]);
      assert input == [input[0]] + input[1..];
    }
  }

  lemma WholeIs(p: Progress)
    ensures Whole(p) == Flatten(p.spans) + p.buffer
  {}

  // ----- What the spans can be

  predicate IsRejectReason(reason: DecodeError) {
    || reason == PayloadTooLarge
    || reason == UnsupportedVersion
    || reason == UnsupportedMessageType
    || reason == CrcMismatch
  }

  /** Accepted spans are frames; dropped ones take the failed sync pair along and nothing past the buffer. */
  predicate Proper(s: Span) {
    match s
    case Noise(_) => true
    case Accepted(f) => IsFrame(f)
    case Dropped(b, reason, buffered) => 2 <= |b| && b <= buffered && IsRejectReason(reason)
  }

  lemma RejectReasons(b: bytes)
    requires |b| > 0 && IsCandidate(b, 0) && Judge(b).Reject?
    ensures IsRejectReason(Judge(b).reason)
  {
    hide CrcMatches;
  }

  lemma {:induction false} ProcessIsProper(b: bytes)
    requires |b| > 0 ==> IsCandidate(b, 0)
    ensures forall s :: s in Process(b).spans ==> Proper(s)
    ensures Settled(Process(b).buffer)
    decreases |b|
  {
    hide Judge, NextCandidate, IsFrame;
    match Judge(b)
    case Incomplete =>
    case Reject(reason) =>
      var i := NextCandidate(b, 1);
      RejectReasons(b);
      CandidateInFront(b, i);
      ProcessIsProper(b[i..]);
    case Accept(size) =>
      var rest := b[size..];
      CandidateInFront(rest, NextCandidate(rest, 0));
      ProcessIsProper(rest[NextCandidate(rest, 0)..]);
  }

  lemma PushIsProper(buffer: bytes, x: byte)
    requires Settled(buffer)
    ensures forall s :: s in Push(buffer, x).spans ==> Proper(s)
    ensures Settled(Push(buffer, x).buffer)
  {
    hide NextCandidate, IsFrame;
    var b := buffer + [x];
    if |buffer| < 2 {
      CandidateInFront(b, NextCandidate(b, 0));
    } else {
      assert IsCandidate(b, 0);
      ProcessIsProper(b);
    }
  }

  lemma {:induction false} FeedIsProper(buffer: bytes, input: bytes)
    requires Settled(buffer)
    ensures forall s :: s in Feed(buffer, input).spans ==> Proper(s)
    ensures Settled(Feed(buffer, input).buffer)
    decreases input
  {
    hide Push, Settled, Proper;
    if |input| > 0 {
      var p := Push(buffer, input[0]);
      PushIsProper(buffer, input[0]);
      FeedIsProper(p.buffer, input[1..]);
    }
  }

  lemma EmptyIsSettled()
    ensures Settled([])
  {}

  /** Between pushes: a proper prefix of a possible frame, with its whole size known once the header is in. */
  lemma SettledMeans(b: bytes)
    ensures Settled(b) <==>
      && (|b| > 0 ==> b[0] == SYNC_FIRST) && (|b| > 1 ==> b[1] == SYNC_SECOND)
      && (|b| >= HEADER_SIZE ==>
            PayloadLength(b) <= MAXIMUM_PAYLOAD_SIZE && |b| < MINIMUM_FRAME_SIZE + PayloadLength(b))
  {
    hide Decoded;
    JudgeCases(b);
  }

  /** Realigning reports zero bytes exactly if all that is left is the first half of a sync pair. */
  lemma RealignIsEmpty(rest: bytes)
    ensures Noise([]) in RealignNoise(rest) <==> rest == [SYNC_FIRST]
  {
    var i := NextCandidate(rest, 0);
    if rest == [SYNC_FIRST] {
      NextCandidateIs(rest, 0, 0);
    }
    if Noise([]) in RealignNoise(rest) {
      assert |rest[..i]| == 0;
      assert rest == [rest[0]];
    }
  }
}
