/** Exactly which received streams leave the ground processor's malformed-input flag down. */
module CleanStreams {
  import opened Wrappers
  import opened Bytes
  import opened FrameCodec
  import opened StreamMachine
  import opened GroundClient
  import CommandCodec
  import TelemetryCodec

  /** Everything the ground processor does with a stream that is fed to it and then finished. */
  function Session(input: bytes): seq<Outcome> {
    var p := Feed([], input);
    Outcomes(Events(p.spans)) + (if p.buffer == [] then [] else [Complained(TruncatedAtEnd)])
  }

  // ----- Lines and complaints of a whole session

  lemma {:induction false} NoComplaintsMeansPrinted(outcomes: seq<Outcome>)
    ensures Complaints(outcomes) == [] <==> forall k :: 0 <= k < |outcomes| ==> outcomes[k].Printed?
    decreases |outcomes|
  {
    if |outcomes| > 0 {
      var before := Before(outcomes);
      NoComplaintsMeansPrinted(before);
      assert forall k :: 0 <= k < |before| ==> before[k] == outcomes[k];
      assert outcomes == before + [Last(outcomes)];
    }
  }

  lemma {:induction false} PrintedLines(outcomes: seq<Outcome>)
    requires forall k :: 0 <= k < |outcomes| ==> outcomes[k].Printed?
    ensures |Lines(outcomes)| == |outcomes|
    ensures forall k :: 0 <= k < |outcomes| ==> outcomes[k] == Printed(Lines(outcomes)[k])
    decreases |outcomes|
  {
    if |outcomes| > 0 {
      PrintedLines(Before(outcomes));
      assert outcomes == Before(outcomes) + [Last(outcomes)];
    }
  }

  /** The bytes a message is sent as. */
  function Wire(m: Message): Option<bytes> {
    match m
    case TelemetryLine(t) =>
      (match TelemetryCodec.EncodedTelemetry(t)
       case Success(b) => Some(b)
       case Failure(_) => None)
    case AckLine(a) =>
      match CommandCodec.EncodedAck(a)
      case Success(b) => Some(b)
      case Failure(_) => None
  }

  /** The messages one after the other; nothing if one of them cannot be sent. */
  function WireAll(ms: seq<Message>): Option<bytes> {
    if |ms| == 0 then Some([])
    else match (Wire(ms[0]), WireAll(ms[1..]))
      case (Some(b), Some(rest)) => Some(b + rest)
      case _ => None
  }

  // ----- One frame

  /** The processor prints a message for exactly the frame the message is sent as. */
  lemma PrintedExactlyWhenSent(f: bytes, m: Message)
    ensures FrameOutcome(f) == Printed(m) <==> Wire(m) == Some(f)
  {
    if FrameOutcome(f) == Printed(m) {
      PrintedWasSent(f, m);
    }
    if Wire(m) == Some(f) {
      SentIsPrinted(m);
    }
  }

  lemma TypeByteOfFrame(f: bytes)
    requires IsFrame(f)
    ensures |f| > 3 && ByteToType(f[3]) == Some(Decoded(f).value.messageType)
  {}

  lemma PrintedWasSent(f: bytes, m: Message)
    requires FrameOutcome(f) == Printed(m)
    ensures Wire(m) == Some(f)
  {
    TypeByteOfFrame(f);
    hide Decoded, TelemetryCodec.DecodedTelemetry, CommandCodec.DecodedAck;
    hide TelemetryCodec.EncodedTelemetry, CommandCodec.EncodedAck;
    match m
    case TelemetryLine(t) => TelemetryCodec.DecodeTelemetryThenEncode(f);
    case AckLine(a) => CommandCodec.DecodeAckThenEncode(f);
  }

  lemma TelemetryIsTyped(t: TelemetryCodec.T.Message)
    requires TelemetryCodec.EncodedTelemetry(t).Success?
    ensures var b := TelemetryCodec.EncodedTelemetry(t).value;
      Decoded(b).Success? && Decoded(b).value.messageType == Telemetry
  {
    var f := TelemetryCodec.TelemetryFrame(t, TelemetryCodec.ModeToByte(t.snapshot.flightMode).value);
    hide Encoded, Decoded, TelemetryCodec.PayloadOf;
    EncodeThenDecode(f);
  }

  lemma AckIsTyped(a: CommandCodec.AckMessage)
    requires CommandCodec.EncodedAck(a).Success?
    ensures var b := CommandCodec.EncodedAck(a).value;
      Decoded(b).Success? && Decoded(b).value.messageType == CommandAck
  {
    hide Encoded, Decoded;
    CommandCodec.FrameWithRoundTrip(CommandAck, a.sequence,
      [CommandCodec.CommandToByte(a.command).value, CommandCodec.StatusToByte(a.status).value]);
  }

  lemma SentIsPrinted(m: Message)
    requires Wire(m).Some?
    ensures IsFrame(Wire(m).value) && FrameOutcome(Wire(m).value) == Printed(m)
  {
    hide Decoded, TelemetryCodec.DecodedTelemetry, CommandCodec.DecodedAck;
    hide TelemetryCodec.EncodedTelemetry, CommandCodec.EncodedAck;
    match m
    case TelemetryLine(t) =>
      TelemetryIsTyped(t);
      TelemetryCodec.EncodeTelemetryThenDecode(t);
    case AckLine(a) =>
      AckIsTyped(a);
      CommandCodec.EncodeAckThenDecode(a);
  }

  // ----- A frame into an empty decoder

  lemma FramePrefix(f: bytes, k: nat)
    requires IsFrame(f) && 0 < k <= |f|
    ensures IsCandidate(f[..k], 0)
    ensures Judge(f[..k]) == if k == |f| then Accept(|f|) else Incomplete
  {
    hide CrcMatches;
    var b := f[..k];
    assert |f| >= MINIMUM_FRAME_SIZE && |f| == MINIMUM_FRAME_SIZE + PayloadLength(f);
    if k >= HEADER_SIZE {
      assert PayloadLength(b) == PayloadLength(f);
    }
    if k == |f| {
      assert b == f && f[..|f|] == f;
    }
  }

  lemma {:induction false} PartOfFrame(f: bytes, k: nat)
    requires IsFrame(f) && k < |f|
    ensures Feed([], f[..k]) == Progress([], f[..k])
    decreases k
  {
    hide IsFrame, Judge, Feed;
    if k == 0 {
      FeedNothing([], []);
      AfterNothing(Feed([], []));
    } else {
      PartOfFrame(f, k - 1);
      FramePrefix(f, k);
      assert f[..k - 1] + [f[k - 1]] == f[..k];
      NextByte(f[..k - 1], f[k - 1]);
    }
  }

  /** One more byte that leaves the buffer an undecided candidate. */
  lemma NextByte(buffer: bytes, x: byte)
    requires Feed([], buffer) == Progress([], buffer)
    requires IsCandidate(buffer + [x], 0) && Judge(buffer + [x]) == Incomplete
    ensures Feed([], buffer + [x]) == Progress([], buffer + [x])
  {
    var b := buffer + [x];
    FeedConcat([], buffer, [x]);
    FeedOne(buffer, x);
    hide Judge, Feed;
    NextCandidateIs(b, 0, 0);
  }

  lemma FeedOne(buffer: bytes, x: byte)
    ensures Feed(buffer, [x]) == Push(buffer, x)
  {
    hide Push;
    var p := Push(buffer, x);
    assert [x][1..] == [];
    assert After(p.spans, Progress([], p.buffer)) == p;
  }

  /** One more byte into a buffer that holds the sync pair already. */
  lemma NextProcessed(buffer: bytes, x: byte)
    requires Feed([], buffer) == Progress([], buffer) && |buffer| >= 2
    ensures Feed([], buffer + [x]) == Process(buffer + [x])
  {
    hide Feed, Process;
    FeedConcat([], buffer, [x]);
    FeedOne(buffer, x);
    AfterNothing(Process(buffer + [x]));
  }

  lemma ProcessWhole(f: bytes)
    requires Judge(f) == Accept(|f|)
    ensures Process(f) == Progress([Accepted(f)], [])
  {
    hide Judge, Process, NextCandidate, RealignNoise, IsFrame, IsCandidate;
    ProcessAccept(f, |f|);
    assert f[..|f|] == f && f[|f|..] == [];
    EmptyProcess();
    var nothing: bytes := [];
    assert nothing[0..] == nothing;
    assert After([Accepted(f)] + [], Progress([], [])) == Progress([Accepted(f)], []);
  }

  lemma SplitLast(f: bytes)
    requires |f| > 0
    ensures f[..|f| - 1] + [f[|f| - 1]] == f && f[..|f|] == f
  {}

  lemma WholeFrame(f: bytes)
    requires IsFrame(f)
    ensures Feed([], f) == Progress([Accepted(f)], [])
  {
    FrameStarts(f);
    hide IsFrame, Judge, Feed, Process, IsCandidate;
    var n := |f| - 1;
    PartOfFrame(f, n);
    FramePrefix(f, |f|);
    SplitLast(f);
    NextProcessed(f[..n], f[n]);
    ProcessWhole(f);
  }

  lemma EmptyProcess()
    ensures Process([]) == Progress([], []) && RealignNoise([]) == [] && NextCandidate([], 0) == 0
  {}

  /** Messages sent back to back are decoded one by one, with nothing left over. */
  lemma {:induction false} SentStreamIsFrames(ms: seq<Message>)
    requires WireAll(ms).Some?
    ensures var p := Feed([], WireAll(ms).value);
      p.buffer == [] && Outcomes(Events(p.spans)) == seq(|ms|, k requires 0 <= k < |ms| => Printed(ms[k]))
    decreases ms
  {
    hide Wire, Feed, FrameOutcome, IsFrame;
    if |ms| == 0 {
      FeedNothing([], []);
      AfterNothing(Feed([], []));
    } else {
      var f, rest := Wire(ms[0]).value, WireAll(ms[1..]).value;
      SentStreamIsFrames(ms[1..]);
      SentIsPrinted(ms[0]);
      WholeFrame(f);
      FeedConcat([], f, rest);
      var p := Feed([], rest);
      assert Feed([], f + rest) == After([Accepted(f)], p);
      EventsConcat([Accepted(f)], p.spans);
      OneEvent(Accepted(f));
      var events := Events(Feed([], f + rest).spans);
      assert events == [FrameDecoded(f)] + Events(p.spans);
      assert Outcomes(events) == [Printed(ms[0])] + Outcomes(Events(p.spans));
    }
  }

  /** If every span is a frame that prints, the spans are what the printed messages are sent as. */
  lemma {:induction false} PrintedSpansWereSent(spans: seq<Span>, ms: seq<Message>)
    requires |ms| == |spans|
    requires forall k :: 0 <= k < |spans| ==> EventOutcome(EventOf(spans[k])) == Printed(ms[k])
    ensures WireAll(ms) == Some(Flatten(spans))
    decreases spans
  {
    hide FrameOutcome, Wire;
    if |spans| > 0 {
      assert EventOutcome(EventOf(spans[0])) == Printed(ms[0]);
      PrintedExactlyWhenSent(spans[0].frame, ms[0]);
      PrintedSpansWereSent(spans[1..], ms[1..]);
    }
  }

  /**
   * The flag stays down exactly for the streams that are some telemetry and acknowledgement
   * messages sent back to back, and then those messages are what has been printed.
   */
  lemma CleanExactlyWhen(input: bytes)
    ensures Complaints(Session(input)) == [] <==> exists ms :: WireAll(ms) == Some(input)
    ensures forall ms :: WireAll(ms) == Some(input) ==> Lines(Session(input)) == ms
  {
    hide Feed, FrameOutcome, WireAll, Flatten, Lines, Complaints;
    var p := Feed([], input);
    NoComplaintsMeansPrinted(Session(input));
    assert p.buffer != [] ==> Session(input)[|p.spans|] == Complained(TruncatedAtEnd);
    if Complaints(Session(input)) == [] {
      var ms := Lines(Session(input));
      PrintedLines(Session(input));
      assert Session(input) == Outcomes(Events(p.spans));
      forall k | 0 <= k < |p.spans| ensures EventOutcome(EventOf(p.spans[k])) == Printed(ms[k]) {
        assert Session(input)[k] == Outcomes(Events(p.spans))[k];
      }
      PrintedSpansWereSent(p.spans, ms);
      FeedConserves([], input);
      WholeIs(p);
      assert Flatten(p.spans) + [] == Flatten(p.spans) && [] + input == input;
      assert WireAll(ms) == Some(input);
    }
    forall ms | WireAll(ms) == Some(input)
      ensures Complaints(Session(input)) == [] && Lines(Session(input)) == ms
    {
      SentStreamIsFrames(ms);
      assert Session(input) == seq(|ms|, k requires 0 <= k < |ms| => Printed(ms[k]));
      PrintedLines(Session(input));
      assert forall k :: 0 <= k < |ms| ==> Lines(Session(input))[k] == ms[k];
    }
  }

  lemma ProperIsNotMalformed(s: Span)
    requires Proper(s)
    ensures EventOutcome(EventOf(s)) != Complained(MalformedFrame)
  {
    hide Decoded, TelemetryCodec.DecodedTelemetry, CommandCodec.DecodedAck;
  }

  /** Whatever comes in, a frame handed over by the decoder is never found malformed by the processor. */
  lemma FramesAreNeverMalformed(input: bytes)
    ensures Complained(MalformedFrame) !in Session(input)
  {
    hide Feed, Settled, Proper, FrameOutcome;
    EmptyIsSettled();
    FeedIsProper([], input);
    var p := Feed([], input);
    forall k | 0 <= k < |p.spans| ensures Session(input)[k] != Complained(MalformedFrame) {
      ProperIsNotMalformed(p.spans[k]);
    }
  }

  // ----- Reading a whole file

  lemma {:induction false} LinesConcat(a: seq<Outcome>, b: seq<Outcome>)
    ensures Lines(a + b) == Lines(a) + Lines(b)
    ensures Complaints(a + b) == Complaints(a) + Complaints(b)
    decreases |b|
  {
    if |b| == 0 {
      assert a + b == a;
    } else {
      assert Before(a + b) == a + Before(b) && Last(a + b) == Last(b);
      LinesConcat(a, Before(b));
    }
  }

  /** What has been printed and complained about before the end of the input. */
  function Progressed(input: bytes): seq<Outcome> { Outcomes(Events(Feed([], input).spans)) }

  lemma FeedOutcomes(a: bytes, b: bytes)
    ensures Progressed(a + b) == Progressed(a) + Outcomes(Events(Feed(Feed([], a).buffer, b).spans))
    ensures Feed([], a + b).buffer == Feed(Feed([], a).buffer, b).buffer
  {
    hide Feed, FrameOutcome;
    FeedConcat([], a, b);
    EventsConcat(Feed([], a).spans, Feed(Feed([], a).buffer, b).spans);
  }

  lemma NothingProgressed()
    ensures Progressed([]) == [] && Feed([], []).buffer == []
  {}

  /** The chunks read so far, one after the other. */
  function Joined(chunks: seq<bytes>): bytes
    decreases |chunks|
  {
    if |chunks| == 0 then [] else Joined(Before(chunks)) + Last(chunks)
  }

  /**
   * Decoding a file that is read in chunks. The exit status is zero exactly if the file is
   * one or more messages back to back, and then those messages are what was printed.
   */
  method RunOffline(chunks: seq<bytes>) returns (status: nat, printed: seq<Message>)
    ensures status == 0 <==> exists ms :: ms != [] && WireAll(ms) == Some(Joined(chunks))
    ensures forall ms :: WireAll(ms) == Some(Joined(chunks)) ==> printed == ms
    ensures printed == Lines(Session(Joined(chunks)))
  {
    hide Feed, Progressed, Outcomes, Lines, Complaints, WireAll, Events;
    var processor := new GroundStreamProcessor();
    NothingProgressed();
    NoOutcomes();
    for k := 0 to |chunks|
      invariant processor.Valid() && fresh(processor) && fresh(processor.decoder) && fresh(processor.decoder.buffer)
      invariant processor.decoder.Buffered() == Feed([], Joined(chunks[..k])).buffer
      invariant processor.output == Lines(Progressed(Joined(chunks[..k])))
      invariant processor.errors == Complaints(Progressed(Joined(chunks[..k])))
    {
      var before := Joined(chunks[..k]);
      FeedOutcomes(before, chunks[k]);
      LinesConcat(Progressed(before), Outcomes(Events(Feed(Feed([], before).buffer, chunks[k]).spans)));
      assert Before(chunks[..k + 1]) == chunks[..k] && Last(chunks[..k + 1]) == chunks[k];
      processor.FeedBytes(chunks[k]);
    }
    assert chunks[..|chunks|] == chunks;
    processor.FinishStream();
    printed := processor.output;
    SessionEnds(Joined(chunks));
    CleanExactlyWhen(Joined(chunks));
    status := if processor.decodedMessages == 0 || processor.malformedInput then 1 else 0;
  }

  lemma SessionEnds(input: bytes)
    ensures Lines(Session(input)) == Lines(Progressed(input))
    ensures Complaints(Session(input)) ==
      Complaints(Progressed(input)) + if Feed([], input).buffer == [] then [] else [TruncatedAtEnd]
  {
    hide Feed, Outcomes, Events;
    var tail := if Feed([], input).buffer == [] then [] else [Complained(TruncatedAtEnd)];
    LinesConcat(Progressed(input), tail);
    OneOutcome(Complained(TruncatedAtEnd));
  }
}
