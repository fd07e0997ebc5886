/** The ground side: turning a received stream into printed messages, counting them, and flagging anything else. */
module GroundClient {
  import opened Wrappers
  import opened Bytes
  import opened FrameCodec
  import opened StreamMachine
  import FrameStreamDecoder
  import CommandCodec
  import TelemetryCodec
  import T = Telemetry

  /** A line written to the output. */
  datatype Message = TelemetryLine(telemetry: T.Message) | AckLine(ack: CommandCodec.AckMessage)

  /** A line written to the error output. */
  datatype Complaint =
    | NoiseDropped(count: nat)
    | TruncatedAtEnd
    | FrameRefused
    | MalformedFrame
    | MalformedTelemetry
    | MalformedAck
    | UnexpectedCommand

  datatype Outcome = Printed(message: Message) | Complained(complaint: Complaint)

  /** What the processor does with one frame handed over by the decoder. */
  function FrameOutcome(f: bytes): Outcome {
    match Decoded(f)
    case Failure(_) => Complained(MalformedFrame)
    case Success(frame) =>
      match frame.messageType
      case Telemetry =>
        (match TelemetryCodec.DecodedTelemetry(f)
         case Success(m) => Printed(TelemetryLine(m))
         case Failure(_) => Complained(MalformedTelemetry))
      case CommandAck =>
        (match CommandCodec.DecodedAck(f)
         case Success(a) => Printed(AckLine(a))
         case Failure(_) => Complained(MalformedAck))
      case _ => Complained(UnexpectedCommand)
  }

  function EventOutcome(e: StreamEvent): Outcome {
    match e
    case FrameDecoded(f) => FrameOutcome(f)
    case NoiseDiscarded(n) => Complained(NoiseDropped(n))
    case FrameRejected(_, _) => Complained(FrameRefused)
    case StreamTruncated(_) => Complained(TruncatedAtEnd)
  }

  function Outcomes(events: seq<StreamEvent>): (o: seq<Outcome>)
    ensures |o| == |events|
    ensures forall k :: 0 <= k < |o| ==> o[k] == EventOutcome(events[k])
  {
    seq(|events|, k requires 0 <= k < |events| => EventOutcome(events[k]))
  }

  function Lines(outcomes: seq<Outcome>): seq<Message>
    decreases |outcomes|
  {
    if |outcomes| == 0 then []
    else Lines(Before(outcomes)) + (if Last(outcomes).Printed? then [Last(outcomes).message] else [])
  }

  function Complaints(outcomes: seq<Outcome>): seq<Complaint>
    decreases |outcomes|
  {
    if |outcomes| == 0 then []
    else Complaints(Before(outcomes)) + (if Last(outcomes).Complained? then [Last(outcomes).complaint] else [])
  }

  lemma NoOutcomes()
    ensures Lines([]) == [] && Complaints([]) == []
  {}

  lemma OneMoreOutcome(outcomes: seq<Outcome>, k: nat)
    requires k < |outcomes|
    ensures var o := outcomes[k];
      && Lines(outcomes[..k + 1]) == Lines(outcomes[..k]) + (if o.Printed? then [o.message] else [])
      && Complaints(outcomes[..k + 1]) == Complaints(outcomes[..k]) + (if o.Complained? then [o.complaint] else [])
  {
    assert Before(outcomes[..k + 1]) == outcomes[..k];
  }

  class GroundStreamProcessor {
    const decoder: FrameStreamDecoder.Decoder
    var output: seq<Message>
    var errors: seq<Complaint>
    var decodedMessages: nat
    var malformedInput: bool

    /** The counter counts the printed messages, and the flag is up once anything was complained about. */
    ghost predicate Valid()
      reads this, decoder, decoder.buffer
    {
      decoder.Valid() && decodedMessages == |output| && malformedInput == (errors != [])
    }

    constructor ()
      ensures Valid() && decoder.Buffered() == [] && output == [] && errors == []
      ensures fresh(decoder) && fresh(decoder.buffer)
    {
      decoder := new FrameStreamDecoder.Decoder();
      output := [];
      errors := [];
      decodedMessages := 0;
      malformedInput := false;
    }

    method FeedBytes(input: seq<byte>)
      requires Valid()
      modifies this, decoder, decoder.buffer
      ensures Valid()
      ensures var p := Feed(old(decoder.Buffered()), input);
        && decoder.Buffered() == p.buffer
        && output == old(output) + Lines(Outcomes(Events(p.spans)))
        && errors == old(errors) + Complaints(Outcomes(Events(p.spans)))
    {
      hide Feed, Events;
      var events := decoder.PushBytes(input);
      HandleEvents(events);
    }

    method FinishStream()
      requires Valid()
      modifies this, decoder
      ensures Valid() && decoder.Buffered() == []
      ensures output == old(output)
      ensures errors == old(errors) + if old(decoder.Buffered()) == [] then [] else [TruncatedAtEnd]
    {
      ghost var b := decoder.Buffered();
      var events := decoder.Finish();
      HandleEvents(events);
      if b != [] {
        OneOutcome(EventOutcome(StreamTruncated(b)));
        assert Outcomes(events) == [EventOutcome(StreamTruncated(b))];
      }
    }

    method HandleEvents(events: seq<StreamEvent>)
      requires decodedMessages == |output| && malformedInput == (errors != [])
      modifies this
      ensures decodedMessages == |output| && malformedInput == (errors != [])
      ensures output == old(output) + Lines(Outcomes(events))
      ensures errors == old(errors) + Complaints(Outcomes(events))
    {
      hide EventOutcome, Outcomes, Lines, Complaints;
      ghost var outcomes := Outcomes(events);
      NoOutcomes();
      for k := 0 to |events|
        invariant decodedMessages == |output| && malformedInput == (errors != [])
        invariant output == old(output) + Lines(outcomes[..k])
        invariant errors == old(errors) + Complaints(outcomes[..k])
      {
        HandleEvent(events[k]);
        OneMoreOutcome(outcomes, k);
      }
      assert outcomes[..|events|] == outcomes;
    }

    method HandleEvent(event: StreamEvent)
      modifies this
      ensures var o := EventOutcome(event);
        && output == (if o.Printed? then old(output) + [o.message] else old(output))
        && decodedMessages == old(decodedMessages) + (if o.Printed? then 1 else 0)
        && errors == (if o.Complained? then old(errors) + [o.complaint] else old(errors))
        && malformedInput == (old(malformedInput) || o.Complained?)
    {
      hide Decoded, TelemetryCodec.DecodedTelemetry, CommandCodec.DecodedAck;
      match event
      case NoiseDiscarded(n) => Complain(NoiseDropped(n));
      case FrameRejected(_, _) => Complain(FrameRefused);
      case StreamTruncated(_) => Complain(TruncatedAtEnd);
      case FrameDecoded(f) =>
        var frame := Decode(f);
        if frame.Failure? {
          Complain(MalformedFrame);
          return;
        }
        match frame.value.messageType {
          case Telemetry => PrintTelemetry(f);
          case CommandAck => PrintAck(f);
          case _ => Complain(UnexpectedCommand);
        }
    }

    method PrintTelemetry(f: bytes)
      modifies this
      ensures var r := TelemetryCodec.DecodedTelemetry(f);
        if r.Success? then
          output == old(output) + [TelemetryLine(r.value)] && decodedMessages == old(decodedMessages) + 1
          && errors == old(errors) && malformedInput == old(malformedInput)
        else
          output == old(output) && decodedMessages == old(decodedMessages)
          && errors == old(errors) + [MalformedTelemetry] && malformedInput
    {
      var decoded := TelemetryCodec.DecodeTelemetry(f);
      if decoded.Failure? {
        Complain(MalformedTelemetry);
        return;
      }
      output := output + [TelemetryLine(decoded.value)];
      decodedMessages := decodedMessages + 1;
    }

    method PrintAck(f: bytes)
      modifies this
      ensures var r := CommandCodec.DecodedAck(f);
        if r.Success? then
          output == old(output) + [AckLine(r.value)] && decodedMessages == old(decodedMessages) + 1
          && errors == old(errors) && malformedInput == old(malformedInput)
        else
          output == old(output) && decodedMessages == old(decodedMessages)
          && errors == old(errors) + [MalformedAck] && malformedInput
    {
      var decoded := CommandCodec.DecodeAck(f);
      if decoded.Failure? {
        Complain(MalformedAck);
        return;
      }
      output := output + [AckLine(decoded.value)];
      decodedMessages := decodedMessages + 1;
    }

    method Complain(c: Complaint)
      modifies this`errors, this`malformedInput
      ensures errors == old(errors) + [c] && malformedInput
    {
      errors := errors + [c];
      malformedInput := true;
    }
  }

  lemma OneOutcome(o: Outcome)
    ensures Lines([o]) == if o.Printed? then [o.message] else []
    ensures Complaints([o]) == if o.Complained? then [o.complaint] else []
  {
    assert Before([o]) == [];
  }

  /** Numbers outgoing commands from one upwards, modulo 2^32. */
  class CommandSequencer {
    var nextSequence: u32

    constructor ()
      ensures nextSequence == 1
    {
      nextSequence := 1;
    }

    method MakeCommand(command: CommandCodec.CommandId, periodMs: u32) returns (m: CommandCodec.CommandMessage)
      modifies this
      ensures m == CommandCodec.CommandMessage(old(nextSequence), command, periodMs)
      ensures nextSequence == T.NextSequence(old(nextSequence))
    {
      m := CommandCodec.CommandMessage(nextSequence, command, periodMs);
      nextSequence := T.NextSequence(nextSequence);
    }
  }
}
