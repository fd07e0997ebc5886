/** The flight computer's objects and its loop. Clock readings come from `clock`, in the order they are taken. */
module FlightComputer {
  import opened Wrappers
  import opened Bytes
  import opened StreamMachine
  import opened CommandCodec
  import opened CommandProcessor
  import opened FlightMode
  import opened Health
  import opened FlightLoop
  import FaultManager
  import FrameStreamDecoder
  import T = Telemetry
  import TelemetryCodec

  datatype LoopState = LoopState(flight: FlightState, buffer: bytes, clockReads: nat, samples: nat)

  /** The command an event carries, if it is a frame that decodes as one. */
  function CommandCarried(e: StreamEvent): Option<CommandMessage> {
    match e
    case FrameDecoded(f) =>
      (match DecodedCommand(f)
       case Success(m) => Some(m)
       case Failure(_) => None)
    case _ => None
  }

  function FromOption<T>(o: Option<T>): seq<T> { if o.Some? then [o.value] else [] }

  function CommandsIn(events: seq<StreamEvent>): seq<CommandMessage>
    decreases |events|
  {
    if |events| == 0 then []
    else CommandsIn(Before(events)) + FromOption(CommandCarried(Last(events)))
  }

  /** The commands as steps, each with the next clock reading. */
  function CommandSteps(ms: seq<CommandMessage>, clock: nat -> int, first: nat): (steps: seq<Step>)
    ensures |steps| == |ms|
  {
    seq(|ms|, k requires 0 <= k < |ms| => Commanded(ms[k], clock(first + k)))
  }

  function Received(s: LoopState, input: bytes): seq<CommandMessage> {
    CommandsIn(Events(Feed(s.buffer, input).spans))
  }

  /** One turn of the loop: every command in the drained bytes, then one look at the telemetry deadline. */
  function IterationSteps(s: LoopState, input: bytes, clock: nat -> int): (steps: seq<Step>)
    ensures |steps| > 0
  {
    var ms := Received(s, input);
    CommandSteps(ms, clock, s.clockReads) + [Polled(clock(s.clockReads + |ms|), T.Sample(s.samples))]
  }

  function Iterated(s: LoopState, input: bytes, clock: nat -> int): LoopState
    requires s.flight.periodMs > 0
  {
    var steps := IterationSteps(s, input, clock);
    var ticked := IsTick(RunFrom(s.flight, Before(steps)), Last(steps));
    LoopState(RunFrom(s.flight, steps), Feed(s.buffer, input).buffer, s.clockReads + |steps|,
              s.samples + if ticked then 1 else 0)
  }

  class Computer {
    const clock: nat -> int
    const stateMachine: StateMachine
    const sensorSource: T.SimulatedSensorSource
    const collector: T.Collector
    const faultManager: FaultManager.Manager
    const configuration: Configuration
    const processor: Processor
    const decoder: FrameStreamDecoder.Decoder
    var clockReads: nat
    var nextTelemetryDeadline: int

    ghost predicate Valid()
      reads this, sensorSource, configuration, decoder, decoder.buffer
    {
      && sensorSource.Valid() && decoder.Valid()
      && processor.stateMachine == stateMachine && processor.configuration == configuration
      && configuration.telemetryPeriodMs > 0
    }

    ghost function Flight(): FlightState
      reads this, stateMachine, collector, faultManager, configuration
    {
      FlightState(stateMachine.mode, faultManager.State(), configuration.telemetryPeriodMs, nextTelemetryDeadline,
                  collector.nextSequence)
    }

    ghost function State(): LoopState
      requires Valid()
      reads this, stateMachine, collector, faultManager, configuration, sensorSource, decoder, decoder.buffer
    {
      LoopState(Flight(), decoder.Buffered(), clockReads, sensorSource.readCount)
    }

    constructor (clock: nat -> int)
      ensures Valid() && this.clock == clock
      ensures State() == LoopState(Booted(clock(0)), [], 1, 0)
      ensures fresh(stateMachine) && fresh(sensorSource) && fresh(collector) && fresh(faultManager)
      ensures fresh(configuration) && fresh(decoder) && fresh(decoder.buffer)
    {
      this.clock := clock;
      var machine := new StateMachine();
      var moved := machine.Dispatch(BootCompleted);
      var settings := new Configuration();
      stateMachine := machine;
      configuration := settings;
      sensorSource := new T.SimulatedSensorSource();
      collector := new T.Collector();
      faultManager := new FaultManager.Manager(true);
      processor := new Processor(machine, settings);
      decoder := new FrameStreamDecoder.Decoder();
      clockReads := 1;
      nextTelemetryDeadline := clock(0) + settings.telemetryPeriodMs;
    }

    method ReadClock() returns (now: int)
      modifies this`clockReads
      ensures now == clock(old(clockReads)) && clockReads == old(clockReads) + 1
    {
      now := clock(clockReads);
      clockReads := clockReads + 1;
    }

    /** One turn of the endless loop, with the bytes the link had ready; returns the frames transmitted. */
    method LoopOnce(input: seq<byte>) returns (sent: seq<bytes>)
      requires Valid()
      modifies this, stateMachine, collector, faultManager, configuration, sensorSource, decoder, decoder.buffer
      ensures Valid()
      ensures State() == Iterated(old(State()), input, clock)
      ensures sent == SentBy(old(Flight()), IterationSteps(old(State()), input, clock))
    {
      hide Feed, Events, Stepped, Sent, RunFrom, SentBy, CommandsIn, CommandSteps;
      hide Iterated, IterationSteps, T.Sample, IsTick;
      ghost var start := State();
      IterationEnds(start, input, clock);
      var events := decoder.PushBytes(input);
      assert Received(start, input) == CommandsIn(events);
      hide Received;
      sent := HandleEvents(events);
      var now := ReadClock();
      var telemetry := PollTelemetry(now);
      sent := sent + telemetry;
    }

    method HandleEvents(events: seq<StreamEvent>) returns (sent: seq<bytes>)
      requires Valid()
      modifies this, stateMachine, configuration
      ensures Valid()
      ensures var ms := CommandsIn(events);
        var steps := CommandSteps(ms, clock, old(clockReads));
        && Flight() == RunFrom(old(Flight()), steps)
        && sent == SentBy(old(Flight()), steps)
        && clockReads == old(clockReads) + |ms|
    {
      hide Stepped, Sent, CommandCarried, CommandsIn, CommandSteps, RunFrom, SentBy;
      sent := [];
      ghost var start, first := Flight(), clockReads;
      NothingExecuted(start, clock, first);
      for k := 0 to |events|
        invariant Valid()
        invariant clockReads == first + |CommandsIn(events[..k])|
        invariant Flight() == RunFrom(start, CommandSteps(CommandsIn(events[..k]), clock, first))
        invariant sent == SentBy(start, CommandSteps(CommandsIn(events[..k]), clock, first))
      {
        OneMoreEvent(start, events, k, clock, first);
        var more := HandleEvent(events[k]);
        sent := sent + more;
      }
      assert events[..|events|] == events;
    }

    /** Handles one decoder event; only a frame that decodes as a command has any effect. */
    method HandleEvent(event: StreamEvent) returns (sent: seq<bytes>)
      requires Valid()
      modifies this, stateMachine, configuration
      ensures Valid()
      ensures CommandCarried(event).None? ==> Flight() == old(Flight()) && clockReads == old(clockReads) && sent == []
      ensures CommandCarried(event).Some? ==>
        var step := Commanded(CommandCarried(event).value, clock(old(clockReads)));
        && Flight() == Stepped(old(Flight()), step)
        && sent == Sent(old(Flight()), step)
        && clockReads == old(clockReads) + 1
    {
      hide DecodedCommand, EncodedAck;
      if !event.FrameDecoded? {
        return [];
      }
      var command := DecodeCommand(event.frame);
      if command.Failure? {
        return [];
      }
      var m := command.value;
      var ack := processor.Process(m);
      var commandTime := ReadClock();
      if ack.status == AckAccepted && m.command == SetTelemetryPeriod {
        nextTelemetryDeadline := commandTime + configuration.telemetryPeriodMs;
      }
      var encoded := EncodeAck(ack);
      sent := SentIf(encoded);
    }

    method PollTelemetry(now: int) returns (sent: seq<bytes>)
      requires Valid()
      modifies this`nextTelemetryDeadline, stateMachine, collector, faultManager, sensorSource
      ensures Valid()
      ensures var step := Polled(now, T.Sample(old(sensorSource.readCount)));
        && Flight() == Stepped(old(Flight()), step)
        && sent == Sent(old(Flight()), step)
        && sensorSource.readCount == old(sensorSource.readCount) + if IsTick(old(Flight()), step) then 1 else 0
    {
      hide FaultManager.Updated, Evaluated, TelemetryCodec.EncodedTelemetry, T.Sample, CatchUp;
      sent := [];
      if now >= nextTelemetryDeadline {
        var readings := sensorSource.Read();
        var report := Evaluate(readings);
        var event := faultManager.Update(report);
        if event.Some? {
          var moved := stateMachine.Dispatch(event.value);
        }
        var snapshot := collector.Capture(now % 0x1_0000_0000_0000_0000, stateMachine.mode, readings);
        var message := T.Message(snapshot, faultManager.latchedFaultMask as int);
        var encoded := TelemetryCodec.EncodeTelemetry(message);
        sent := SentIf(encoded);
        AdvanceDeadline(now);
      }
    }

    /** Adds periods until the deadline lies in the future, at least one. */
    method AdvanceDeadline(now: int)
      requires configuration.telemetryPeriodMs > 0
      modifies this`nextTelemetryDeadline
      ensures nextTelemetryDeadline == CatchUp(old(nextTelemetryDeadline), configuration.telemetryPeriodMs, now)
    {
      var period := configuration.telemetryPeriodMs;
      ghost var goal := CatchUp(nextTelemetryDeadline, period, now);
      nextTelemetryDeadline := nextTelemetryDeadline + period;
      while nextTelemetryDeadline <= now
        invariant nextTelemetryDeadline > now ==> goal == nextTelemetryDeadline
        invariant nextTelemetryDeadline <= now ==> goal == CatchUp(nextTelemetryDeadline, period, now)
        decreases now - nextTelemetryDeadline
      {
        nextTelemetryDeadline := nextTelemetryDeadline + period;
      }
    }
  }

  /** A loop turn is its commands, then one poll. */
  lemma IterationEnds(s: LoopState, input: bytes, clock: nat -> int)
    requires s.flight.periodMs > 0
    ensures var ms := Received(s, input);
      var commands := CommandSteps(ms, clock, s.clockReads);
      var before := RunFrom(s.flight, commands);
      var poll := Polled(clock(s.clockReads + |ms|), T.Sample(s.samples));
      && Iterated(s, input, clock) == LoopState(Stepped(before, poll), Feed(s.buffer, input).buffer,
           s.clockReads + |ms| + 1, s.samples + if IsTick(before, poll) then 1 else 0)
      && SentBy(s.flight, IterationSteps(s, input, clock)) == SentBy(s.flight, commands) + Sent(before, poll)
  {
    hide Received, T.Sample, Stepped, Sent, Feed;
    var steps := IterationSteps(s, input, clock);
    assert Before(steps) == CommandSteps(Received(s, input), clock, s.clockReads);
  }

  lemma MoreCommands(ms: seq<CommandMessage>, more: Option<CommandMessage>, clock: nat -> int, first: nat)
    ensures var steps, longer := CommandSteps(ms, clock, first), CommandSteps(ms + FromOption(more), clock, first);
      if more.None? then longer == steps
      else |longer| > 0 && Before(longer) == steps && Last(longer) == Commanded(more.value, clock(first + |ms|))
  {
    if more.None? {
      assert ms + [] == ms;
    } else {
      assert Before(CommandSteps(ms + [more.value], clock, first)) == CommandSteps(ms, clock, first);
    }
  }

  lemma NothingExecuted(s: FlightState, clock: nat -> int, first: nat)
    requires s.periodMs > 0
    ensures CommandsIn([]) == []
    ensures RunFrom(s, CommandSteps([], clock, first)) == s && SentBy(s, CommandSteps([], clock, first)) == []
  {}

  /** One more event is one more step if it carries a command, and none otherwise. */
  lemma OneMoreEvent(s: FlightState, events: seq<StreamEvent>, k: nat, clock: nat -> int, first: nat)
    requires s.periodMs > 0 && k < |events|
    ensures var ms, longer, more := CommandsIn(events[..k]), CommandsIn(events[..k + 1]), CommandCarried(events[k]);
      var steps, stepsNow := CommandSteps(ms, clock, first), CommandSteps(longer, clock, first);
      if more.None? then longer == ms
      else
        var step := Commanded(more.value, clock(first + |ms|));
        && |longer| == |ms| + 1
        && RunFrom(s, stepsNow) == Stepped(RunFrom(s, steps), step)
        && SentBy(s, stepsNow) == SentBy(s, steps) + Sent(RunFrom(s, steps), step)
  {
    hide Stepped, Sent, CommandCarried, CommandsIn, CommandSteps, RunFrom, SentBy;
    CommandsUpTo(events, k);
    var ms, more := CommandsIn(events[..k]), CommandCarried(events[k]);
    MoreCommands(ms, more, clock, first);
    if more.None? {
      assert ms + [] == ms;
    } else {
      RunStep(s, CommandSteps(ms + FromOption(more), clock, first));
    }
  }

  lemma CommandsUpTo(events: seq<StreamEvent>, k: nat)
    requires k < |events|
    ensures CommandsIn(events[..k + 1]) == CommandsIn(events[..k]) + FromOption(CommandCarried(events[k]))
  {
    hide CommandCarried, FromOption;
    assert Before(events[..k + 1]) == events[..k];
  }

  lemma RunStep(s: FlightState, steps: seq<Step>)
    requires s.periodMs > 0 && |steps| > 0
    ensures RunFrom(s, steps) == Stepped(RunFrom(s, Before(steps)), Last(steps))
    ensures SentBy(s, steps) == SentBy(s, Before(steps)) + Sent(RunFrom(s, Before(steps)), Last(steps))
  {
    hide Stepped, Sent;
  }
}
