/** Whole missions: any number of loop turns, any bytes in, and what the ground makes of the bytes out. */
module Mission {
  import opened Wrappers
  import opened Bytes
  import opened StreamMachine
  import opened CommandCodec
  import opened CommandProcessor
  import opened FlightLoop
  import opened FlightHistory
  import opened FlightComputer
  import opened GroundClient
  import opened CleanStreams
  import FrameCodec
  import opened FlightMode
  import T = Telemetry
  import TelemetryCodec

  /** The state after one loop turn for each chunk of received bytes. */
  function LoopAfter(clock: nat -> int, chunks: seq<bytes>): (s: LoopState)
    ensures s.flight.periodMs > 0
    decreases |chunks|
  {
    if |chunks| == 0 then LoopState(Booted(clock(0)), [], 1, 0)
    else Iterated(LoopAfter(clock, Before(chunks)), Last(chunks), clock)
  }

  /** Every step taken on the way. */
  function Steps(clock: nat -> int, chunks: seq<bytes>): seq<Step>
    decreases |chunks|
  {
    if |chunks| == 0 then []
    else Steps(clock, Before(chunks)) + IterationSteps(LoopAfter(clock, Before(chunks)), Last(chunks), clock)
  }

  /** Every frame transmitted on the way. */
  function Downlink(clock: nat -> int, chunks: seq<bytes>): seq<bytes>
    decreases |chunks|
  {
    if |chunks| == 0 then []
    else
      var s := LoopAfter(clock, Before(chunks));
      Downlink(clock, Before(chunks)) + SentBy(s.flight, IterationSteps(s, Last(chunks), clock))
  }

  /** The program from boot on, for as many loop turns as there are chunks; returns every frame transmitted. */
  method Fly(clock: nat -> int, chunks: seq<bytes>) returns (computer: Computer, sent: seq<bytes>)
    ensures fresh(computer) && computer.Valid() && computer.clock == clock
    ensures computer.State() == LoopAfter(clock, chunks)
    ensures sent == Downlink(clock, chunks)
  {
    hide Iterated, IterationSteps, SentBy, Booted;
    computer := new Computer(clock);
    sent := [];
    for k := 0 to |chunks|
      invariant fresh(computer) && computer.Valid() && computer.clock == clock
      invariant fresh(computer.stateMachine) && fresh(computer.sensorSource) && fresh(computer.collector)
      invariant fresh(computer.faultManager) && fresh(computer.configuration)
      invariant fresh(computer.decoder) && fresh(computer.decoder.buffer)
      invariant computer.State() == LoopAfter(clock, chunks[..k])
      invariant sent == Downlink(clock, chunks[..k])
    {
      assert Before(chunks[..k + 1]) == chunks[..k] && Last(chunks[..k + 1]) == chunks[k];
      var more := computer.LoopOnce(chunks[k]);
      sent := sent + more;
    }
    assert chunks[..|chunks|] == chunks;
  }

  /** A mission is one run of steps from boot, so all that holds after every run holds here. */
  lemma {:induction false} MissionIsRun(clock: nat -> int, chunks: seq<bytes>)
    ensures LoopAfter(clock, chunks).flight == StateOf(clock(0), Steps(clock, chunks))
    ensures Downlink(clock, chunks) == SentBy(Booted(clock(0)), Steps(clock, chunks))
    ensures LoopAfter(clock, chunks).clockReads == 1 + |Steps(clock, chunks)|
    decreases |chunks|
  {
    hide IterationSteps, Stepped, Sent, Feed;
    if |chunks| > 0 {
      MissionIsRun(clock, Before(chunks));
      var s := LoopAfter(clock, Before(chunks));
      RunConcat(Booted(clock(0)), Steps(clock, Before(chunks)), IterationSteps(s, Last(chunks), clock));
    }
  }

  /** The clock never goes back. */
  ghost predicate Monotone(clock: nat -> int) { forall i, j :: 0 <= i <= j ==> clock(i) <= clock(j) }

  /** The k-th of these steps is taken at clock reading `first + k`. */
  ghost predicate Timed(steps: seq<Step>, clock: nat -> int, first: nat) {
    forall k :: 0 <= k < |steps| ==> steps[k].at == clock(first + k)
  }

  lemma TimedConcat(a: seq<Step>, b: seq<Step>, clock: nat -> int, first: nat)
    requires Timed(a, clock, first) && Timed(b, clock, first + |a|)
    ensures Timed(a + b, clock, first)
  {}

  lemma IterationTimes(s: LoopState, input: bytes, clock: nat -> int)
    ensures Timed(IterationSteps(s, input, clock), clock, s.clockReads)
  {
    hide Received;
  }

  lemma ReadsSoFar(clock: nat -> int, chunks: seq<bytes>)
    ensures LoopAfter(clock, chunks).clockReads == 1 + |Steps(clock, chunks)|
  {
    MissionIsRun(clock, chunks);
  }

  lemma {:induction false} StepTimes(clock: nat -> int, chunks: seq<bytes>)
    ensures Timed(Steps(clock, chunks), clock, 1)
    decreases |chunks|
  {
    if |chunks| > 0 {
      hide Timed, LoopAfter, IterationSteps;
      StepTimes(clock, Before(chunks));
      ReadsSoFar(clock, Before(chunks));
      var s := LoopAfter(clock, Before(chunks));
      IterationTimes(s, Last(chunks), clock);
      TimedConcat(Steps(clock, Before(chunks)), IterationSteps(s, Last(chunks), clock), clock, 1);
    } else {
      NothingTimed(clock);
    }
  }

  lemma NothingTimed(clock: nat -> int)
    ensures Timed([], clock, 1)
  {}

  lemma MissionInOrder(clock: nat -> int, chunks: seq<bytes>)
    requires Monotone(clock)
    ensures InOrder(clock(0), Steps(clock, chunks))
  {
    hide Steps;
    StepTimes(clock, chunks);
  }

  /** However the bytes arrive, telemetry never exceeds one frame per 250 milliseconds since boot. */
  lemma MissionRateBound(clock: nat -> int, chunks: seq<bytes>)
    requires Monotone(clock)
    ensures var steps := Steps(clock, chunks);
      MINIMUM_TELEMETRY_PERIOD_MS * Ticks(clock(0), steps) <= Clock(clock(0), steps) - clock(0)
  {
    hide Steps, Ticks;
    MissionInOrder(clock, chunks);
    TelemetryRateBound(clock(0), Steps(clock, chunks));
  }

  // ----- The simulated sensors really are what the loop reads

  /** A loop turn is its commands, then one poll; it asks the sensors if the poll is a tick. */
  lemma IterationLayout(s: LoopState, input: bytes, clock: nat -> int)
    requires s.flight.periodMs > 0
    ensures var ms := Received(s, input);
      var commands := CommandSteps(ms, clock, s.clockReads);
      var poll := Polled(clock(s.clockReads + |ms|), T.Sample(s.samples));
      && IterationSteps(s, input, clock) == commands + [poll]
      && (forall c :: c in commands ==> c.Commanded?)
      && Iterated(s, input, clock).samples == s.samples + (if IsTick(RunFrom(s.flight, commands), poll) then 1 else 0)
  {
    hide Received, T.Sample, Stepped, RunFrom, Feed;
    assert Before(IterationSteps(s, input, clock)) == CommandSteps(Received(s, input), clock, s.clockReads);
  }

  lemma StateConcat(start: int, a: seq<Step>, b: seq<Step>)
    ensures StateOf(start, a + b) == RunFrom(StateOf(start, a), b)
  {
    RunConcat(Booted(start), a, b);
  }

  lemma TurnIsSimulated(start: int, before: seq<Step>, commands: seq<Step>, poll: Step)
    requires SimulatedSensors(start, before) && forall c :: c in commands ==> c.Commanded?
    requires poll.Polled? && poll.readings == T.Sample(Ticks(start, before))
    ensures var steps := before + (commands + [poll]);
      && SimulatedSensors(start, steps)
      && Ticks(start, steps) == Ticks(start, before)
          + if IsTick(RunFrom(StateOf(start, before), commands), poll) then 1 else 0
  {
    StateConcat(start, before, commands);
    hide Ticks, SimulatedSensors, T.Sample, RunFrom, IsTick, StateOf;
    CommandsDoNotTick(start, before, commands);
    OneMoreStep(start, before + commands, poll);
    ConcatAssociates(before, commands, [poll]);
  }

  lemma IterationIsSimulated(start: int, before: seq<Step>, s: LoopState, input: bytes, clock: nat -> int)
    requires s.flight == StateOf(start, before)
    requires SimulatedSensors(start, before) && s.samples == Ticks(start, before)
    ensures var steps := before + IterationSteps(s, input, clock);
      SimulatedSensors(start, steps) && Iterated(s, input, clock).samples == Ticks(start, steps)
  {
    hide Received, Ticks, SimulatedSensors, T.Sample, RunFrom, IterationSteps, Iterated, CommandSteps, IsTick, StateOf;
    IterationLayout(s, input, clock);
    var ms := Received(s, input);
    var commands := CommandSteps(ms, clock, s.clockReads);
    TurnIsSimulated(start, before, commands, Polled(clock(s.clockReads + |ms|), T.Sample(s.samples)));
  }

  /** The samples asked for so far are the ticks so far, and each was the next of the cycle. */
  lemma {:induction false} MissionIsSimulated(clock: nat -> int, chunks: seq<bytes>)
    ensures SimulatedSensors(clock(0), Steps(clock, chunks))
    ensures LoopAfter(clock, chunks).samples == Ticks(clock(0), Steps(clock, chunks))
    decreases |chunks|
  {
    var start := clock(0);
    if |chunks| == 0 {
      NoTicks(start);
    } else {
      hide Ticks, SimulatedSensors, Iterated, IterationSteps, StateOf;
      MissionIsSimulated(clock, Before(chunks));
      MissionIsRun(clock, Before(chunks));
      IterationIsSimulated(start, Steps(clock, Before(chunks)), LoopAfter(clock, Before(chunks)), Last(chunks), clock);
    }
  }

  lemma OneMoreStep(start: int, steps: seq<Step>, step: Step)
    ensures var ticked := IsTick(StateOf(start, steps), step);
      && Ticks(start, steps + [step]) == Ticks(start, steps) + (if ticked then 1 else 0)
      && (SimulatedSensors(start, steps + [step]) <==>
          SimulatedSensors(start, steps) && (ticked ==> step.readings == T.Sample(Ticks(start, steps))))
  {
    assert Before(steps + [step]) == steps && Last(steps + [step]) == step;
    TicksStep(start, steps + [step]);
    hide Ticks, StateOf, T.Sample;
  }

  lemma {:induction false} CommandsDoNotTick(start: int, steps: seq<Step>, commands: seq<Step>)
    requires SimulatedSensors(start, steps) && forall c :: c in commands ==> c.Commanded?
    ensures SimulatedSensors(start, steps + commands) && Ticks(start, steps + commands) == Ticks(start, steps)
    decreases |commands|
  {
    hide Ticks, SimulatedSensors;
    if |commands| == 0 {
      assert steps + commands == steps;
    } else {
      assert Last(commands) in commands;
      assert steps + commands == steps + Before(commands) + [Last(commands)];
      CommandsDoNotTick(start, steps, Before(commands));
      OneMoreStep(start, steps + Before(commands), Last(commands));
    }
  }

  lemma TurnEndsWithPoll(start: int, before: seq<Step>, commands: seq<Step>, poll: Step)
    requires SimulatedSensors(start, before) && forall c :: c in commands ==> c.Commanded?
    ensures var steps := before + (commands + [poll]);
      && Last(steps) == poll
      && Ticks(start, Before(steps)) == Ticks(start, before)
      && TickAt(start, steps) == IsTick(RunFrom(StateOf(start, before), commands), poll)
  {
    StateConcat(start, before, commands);
    hide Ticks, SimulatedSensors, RunFrom, IsTick, StateOf;
    CommandsDoNotTick(start, before, commands);
    assert Before(before + (commands + [poll])) == before + commands;
  }

  lemma IterationEndsWithPoll(start: int, before: seq<Step>, s: LoopState, input: bytes, clock: nat -> int)
    requires s.flight == StateOf(start, before)
    requires SimulatedSensors(start, before) && s.samples == Ticks(start, before)
    ensures var steps := before + IterationSteps(s, input, clock);
      && Ticks(start, Before(steps)) == s.samples
      && Iterated(s, input, clock).samples == s.samples + (if TickAt(start, steps) then 1 else 0)
  {
    hide Received, Ticks, SimulatedSensors, T.Sample, RunFrom, IterationSteps, Iterated;
    hide CommandSteps, IsTick, StateOf, TickAt;
    IterationLayout(s, input, clock);
    var ms := Received(s, input);
    var commands := CommandSteps(ms, clock, s.clockReads);
    TurnEndsWithPoll(start, before, commands, Polled(clock(s.clockReads + |ms|), T.Sample(s.samples)));
  }

  lemma LastStepIsPoll(clock: nat -> int, chunks: seq<bytes>)
    requires |chunks| > 0
    ensures var start, s, steps := clock(0), LoopAfter(clock, Before(chunks)), Steps(clock, chunks);
      && |steps| > 0 && Ticks(start, Before(steps)) == s.samples
      && LoopAfter(clock, chunks).samples == s.samples + (if TickAt(start, steps) then 1 else 0)
  {
    hide Ticks, SimulatedSensors, Iterated, IterationSteps, StateOf, TickAt;
    MissionIsSimulated(clock, Before(chunks));
    MissionIsRun(clock, Before(chunks));
    var before := Before(chunks);
    IterationEndsWithPoll(clock(0), Steps(clock, before), LoopAfter(clock, before), Last(chunks), clock);
  }

  /** Right after a loop turn that took sample n the mode is the one the eight-sample cycle calls for. */
  lemma MissionCycle(clock: nat -> int, chunks: seq<bytes>)
    requires |chunks| > 0 && LoopAfter(clock, chunks).samples > LoopAfter(clock, Before(chunks)).samples
    ensures var n, mode := LoopAfter(clock, Before(chunks)).samples, LoopAfter(clock, chunks).flight.mode;
      && (n % T.SAMPLE_COUNT == 7 || n == 2 ==> mode == Nominal)
      && (3 <= n % T.SAMPLE_COUNT <= 6 || n < 2 ==> mode == Safe)
      && (n > 2 && n % T.SAMPLE_COUNT < 3 ==> mode == StateOf(clock(0), Before(Steps(clock, chunks))).mode)
  {
    hide LoopAfter, Steps, Ticks, StateOf, SimulatedSensors;
    LastStepIsPoll(clock, chunks);
    MissionIsSimulated(clock, chunks);
    MissionIsRun(clock, chunks);
    SimulatedCycle(clock(0), Steps(clock, chunks));
  }

  // ----- Commands up, acknowledgements down

  function Orders(steps: seq<Step>): seq<CommandMessage>
    decreases |steps|
  {
    if |steps| == 0 then []
    else Orders(Before(steps)) + (if Last(steps).Commanded? then [Last(steps).message] else [])
  }

  lemma {:induction false} OrdersConcat(a: seq<Step>, b: seq<Step>)
    ensures Orders(a + b) == Orders(a) + Orders(b)
    decreases |b|
  {
    if |b| == 0 {
      assert a + b == a;
    } else {
      assert Before(a + b) == a + Before(b);
      OrdersConcat(a, Before(b));
    }
  }

  lemma {:induction false} OrdersOfCommands(ms: seq<CommandMessage>, clock: nat -> int, first: nat)
    ensures Orders(CommandSteps(ms, clock, first)) == ms
    decreases |ms|
  {
    if |ms| > 0 {
      OrdersOfCommands(Before(ms), clock, first);
      assert Before(CommandSteps(ms, clock, first)) == CommandSteps(Before(ms), clock, first);
      assert ms == Before(ms) + [Last(ms)];
    }
  }

  lemma OrdersOfIteration(s: LoopState, input: bytes, clock: nat -> int)
    ensures Orders(IterationSteps(s, input, clock)) == Received(s, input)
  {
    hide Received;
    var ms := Received(s, input);
    var commands := CommandSteps(ms, clock, s.clockReads);
    var poll := Polled(clock(s.clockReads + |ms|), T.Sample(s.samples));
    OrdersOfCommands(ms, clock, s.clockReads);
    assert Before(commands + [poll]) == commands && Last(commands + [poll]) == poll;
  }

  lemma {:induction false} CommandsInConcat(a: seq<StreamEvent>, b: seq<StreamEvent>)
    ensures CommandsIn(a + b) == CommandsIn(a) + CommandsIn(b)
    decreases |b|
  {
    hide CommandCarried, FromOption;
    if |b| == 0 {
      assert a + b == a;
    } else {
      assert Before(a + b) == a + Before(b) && Last(a + b) == Last(b);
      CommandsInConcat(a, Before(b));
      ConcatAssociates(CommandsIn(a), CommandsIn(Before(b)), FromOption(CommandCarried(Last(b))));
    }
  }

  /** The commands in a stream of received bytes. */
  function CommandsReceived(input: bytes): seq<CommandMessage> { CommandsIn(Events(Feed([], input).spans)) }

  /** The loop executes exactly the commands of the received stream, in order, however it was cut into chunks. */
  lemma {:induction false} OrdersAreReceived(clock: nat -> int, chunks: seq<bytes>)
    ensures Orders(Steps(clock, chunks)) == CommandsReceived(Joined(chunks))
    ensures LoopAfter(clock, chunks).buffer == Feed([], Joined(chunks)).buffer
    decreases |chunks|
  {
    hide Feed, CommandsIn, IterationSteps, Events, RunFrom;
    if |chunks| == 0 {
      FeedNothing([], []);
      AfterNothing(Feed([], []));
      NoEvents();
      NoCommands();
    } else {
      var before, last := Joined(Before(chunks)), Last(chunks);
      var s := LoopAfter(clock, Before(chunks));
      var p := Feed([], before);
      OrdersAreReceived(clock, Before(chunks));
      OrdersConcat(Steps(clock, Before(chunks)), IterationSteps(s, last, clock));
      OrdersOfIteration(s, last, clock);
      FeedConcat([], before, last);
      EventsConcat(p.spans, Feed(s.buffer, last).spans);
      CommandsInConcat(Events(p.spans), Events(Feed(s.buffer, last).spans));
    }
  }

  lemma NoCommands()
    ensures CommandsIn([]) == []
  {}

  lemma {:induction false} ReceivedAreKnown(events: seq<StreamEvent>)
    ensures forall m :: m in CommandsIn(events) ==> m.command != UnknownCommand
    decreases |events|
  {
    if |events| > 0 {
      ReceivedAreKnown(Before(events));
      CarriedIsKnown(Last(events));
      hide CommandCarried;
    }
  }

  lemma CarriedIsKnown(e: StreamEvent)
    ensures CommandCarried(e).Some? ==> CommandCarried(e).value.command != UnknownCommand
  {}

  // ----- The downlink as the ground sees it

  /** The messages a step sends. */
  function LinesSent(start: int, steps: seq<Step>): seq<Message>
    requires |steps| > 0
  {
    match Last(steps)
    case Commanded(m, _) => [AckLine(AckFor(StateOf(start, Before(steps)).mode, m))]
    case Polled(_, _) => if TickAt(start, steps) then [TelemetryLine(ExpectedTelemetry(start, steps))] else []
  }

  /** One acknowledgement per command, one telemetry message per tick, in the order they happen. */
  function Report(start: int, steps: seq<Step>): seq<Message>
    decreases |steps|
  {
    if |steps| == 0 then [] else Report(start, Before(steps)) + LinesSent(start, steps)
  }

  function Acks(ms: seq<Message>): seq<AckMessage>
    decreases |ms|
  {
    if |ms| == 0 then [] else Acks(Before(ms)) + (if Last(ms).AckLine? then [Last(ms).ack] else [])
  }

  lemma {:induction false} WireAllConcat(a: seq<Message>, b: seq<Message>)
    requires WireAll(a).Some? && WireAll(b).Some?
    ensures WireAll(a + b) == Some(WireAll(a).value + WireAll(b).value)
    decreases a
  {
    hide Wire;
    if |a| == 0 {
      assert a + b == b;
      assert [] + WireAll(b).value == WireAll(b).value;
    } else {
      assert (a + b)[0] == a[0] && (a + b)[1..] == a[1..] + b;
      WireAllConcat(a[1..], b);
      ConcatAssociates(Wire(a[0]).value, WireAll(a[1..]).value, WireAll(b).value);
    }
  }

  lemma WireOne(m: Message)
    requires Wire(m).Some?
    ensures WireAll([m]) == Some(Wire(m).value)
  {
    hide Wire;
    assert [m][1..] == [];
    NothingOnWire();
    assert Wire(m).value + [] == Wire(m).value;
  }

  lemma {:induction false} JoinedConcat(a: seq<bytes>, b: seq<bytes>)
    ensures Joined(a + b) == Joined(a) + Joined(b)
    decreases |b|
  {
    if |b| == 0 {
      assert a + b == a;
    } else {
      assert Before(a + b) == a + Before(b);
      JoinedConcat(a, Before(b));
    }
  }

  lemma JoinedOne(b: bytes)
    ensures Joined([b]) == b && Joined([]) == []
  {
    assert Before([b]) == [];
  }

  /** What one step transmits is what its messages are sent as. */
  lemma StepIsOnWire(start: int, steps: seq<Step>)
    requires |steps| > 0 && (Last(steps).Commanded? ==> Last(steps).message.command != UnknownCommand)
    ensures WireAll(LinesSent(start, steps)) == Some(Joined(Sent(StateOf(start, Before(steps)), Last(steps))))
  {
    var s, step := StateOf(start, Before(steps)), Last(steps);
    hide WireAll, EncodedAck, DecodedAck, ExpectedTelemetry;
    hide TelemetryCodec.EncodedTelemetry, TelemetryCodec.DecodedTelemetry;
    match step
    case Commanded(m, at) =>
      var a := AckFor(s.mode, m);
      EncodeAckThenDecode(a);
      WireOne(AckLine(a));
      JoinedOne(EncodedAck(a).value);
    case Polled(at, readings) =>
      JoinedOne([]);
      if TickAt(start, steps) {
        TickIsEncoded(start, steps);
        var t := ExpectedTelemetry(start, steps);
        WireOne(TelemetryLine(t));
        JoinedOne(TelemetryCodec.EncodedTelemetry(t).value);
      } else {
        NothingOnWire();
      }
  }

  lemma NothingOnWire()
    ensures WireAll([]) == Some([])
  {}

  lemma {:induction false} ReportIsOnWire(start: int, steps: seq<Step>)
    requires forall m :: m in Orders(steps) ==> m.command != UnknownCommand
    ensures WireAll(Report(start, steps)) == Some(Joined(SentBy(Booted(start), steps)))
    decreases |steps|
  {
    hide WireAll, LinesSent, Sent, Joined, RunFrom;
    if |steps| == 0 {
      NothingOnWire();
      JoinedOne([]);
    } else {
      ReportIsOnWire(start, Before(steps));
      StepIsOnWire(start, steps);
      WireAllConcat(Report(start, Before(steps)), LinesSent(start, steps));
      JoinedConcat(SentBy(Booted(start), Before(steps)), Sent(StateOf(start, Before(steps)), Last(steps)));
    }
  }

  lemma {:induction false} AcksConcat(a: seq<Message>, b: seq<Message>)
    ensures Acks(a + b) == Acks(a) + Acks(b)
    decreases |b|
  {
    if |b| == 0 {
      assert a + b == a;
    } else {
      assert Before(a + b) == a + Before(b);
      AcksConcat(a, Before(b));
    }
  }

  /** The acknowledgement answers the command: same sequence number, same command, accepted unless it asks too much. */
  predicate Answers(a: AckMessage, m: CommandMessage) {
    && a.sequence == m.sequence && a.command == m.command
    && a.status == if BadPeriod(m) then InvalidArgument else AckAccepted
  }

  lemma AcksOne(m: Message)
    ensures Acks([m]) == if m.AckLine? then [m.ack] else []
  {
    assert Before([m]) == [];
  }

  lemma LineAnswers(start: int, steps: seq<Step>)
    requires |steps| > 0 && (Last(steps).Commanded? ==> Last(steps).message.command != UnknownCommand)
    ensures var lines := LinesSent(start, steps);
      && (Last(steps).Commanded? ==> |lines| == 1 && lines[0].AckLine? && Answers(lines[0].ack, Last(steps).message))
      && (!Last(steps).Commanded? ==> lines == [] || (|lines| == 1 && lines[0].TelemetryLine?))
  {
    ModeExactlyWhen(start, Before(steps));
    if Last(steps).Commanded? {
      AcceptedUnlessBad(StateOf(start, Before(steps)).mode, Last(steps).message);
    }
    hide StateOf, TickAt, ExpectedTelemetry, AckFor;
  }

  lemma {:induction false} AcksAnswerOrders(start: int, steps: seq<Step>)
    requires forall m :: m in Orders(steps) ==> m.command != UnknownCommand
    ensures var acks, orders := Acks(Report(start, steps)), Orders(steps);
      |acks| == |orders| && forall k :: 0 <= k < |acks| ==> Answers(acks[k], orders[k])
    decreases |steps|
  {
    hide Acks, StateOf, TickAt, ExpectedTelemetry, StatusOf, LinesSent, Answers;
    NoAcks();
    if |steps| > 0 {
      AcksAnswerOrders(start, Before(steps));
      LineAnswers(start, steps);
      AcksConcat(Report(start, Before(steps)), LinesSent(start, steps));
      if |LinesSent(start, steps)| > 0 {
        AcksOne(LinesSent(start, steps)[0]);
        assert LinesSent(start, steps) == [LinesSent(start, steps)[0]];
      }
    }
  }

  lemma NoAcks()
    ensures Acks([]) == []
  {}

  /**
   * Whatever bytes come up in whatever chunks, the ground that listens to everything sent
   * down never complains and prints exactly one telemetry line per tick and, in stream
   * order, one acknowledgement per received command with its sequence number and command.
   */
  lemma GroundSeesTheMission(clock: nat -> int, chunks: seq<bytes>)
    ensures var session := Session(Joined(Downlink(clock, chunks)));
      var commands := CommandsReceived(Joined(chunks));
      && Complaints(session) == []
      && Lines(session) == Report(clock(0), Steps(clock, chunks))
      && |Acks(Lines(session))| == |commands|
      && forall k :: 0 <= k < |commands| ==> Answers(Acks(Lines(session))[k], commands[k])
  {
    hide Session, Joined, Downlink, Steps, CommandsIn, Events, Feed, Report, Orders, Complaints, WireAll, Acks, SentBy;
    var start, steps := clock(0), Steps(clock, chunks);
    MissionIsRun(clock, chunks);
    OrdersAreReceived(clock, chunks);
    ReceivedAreKnown(Events(Feed([], Joined(chunks)).spans));
    ReportIsOnWire(start, steps);
    CleanExactlyWhen(Joined(Downlink(clock, chunks)));
    AcksAnswerOrders(start, steps);
  }

  // ----- From the ground and back

  /** What the ground puts on the uplink for these commands. */
  function Uplink(ms: seq<CommandMessage>): bytes
    requires forall m :: m in ms ==> m.command != UnknownCommand
  {
    if |ms| == 0 then []
    else
      EncodeCommandThenDecode(ms[0]);
      EncodedCommand(ms[0]).value + Uplink(ms[1..])
  }

  lemma OneCommand(e: StreamEvent)
    ensures CommandsIn([e]) == FromOption(CommandCarried(e))
  {
    assert Before([e]) == [];
  }

  /** A command's frame is received as that command, and changes nothing about what follows it. */
  lemma CommandThenRest(f: bytes, rest: bytes)
    requires DecodedCommand(f).Success?
    ensures CommandsReceived(f + rest) == [DecodedCommand(f).value] + CommandsReceived(rest)
  {
    var accepted, later := Accepted(f), Feed([], rest);
    DecodedCommandIsFrame(f);
    hide Feed, DecodedCommand, CommandsIn, Events, FrameCodec.IsFrame;
    WholeFrame(f);
    FeedConcat([], f, rest);
    EventsConcat([accepted], later.spans);
    OneEvent(accepted);
    OneCommand(FrameDecoded(f));
    CommandsInConcat([FrameDecoded(f)], Events(later.spans));
  }

  lemma NothingReceived()
    ensures CommandsReceived([]) == []
  {
    hide Feed, CommandsIn, Events;
    FeedNothing([], []);
    AfterNothing(Feed([], []));
    NoEvents();
    NoCommands();
  }

  /** Commands sent back to back arrive one by one, each without an argument that does not belong to it. */
  lemma {:induction false} UplinkArrives(ms: seq<CommandMessage>)
    requires forall m :: m in ms ==> m.command != UnknownCommand
    ensures var received := CommandsReceived(Uplink(ms));
      |received| == |ms| && forall k :: 0 <= k < |ms| ==> received[k] == NormalizedCommand(ms[k])
    decreases ms
  {
    hide CommandsReceived, EncodedCommand, DecodedCommand, NormalizedCommand;
    if |ms| == 0 {
      NothingReceived();
    } else {
      UplinkArrives(ms[1..]);
      EncodeCommandThenDecode(ms[0]);
      CommandThenRest(EncodedCommand(ms[0]).value, Uplink(ms[1..]));
    }
  }

  lemma DecodedCommandIsFrame(b: bytes)
    requires DecodedCommand(b).Success?
    ensures FrameCodec.IsFrame(b)
  {
    hide FrameCodec.Decoded;
  }

  /** Every command the ground sends is acknowledged to it once, in order, under its own number. */
  lemma CommandsAreAcknowledged(clock: nat -> int, chunks: seq<bytes>, ms: seq<CommandMessage>)
    requires (forall m :: m in ms ==> m.command != UnknownCommand) && Joined(chunks) == Uplink(ms)
    ensures var acks := Acks(Lines(Session(Joined(Downlink(clock, chunks)))));
      |acks| == |ms| && forall k :: 0 <= k < |ms| ==> Answers(acks[k], ms[k])
  {
    hide Session, Joined, Downlink, Lines, Acks, CommandsReceived, Uplink;
    GroundSeesTheMission(clock, chunks);
    UplinkArrives(ms);
  }

  lemma ReportIsDecodable(clock: nat -> int, chunks: seq<bytes>)
    ensures var input, report := Joined(Downlink(clock, chunks)), Report(clock(0), Steps(clock, chunks));
      Lines(Session(input)) == report && WireAll(report) == Some(input)
  {
    hide Session, Joined, Downlink, Steps, Report, Complaints, Lines, WireAll, Acks, CommandsReceived;
    GroundSeesTheMission(clock, chunks);
    CleanExactlyWhen(Joined(Downlink(clock, chunks)));
  }

  /** What a flight transmits, decoded offline: every message of the flight, and success unless there was none. */
  method FlyAndDecode(clock: nat -> int, chunks: seq<bytes>) returns (status: nat, printed: seq<Message>)
    ensures printed == Report(clock(0), Steps(clock, chunks))
    ensures status == 0 <==> printed != []
  {
    hide Session, Joined, Downlink, Steps, Report, Lines, WireAll, LoopAfter;
    var computer, sent := Fly(clock, chunks);
    status, printed := RunOffline(sent);
    ReportIsDecodable(clock, chunks);
  }

  // ----- The commanding half of a live session

  /** What the operator asked for in one line. */
  datatype Order = Order(command: CommandId, periodMs: u32)

  /** The commands made of these lines: numbered from one upwards, modulo 2^32. */
  function Numbered(orders: seq<Order>): (ms: seq<CommandMessage>)
    ensures |ms| == |orders|
  {
    seq(|orders|, k requires 0 <= k < |orders| =>
      CommandMessage((k + 1) % 0x1_0000_0000, orders[k].command, orders[k].periodMs))
  }

  predicate Known(orders: seq<Order>) { forall k :: 0 <= k < |orders| ==> orders[k].command != UnknownCommand }

  lemma {:induction false} UplinkConcat(a: seq<CommandMessage>, b: seq<CommandMessage>)
    requires (forall m :: m in a ==> m.command != UnknownCommand) && forall m :: m in b ==> m.command != UnknownCommand
    ensures forall m :: m in a + b ==> m.command != UnknownCommand
    ensures Uplink(a + b) == Uplink(a) + Uplink(b)
    decreases a
  {
    hide EncodedCommand;
    if |a| == 0 {
      assert a + b == b;
    } else {
      assert (a + b)[0] == a[0] && (a + b)[1..] == a[1..] + b;
      UplinkConcat(a[1..], b);
      EncodeCommandThenDecode(a[0]);
      ConcatAssociates(EncodedCommand(a[0]).value, Uplink(a[1..]), Uplink(b));
    }
  }

  lemma OneUplink(m: CommandMessage)
    requires m.command != UnknownCommand
    ensures EncodedCommand(m).Success? && Uplink([m]) == EncodedCommand(m).value
  {
    hide EncodedCommand;
    EncodeCommandThenDecode(m);
    assert [m][1..] == [];
    assert EncodedCommand(m).value + [] == EncodedCommand(m).value;
  }

  lemma OneMoreOrder(orders: seq<Order>, k: nat)
    requires k < |orders|
    ensures Numbered(orders[..k + 1]) ==
      Numbered(orders[..k]) + [CommandMessage((k + 1) % 0x1_0000_0000, orders[k].command, orders[k].periodMs)]
  {}

  lemma NextNumber(k: nat)
    ensures T.NextSequence((k + 1) % 0x1_0000_0000) == (k + 2) % 0x1_0000_0000
  {}

  /** Makes and sends one command after the other; returns all bytes sent. */
  method SendCommands(orders: seq<Order>) returns (uplink: bytes)
    requires Known(orders)
    ensures (forall m :: m in Numbered(orders) ==> m.command != UnknownCommand) && uplink == Uplink(Numbered(orders))
  {
    hide Uplink, EncodedCommand, Numbered;
    var sequencer := new CommandSequencer();
    uplink := [];
    assert orders[..0] == [];
    NothingUplinked();
    for k := 0 to |orders|
      invariant fresh(sequencer) && sequencer.nextSequence == (k + 1) % 0x1_0000_0000
      invariant forall m :: m in Numbered(orders[..k]) ==> m.command != UnknownCommand
      invariant uplink == Uplink(Numbered(orders[..k]))
    {
      var m := sequencer.MakeCommand(orders[k].command, orders[k].periodMs);
      NextNumber(k);
      OneMoreOrder(orders, k);
      OneUplink(m);
      UplinkConcat(Numbered(orders[..k]), [m]);
      var encoded := EncodeCommand(m);
      uplink := uplink + encoded.value;
    }
    assert orders[..|orders|] == orders;
  }

  lemma NothingUplinked()
    ensures Numbered([]) == [] && Uplink([]) == []
  {}
}
