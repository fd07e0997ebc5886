/** The flight loop as steps on values: a command at a time, a poll of the telemetry deadline at a time. */
module FlightLoop {
  import opened Wrappers
  import opened Bytes
  import opened CommandCodec
  import opened CommandProcessor
  import opened FlightMode
  import opened Health
  import FaultManager
  import T = Telemetry
  import TelemetryCodec

  datatype FlightState = FlightState(
    mode: Mode,
    fault: FaultManager.FaultState,
    periodMs: u32,
    deadline: int,
    nextSequence: u32)

  /**
   * A decoded command and the clock reading taken after it, or a poll of the telemetry
   * deadline with its clock reading and what the sensors would return if asked.
   */
  datatype Step = Commanded(message: CommandMessage, at: int) | Polled(at: int, readings: T.SensorReadings)

  /** The state in which the loop is entered, the clock reading `start`. */
  function Booted(start: int): FlightState {
    FlightState(Next(Boot, BootCompleted), FaultManager.Initial(true), DEFAULT_TELEMETRY_PERIOD_MS,
                start + DEFAULT_TELEMETRY_PERIOD_MS, 0)
  }

  /** The first deadline after `now` that is a whole number of periods, at least one, past `deadline`. */
  function CatchUp(deadline: int, periodMs: u32, now: int): (next: int)
    requires periodMs > 0
    ensures next >= deadline + periodMs
    ensures next > now
    ensures next == deadline + periodMs || next - periodMs <= now
    decreases now - deadline
  {
    if deadline + periodMs > now then deadline + periodMs else CatchUp(deadline + periodMs, periodMs, now)
  }

  predicate IsTick(s: FlightState, step: Step) { step.Polled? && step.at >= s.deadline }

  function ModeAfterEvent(mode: Mode, event: Option<Event>): Mode {
    match event
    case None => mode
    case Some(e) => Next(mode, e)
  }

  /** The telemetry message of a tick. */
  function TickMessage(s: FlightState, at: int, readings: T.SensorReadings): T.Message {
    var (fault, event) := FaultManager.Updated(s.fault, Evaluated(readings));
    T.Message(T.Snapshot(s.nextSequence, at % 0x1_0000_0000_0000_0000, ModeAfterEvent(s.mode, event), readings),
              fault.latched as int)
  }

  function SentIf<E>(r: Result<bytes, E>): seq<bytes> {
    match r
    case Success(b) => [b]
    case Failure(_) => []
  }

  /** The frames a step puts on the link. */
  function Sent(s: FlightState, step: Step): seq<bytes> {
    match step
    case Commanded(m, _) => SentIf(EncodedAck(AckFor(s.mode, m)))
    case Polled(at, readings) =>
      if IsTick(s, step) then SentIf(TelemetryCodec.EncodedTelemetry(TickMessage(s, at, readings))) else []
  }

  function Stepped(s: FlightState, step: Step): FlightState
    requires s.periodMs > 0
  {
    match step
    case Commanded(m, at) =>
      var t := s.(mode := ModeAfter(s.mode, m));
      if SetsPeriod(m) then t.(periodMs := m.periodMs, deadline := at + m.periodMs) else t
    case Polled(at, readings) =>
      if !IsTick(s, step) then s
      else
        var (fault, event) := FaultManager.Updated(s.fault, Evaluated(readings));
        s.(mode := ModeAfterEvent(s.mode, event), fault := fault,
           deadline := CatchUp(s.deadline, s.periodMs, at), nextSequence := T.NextSequence(s.nextSequence))
  }

  /** The state after a run of steps. */
  function RunFrom(s: FlightState, steps: seq<Step>): (t: FlightState)
    requires s.periodMs > 0
    ensures t.periodMs > 0
    decreases |steps|
  {
    if |steps| == 0 then s else Stepped(RunFrom(s, Before(steps)), Last(steps))
  }

  /** Everything a run of steps puts on the link, in order. */
  function SentBy(s: FlightState, steps: seq<Step>): seq<bytes>
    requires s.periodMs > 0
    decreases |steps|
  {
    if |steps| == 0 then []
    else
      var before := Before(steps);
      SentBy(s, before) + Sent(RunFrom(s, before), Last(steps))
  }

  lemma {:induction false} RunConcat(s: FlightState, a: seq<Step>, b: seq<Step>)
    requires s.periodMs > 0
    ensures RunFrom(s, a + b) == RunFrom(RunFrom(s, a), b)
    ensures SentBy(s, a + b) == SentBy(s, a) + SentBy(RunFrom(s, a), b)
    decreases |b|
  {
    hide Stepped, Sent;
    if |b| == 0 {
      assert a + b == a;
    } else {
      var before := Before(b);
      assert Before(a + b) == a + before;
      RunConcat(s, a, before);
    }
  }
}
