/** Executing a received command against the flight mode and the configuration. */
module CommandProcessor {
  import opened Bytes
  import opened CommandCodec
  import opened FlightMode

  const MINIMUM_TELEMETRY_PERIOD_MS: u32 := 250
  const MAXIMUM_TELEMETRY_PERIOD_MS: u32 := 10000
  const DEFAULT_TELEMETRY_PERIOD_MS: u32 := 1000

  predicate PeriodAllowed(periodMs: u32) {
    MINIMUM_TELEMETRY_PERIOD_MS <= periodMs <= MAXIMUM_TELEMETRY_PERIOD_MS
  }

  /** The answer to a command in a given mode. */
  function StatusOf(mode: Mode, c: CommandMessage): AckStatus {
    match c.command
    case Ping => AckAccepted
    case EnterSafeMode => if mode == Safe || mode == Nominal then AckAccepted else RejectedByState
    case SetTelemetryPeriod => if PeriodAllowed(c.periodMs) then AckAccepted else InvalidArgument
    case UnknownCommand => InvalidCommand
  }

  function AckFor(mode: Mode, c: CommandMessage): AckMessage {
    AckMessage(c.sequence, c.command, StatusOf(mode, c))
  }

  /** Each answer, exactly when it is given, in every mode. */
  lemma StatusExactlyWhen(mode: Mode, c: CommandMessage)
    ensures var a := AckFor(mode, c);
      && a.sequence == c.sequence && a.command == c.command
      && (a.status == InvalidCommand <==> c.command == UnknownCommand)
      && (a.status == RejectedByState <==> c.command == EnterSafeMode && (mode == Boot || mode == UnknownMode))
      && (a.status == InvalidArgument <==>
            c.command == SetTelemetryPeriod && (c.periodMs < 250 || c.periodMs > 10000))
      && a.status != UnknownStatus
  {}

  function ModeAfter(mode: Mode, c: CommandMessage): Mode {
    if c.command == EnterSafeMode then Next(mode, SafeModeRequested) else mode
  }

  /** The command changes the telemetry period, and with it the next deadline. */
  predicate SetsPeriod(c: CommandMessage) { c.command == SetTelemetryPeriod && PeriodAllowed(c.periodMs) }

  class Configuration {
    var telemetryPeriodMs: u32

    constructor ()
      ensures telemetryPeriodMs == DEFAULT_TELEMETRY_PERIOD_MS
    {
      telemetryPeriodMs := DEFAULT_TELEMETRY_PERIOD_MS;
    }
  }

  class Processor {
    const stateMachine: StateMachine
    const configuration: Configuration

    constructor (stateMachine: StateMachine, configuration: Configuration)
      ensures this.stateMachine == stateMachine && this.configuration == configuration
    {
      this.stateMachine := stateMachine;
      this.configuration := configuration;
    }

    method Process(c: CommandMessage) returns (ack: AckMessage)
      modifies stateMachine, configuration
      ensures ack == AckFor(old(stateMachine.mode), c)
      ensures stateMachine.mode == ModeAfter(old(stateMachine.mode), c)
      ensures configuration.telemetryPeriodMs ==
        if SetsPeriod(c) then c.periodMs else old(configuration.telemetryPeriodMs)
    {
      var status := InvalidCommand;
      match c.command {
        case Ping => status := AckAccepted;
        case EnterSafeMode => status := RequestSafeMode();
        case SetTelemetryPeriod => status := ChangePeriod(c.periodMs);
        case UnknownCommand =>
      }
      ack := AckMessage(c.sequence, c.command, status);
    }

    method RequestSafeMode() returns (status: AckStatus)
      modifies stateMachine
      ensures stateMachine.mode == Next(old(stateMachine.mode), SafeModeRequested)
      ensures status == if old(stateMachine.mode) in {Safe, Nominal} then AckAccepted else RejectedByState
    {
      match stateMachine.mode {
        case Boot => status := RejectedByState;
        case Safe => status := AckAccepted;
        case Nominal =>
          var moved := stateMachine.Dispatch(SafeModeRequested);
          status := if moved then AckAccepted else RejectedByState;
        case UnknownMode => status := RejectedByState;
      }
    }

    method ChangePeriod(periodMs: u32) returns (status: AckStatus)
      modifies configuration
      ensures status == if PeriodAllowed(periodMs) then AckAccepted else InvalidArgument
      ensures configuration.telemetryPeriodMs
        == if PeriodAllowed(periodMs) then periodMs else old(configuration.telemetryPeriodMs)
    {
      if periodMs < MINIMUM_TELEMETRY_PERIOD_MS || periodMs > MAXIMUM_TELEMETRY_PERIOD_MS {
        return InvalidArgument;
      }
      configuration.telemetryPeriodMs := periodMs;
      return AckAccepted;
    }
  }
}
