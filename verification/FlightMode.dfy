/** The flight modes and the events that move between them. */
module FlightMode {
  /** `UnknownMode` stands for a value cast into the enumeration from outside it. */
  datatype Mode = Boot | Safe | Nominal | UnknownMode

  datatype Event = BootCompleted | HealthConfirmed | FaultDetected | SafeModeRequested

  function Next(mode: Mode, event: Event): Mode {
    match mode
    case Boot => if event == BootCompleted then Safe else mode
    case Safe => if event == HealthConfirmed then Nominal else mode
    case Nominal => if event == FaultDetected || event == SafeModeRequested then Safe else mode
    case UnknownMode => mode
  }

  class StateMachine {
    var mode: Mode

    constructor (initial: Mode := Boot)
      ensures mode == initial
    {
      mode := initial;
    }

    /** Says whether the event was one the current mode reacts to. */
    method Dispatch(event: Event) returns (moved: bool)
      modifies this
      ensures mode == Next(old(mode), event)
      ensures moved <==> mode != old(mode)
    {
      if mode == Boot {
        if event == BootCompleted {
          mode := Safe;
          return true;
        }
      } else if mode == Safe {
        if event == HealthConfirmed {
          mode := Nominal;
          return true;
        }
      } else if mode == Nominal {
        if event == FaultDetected || event == SafeModeRequested {
          mode := Safe;
          return true;
        }
      }
      return false;
    }
  }

  /** The four moves there are; Boot is never come back to. */
  lemma MovesExactlyWhen(mode: Mode, event: Event)
    ensures var moves :=
        || (mode == Boot && event == BootCompleted)
        || (mode == Safe && event == HealthConfirmed)
        || (mode == Nominal && (event == FaultDetected || event == SafeModeRequested));
      && (Next(mode, event) != mode <==> moves)
      && (moves ==> Next(mode, event) == if mode == Safe then Nominal else Safe)
  {}
}
