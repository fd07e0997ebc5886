/**
 * When telemetry comes: exactly at a poll that meets the deadline due, at an exact pace while
 * the period is left alone, and not at all while accepted period changes keep coming.
 */
module TelemetryPacing {
  import opened Wrappers
  import opened CommandCodec
  import opened CommandProcessor
  import opened Health
  import opened FlightLoop
  import opened FlightHistory
  import FaultManager
  import T = Telemetry

  /** A step after which the deadline is known to lie in the future. */
  predicate Looks(step: Step) { step.Polled? || SetsPeriod(step.message) }

  /** When the loop last polled the deadline or set it anew; boot, if it has not yet. */
  function LastLook(start: int, steps: seq<Step>): int
    decreases |steps|
  {
    if |steps| == 0 then start
    else if Looks(Last(steps)) then Last(steps).at
    else LastLook(start, Before(steps))
  }

  lemma {:induction false} LookIsBeforeDeadline(start: int, steps: seq<Step>)
    ensures LastLook(start, steps) < StateOf(start, steps).deadline
    decreases |steps|
  {
    hide FaultManager.Updated, Evaluated, CatchUp, ModeAfterEvent;
    if |steps| > 0 {
      LookIsBeforeDeadline(start, Before(steps));
    }
  }

  predicate KeepsPeriod(step: Step) { step.Commanded? ==> !SetsPeriod(step.message) }

  /** From step `n` on the period is left alone, and no step comes more than `d` milliseconds after the last look. */
  predicate Attended(start: int, steps: seq<Step>, n: nat, d: nat) {
    forall k :: n <= k < |steps| ==> KeepsPeriod(steps[k]) && steps[k].at <= LastLook(start, steps[..k]) + d
  }

  lemma AttendedBefore(start: int, steps: seq<Step>, n: nat, d: nat)
    requires n < |steps| && Attended(start, steps, n, d)
    ensures Attended(start, Before(steps), n, d)
    ensures KeepsPeriod(Last(steps)) && Last(steps).at <= LastLook(start, Before(steps)) + d
  {
    hide LastLook, KeepsPeriod;
    assert forall k :: n <= k < |steps| - 1 ==> Before(steps)[k] == steps[k] && Before(steps)[..k] == steps[..k];
    assert Last(steps) == steps[|steps| - 1] && Before(steps) == steps[..|steps| - 1];
  }

  /** One step pushes the deadline by at most a period past where the step was taken, and only by a tick. */
  lemma DeadlineStep(start: int, steps: seq<Step>, d: nat)
    requires |steps| > 0 && KeepsPeriod(Last(steps)) && Last(steps).at <= LastLook(start, Before(steps)) + d
    ensures var s, t := StateOf(start, Before(steps)), StateOf(start, steps);
      && t.periodMs == s.periodMs
      && if TickAt(start, steps) then t.deadline <= s.deadline + s.periodMs + d else t.deadline == s.deadline
  {
    LookIsBeforeDeadline(start, Before(steps));
    hide FaultManager.Updated, Evaluated, CatchUp, ModeAfterEvent, LastLook;
  }

  lemma OneMore(n: nat, x: int)
    ensures (n + 1) * x == n * x + x
  {}

  lemma {:induction false} DeadlineFloor(start: int, early: seq<Step>, late: seq<Step>, d: nat)
    requires early <= late && Attended(start, late, |early|, d)
    ensures Ticks(start, late) >= Ticks(start, early)
    ensures var s, t := StateOf(start, early), StateOf(start, late);
      && t.periodMs == s.periodMs
      && t.deadline <= s.deadline + (Ticks(start, late) - Ticks(start, early)) * (s.periodMs + d)
    decreases |late|
  {
    hide StateOf, Ticks, Attended, LastLook, TickAt, KeepsPeriod;
    if |early| == |late| {
      assert early == late;
    } else {
      AttendedBefore(start, late, |early|, d);
      DeadlineFloor(start, early, Before(late), d);
      DeadlineStep(start, late, d);
      TicksStep(start, late);
      OneMore(Ticks(start, Before(late)) - Ticks(start, early), StateOf(start, early).periodMs + d);
    }
  }

  /**
   * While the period is left alone and the deadline is looked at every `d` milliseconds,
   * no more than a period and `d` passes per tick, counted from the deadline in force.
   */
  lemma TelemetryRateFloor(start: int, early: seq<Step>, late: seq<Step>, d: nat)
    requires early < late && Attended(start, late, |early|, d)
    ensures var s := StateOf(start, early);
      Clock(start, late) < s.deadline + d + (Ticks(start, late) - Ticks(start, early)) * (s.periodMs + d)
  {
    hide StateOf, Ticks, Attended, LastLook, TickAt, KeepsPeriod;
    var before := Before(late);
    AttendedBefore(start, late, |early|, d);
    DeadlineFloor(start, early, before, d);
    LookIsBeforeDeadline(start, before);
    TicksStep(start, late);
    OneMore(Ticks(start, before) - Ticks(start, early), StateOf(start, early).periodMs + d);
  }

  /** In particular a tick is forced within one period and `d` milliseconds of any moment. */
  lemma TickIsForced(start: int, early: seq<Step>, late: seq<Step>, d: nat)
    requires InOrder(start, early) && early < late && Attended(start, late, |early|, d)
    requires Clock(start, late) >= Clock(start, early) + StateOf(start, early).periodMs + d
    ensures Ticks(start, late) > Ticks(start, early)
  {
    hide StateOf, Ticks, Attended;
    DeadlineInvariant(start, early);
    TelemetryRateFloor(start, early, late, d);
    DeadlineFloor(start, early, late, d);
  }

  // ----- The exact pace, while the deadline is looked at at least once a period

  /** A tick then moves the deadline by exactly one period. */
  lemma ExactStep(start: int, steps: seq<Step>, d: nat)
    requires |steps| > 0 && KeepsPeriod(Last(steps)) && Last(steps).at <= LastLook(start, Before(steps)) + d
    requires d <= StateOf(start, Before(steps)).periodMs
    ensures var s, t := StateOf(start, Before(steps)), StateOf(start, steps);
      && t.periodMs == s.periodMs
      && t.deadline == s.deadline + (if TickAt(start, steps) then s.periodMs else 0)
    ensures TickAt(start, steps) ==> LastLook(start, steps) >= StateOf(start, Before(steps)).deadline
  {
    LookIsBeforeDeadline(start, Before(steps));
    hide FaultManager.Updated, Evaluated, ModeAfterEvent;
  }

  lemma LookGoesOn(start: int, steps: seq<Step>)
    requires InOrder(start, steps)
    ensures LastLook(start, steps) <= Clock(start, steps)
    ensures |steps| > 0 ==> LastLook(start, Before(steps)) <= LastLook(start, steps)
    decreases |steps|
  {
    if |steps| > 0 {
      LookGoesOn(start, Before(steps));
      assert Clock(start, Before(steps)) <= Last(steps).at;
    }
  }

  /** No phase is lost: after n ticks the deadline is n periods on. */
  lemma {:induction false} DeadlineIsExact(start: int, early: seq<Step>, late: seq<Step>, d: nat)
    requires InOrder(start, late) && early <= late && Attended(start, late, |early|, d)
    requires d <= StateOf(start, early).periodMs
    ensures Ticks(start, late) >= Ticks(start, early)
    ensures var s, t, n := StateOf(start, early), StateOf(start, late), Ticks(start, late) - Ticks(start, early);
      && t.periodMs == s.periodMs
      && t.deadline == s.deadline + n * s.periodMs
      && (n > 0 ==> s.deadline + (n - 1) * s.periodMs <= LastLook(start, late))
    decreases |late|
  {
    hide StateOf, Ticks, Attended, LastLook, TickAt, KeepsPeriod;
    if |early| == |late| {
      assert early == late;
    } else {
      var before := Before(late);
      AttendedBefore(start, late, |early|, d);
      DeadlineIsExact(start, early, before, d);
      ExactStep(start, late, d);
      TicksStep(start, late);
      LookGoesOn(start, late);
      OneMore(Ticks(start, before) - Ticks(start, early), StateOf(start, early).periodMs);
    }
  }

  /**
   * Telemetry keeps an absolute schedule: while the period is left alone and the deadline is
   * looked at at least once a period, there has been exactly one tick for each of the moments
   * deadline, deadline + period, deadline + 2 * period and so on up to the last look.
   */
  lemma ScheduleIsKept(start: int, early: seq<Step>, late: seq<Step>, d: nat, n: nat)
    requires InOrder(start, late) && early <= late && Attended(start, late, |early|, d)
    requires d <= StateOf(start, early).periodMs
    ensures var s := StateOf(start, early);
      Ticks(start, late) - Ticks(start, early) > n <==> s.deadline + n * s.periodMs <= LastLook(start, late)
  {
    hide StateOf, Ticks, Attended, LastLook;
    DeadlineIsExact(start, early, late, d);
    LookIsBeforeDeadline(start, late);
    var s, ticks := StateOf(start, early), Ticks(start, late) - Ticks(start, early);
    if ticks > n {
      TimesMonotone(n, ticks - 1, s.periodMs);
    } else {
      TimesMonotone(ticks, n, s.periodMs);
    }
  }

  lemma TimesMonotone(m: nat, n: nat, x: nat)
    requires m <= n
    ensures m * x <= n * x
  {}

  // ----- When exactly a tick comes, whatever happens to the period

  predicate Changes(step: Step) { !KeepsPeriod(step) }

  /** The deadline in force after `steps` if there was no tick from step `m` on, where it was `deadline`. */
  function Due(deadline: int, steps: seq<Step>, m: nat): int
    decreases |steps|
  {
    if |steps| <= m then deadline
    else if Changes(Last(steps)) then Last(steps).at + Last(steps).message.periodMs
    else Due(deadline, Before(steps), m)
  }

  /** Step `k` polls at or after the deadline that is due by then. */
  predicate MeetsDeadline(deadline: int, steps: seq<Step>, m: nat, k: nat)
    requires k < |steps|
  {
    steps[k].Polled? && steps[k].at >= Due(deadline, steps[..k], m)
  }

  lemma DueStep(start: int, steps: seq<Step>, deadline: int, m: nat)
    requires m < |steps| && StateOf(start, Before(steps)).deadline == Due(deadline, Before(steps), m)
    ensures TickAt(start, steps) <==> MeetsDeadline(deadline, steps, m, |steps| - 1)
    ensures !TickAt(start, steps) ==> StateOf(start, steps).deadline == Due(deadline, steps, m)
  {
    hide FaultManager.Updated, Evaluated, ModeAfterEvent, CatchUp;
  }

  lemma MeetsBefore(deadline: int, steps: seq<Step>, m: nat, k: nat)
    requires k < |steps| - 1
    ensures MeetsDeadline(deadline, Before(steps), m, k) <==> MeetsDeadline(deadline, steps, m, k)
  {
    assert Before(steps)[..k] == steps[..k];
  }

  /** Between two moments a tick comes exactly if a poll meets the deadline due; if none does, that deadline stands. */
  lemma {:induction false} TickComesExactlyWhen(start: int, early: seq<Step>, late: seq<Step>)
    requires early <= late
    ensures var deadline, m := StateOf(start, early).deadline, |early|;
      && Ticks(start, late) >= Ticks(start, early)
      && (Ticks(start, late) > Ticks(start, early)
          <==> exists k :: m <= k < |late| && MeetsDeadline(deadline, late, m, k))
      && (Ticks(start, late) == Ticks(start, early) ==> StateOf(start, late).deadline == Due(deadline, late, m))
    decreases |late|
  {
    hide StateOf, Ticks, TickAt, MeetsDeadline;
    var deadline, m := StateOf(start, early).deadline, |early|;
    if m == |late| {
      assert early == late;
    } else {
      var before, last := Before(late), |late| - 1;
      TickComesExactlyWhen(start, early, before);
      TicksStep(start, late);
      forall k | m <= k < last
        ensures MeetsDeadline(deadline, before, m, k) <==> MeetsDeadline(deadline, late, m, k)
      {
        MeetsBefore(deadline, late, m, k);
      }
      if Ticks(start, before) == Ticks(start, early) {
        DueStep(start, late, deadline, m);
      } else {
        var k :| m <= k < last && MeetsDeadline(deadline, before, m, k);
        assert MeetsDeadline(deadline, late, m, k);
      }
    }
  }

  /** Step `k` comes within the shortest period of an accepted change from step `m` on, or before any and `deadline`. */
  predicate KeptOff(deadline: int, steps: seq<Step>, m: nat, k: nat)
    requires k < |steps|
  {
    || (exists j :: m <= j < k && Changes(steps[j]) && steps[k].at < steps[j].at + MINIMUM_TELEMETRY_PERIOD_MS)
    || (steps[k].at < deadline && forall j :: m <= j < k ==> !Changes(steps[j]))
  }

  lemma {:induction false} DueAfterChange(start: int, deadline: int, steps: seq<Step>, m: nat, j: nat)
    requires InOrder(start, steps) && m <= j < |steps| && Changes(steps[j])
    ensures Due(deadline, steps, m) >= steps[j].at + MINIMUM_TELEMETRY_PERIOD_MS
    decreases |steps|
  {
    if !Changes(Last(steps)) {
      DueAfterChange(start, deadline, Before(steps), m, j);
    }
  }

  lemma {:induction false} DueWithoutChange(deadline: int, steps: seq<Step>, m: nat)
    requires forall j :: m <= j < |steps| ==> !Changes(steps[j])
    ensures Due(deadline, steps, m) == deadline
    decreases |steps|
  {
    if |steps| > m {
      DueWithoutChange(deadline, Before(steps), m);
    }
  }

  lemma KeptOffIsTooEarly(start: int, deadline: int, steps: seq<Step>, m: nat, k: nat)
    requires InOrder(start, steps) && m <= k < |steps| && KeptOff(deadline, steps, m, k)
    ensures !MeetsDeadline(deadline, steps, m, k)
  {
    hide Due, Changes;
    var before := steps[..k];
    if j :| m <= j < k && Changes(steps[j]) && steps[k].at < steps[j].at + MINIMUM_TELEMETRY_PERIOD_MS {
      assert before[j] == steps[j];
      DueAfterChange(start, deadline, before, m, j);
    } else {
      DueWithoutChange(deadline, before, m);
    }
  }

  /**
   * Any schedule of polls and commands, whatever periods they ask for: as long as every poll
   * comes less than 250 milliseconds after some accepted change, or before any change and
   * before the deadline in force, there is no tick.
   */
  lemma TickIsPostponed(start: int, early: seq<Step>, late: seq<Step>)
    requires InOrder(start, late) && early <= late
    requires forall k :: |early| <= k < |late| && late[k].Polled? ==>
      KeptOff(StateOf(start, early).deadline, late, |early|, k)
    ensures Ticks(start, late) == Ticks(start, early)
  {
    hide StateOf, Ticks, InOrder, KeptOff;
    var deadline, m := StateOf(start, early).deadline, |early|;
    TickComesExactlyWhen(start, early, late);
    forall k | m <= k < |late| ensures !MeetsDeadline(deadline, late, m, k) {
      if late[k].Polled? {
        KeptOffIsTooEarly(start, deadline, late, m, k);
      }
    }
  }

  const FASTEST: CommandMessage := CommandMessage(0, SetTelemetryPeriod, MINIMUM_TELEMETRY_PERIOD_MS)

  /** A poll and an accepted period change every `gap` milliseconds. */
  function Postponing(start: int, gap: nat, n: nat, readings: T.SensorReadings): (steps: seq<Step>)
    ensures |steps| == 2 * n
    decreases n
  {
    if n == 0 then []
    else
      var at := start + n * gap;
      Postponing(start, gap, n - 1, readings) + [Polled(at, readings), Commanded(FASTEST, at)]
  }

  lemma PostponedOnce(start: int, steps: seq<Step>, at: int, readings: T.SensorReadings)
    requires at < StateOf(start, steps).deadline
    ensures var more := steps + [Polled(at, readings), Commanded(FASTEST, at)];
      && Ticks(start, more) == Ticks(start, steps)
      && StateOf(start, more).deadline == at + 250
      && LastLook(start, more) == at && Clock(start, more) == at
  {
    var polled := steps + [Polled(at, readings)];
    var more := polled + [Commanded(FASTEST, at)];
    assert Before(polled) == steps && Before(more) == polled;
    assert more == steps + [Polled(at, readings), Commanded(FASTEST, at)];
    TicksStep(start, polled);
    TicksStep(start, more);
    hide Ticks;
  }

  lemma InOrderStill(start: int, steps: seq<Step>, a: Step, b: Step)
    requires InOrder(start, steps) && Clock(start, steps) <= a.at <= b.at && start <= a.at
    ensures InOrder(start, steps + [a, b])
  {
    assert forall k :: 0 <= k < |steps| ==> steps[k].at <= Clock(start, steps);
  }

  lemma NothingYet(start: int)
    ensures InOrder(start, []) && Clock(start, []) == LastLook(start, []) == start
    ensures Ticks(start, []) == 0 && StateOf(start, []).deadline == start + DEFAULT_TELEMETRY_PERIOD_MS
  {
    NoTicks(start);
  }

  /** Such schedules can be of any length, with a poll and a change at any spacing below 250 milliseconds. */
  lemma {:induction false} PostponementIsUnbounded(start: int, gap: nat, n: nat, readings: T.SensorReadings)
    requires gap < MINIMUM_TELEMETRY_PERIOD_MS
    ensures var steps := Postponing(start, gap, n, readings);
      && InOrder(start, steps)
      && Clock(start, steps) == LastLook(start, steps) == start + n * gap
      && Ticks(start, steps) == 0
      && StateOf(start, steps).deadline > start + n * gap + gap
    decreases n
  {
    hide Ticks, StateOf, LastLook, InOrder, Clock;
    if n == 0 {
      NothingYet(start);
    } else {
      PostponementIsUnbounded(start, gap, n - 1, readings);
      OneMore(n - 1, gap);
      var before, at := Postponing(start, gap, n - 1, readings), start + n * gap;
      PostponedOnce(start, before, at, readings);
      InOrderStill(start, before, Polled(at, readings), Commanded(FASTEST, at));
    }
  }
}
