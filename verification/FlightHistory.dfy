/** What holds after every run of the flight loop, from boot on. */
module FlightHistory {
  import opened Wrappers
  import opened Bytes
  import opened CommandCodec
  import opened CommandProcessor
  import opened FlightMode
  import opened Health
  import opened FlightLoop
  import opened FaultManager
  import T = Telemetry
  import TelemetryCodec

  /** The state after `steps`, the loop having been entered when the clock read `start`. */
  function StateOf(start: int, steps: seq<Step>): (s: FlightState)
    ensures s.periodMs > 0
  {
    RunFrom(Booted(start), steps)
  }

  predicate TickAt(start: int, steps: seq<Step>)
    requires |steps| > 0
  {
    IsTick(StateOf(start, Before(steps)), Last(steps))
  }

  // ----- The things that happen to the mode

  datatype Occurrence = Reading(report: Report) | SafeCommanded

  predicate GoodReading(o: Occurrence) { o.Reading? && o.report.Healthy() }

  function OccurrenceOf(tick: bool, step: Step): seq<Occurrence> {
    match step
    case Commanded(m, _) => if m.command == EnterSafeMode then [SafeCommanded] else []
    case Polled(_, readings) => if tick then [Reading(Evaluated(readings))] else []
  }

  /** Health readings taken and safe-mode commands processed, in order. */
  function Log(start: int, steps: seq<Step>): seq<Occurrence>
    decreases |steps|
  {
    if |steps| == 0 then [] else Log(start, Before(steps)) + OccurrenceOf(TickAt(start, steps), Last(steps))
  }

  /** The reports in a log. */
  function Reports(log: seq<Occurrence>): seq<Report>
    decreases |log|
  {
    if |log| == 0 then [] else Reports(Before(log)) + (if Last(log).Reading? then [Last(log).report] else [])
  }

  /** How many healthy readings the log ends with, commands aside. */
  function Run(log: seq<Occurrence>): nat { HealthyRun(Reports(log)) }

  lemma ReportsGrow(log: seq<Occurrence>, o: Occurrence)
    ensures Reports(log + [o]) == Reports(log) + (if o.Reading? then [o.report] else [])
  {
    assert Before(log + [o]) == log && Last(log + [o]) == o;
  }

  lemma HistoryGrows(reports: seq<Report>, r: Report)
    ensures StateAfter(true, reports + [r]) == Updated(StateAfter(true, reports), r).0
    ensures LastEvent(true, reports + [r]) == Updated(StateAfter(true, reports), r).1
    ensures HealthyRun(reports + [r]) == if r.Healthy() then 1 + HealthyRun(reports) else 0
  {
    assert Before(reports + [r]) == reports && Last(reports + [r]) == r;
  }

  lemma RunGrows(log: seq<Occurrence>, o: Occurrence)
    ensures Run(log + [o]) == if GoodReading(o) then Run(log) + 1 else if o.Reading? then 0 else Run(log)
  {
    hide Reports, HealthyRun;
    ReportsGrow(log, o);
    if o.Reading? {
      HistoryGrows(Reports(log), o.report);
    } else {
      assert Reports(log) + [] == Reports(log);
    }
  }

  /** Position `c` is the third healthy reading in a row, and only healthy readings follow it. */
  predicate ConfirmedAt(log: seq<Occurrence>, c: nat) {
    && c < |log| && GoodReading(log[c]) && Run(log[..c + 1]) == REQUIRED_HEALTHY_SAMPLES
    && forall j :: c < j < |log| ==> GoodReading(log[j])
  }

  ghost predicate Confirmed(log: seq<Occurrence>) { exists c: nat :: ConfirmedAt(log, c) }

  lemma ConfirmedGrows(log: seq<Occurrence>, o: Occurrence)
    ensures Confirmed(log + [o]) <==> GoodReading(o) && (Run(log) + 1 == REQUIRED_HEALTHY_SAMPLES || Confirmed(log))
  {
    hide Run;
    var all := log + [o];
    RunGrows(log, o);
    assert all[..|log| + 1] == all;
    if Confirmed(all) {
      var c: nat :| ConfirmedAt(all, c);
      if c < |log| {
        assert all[..c + 1] == log[..c + 1];
        assert all[|log|] == o;
        assert forall j :: c < j < |log| ==> log[j] == all[j];
        assert ConfirmedAt(log, c);
      }
    }
    if GoodReading(o) && Run(log) + 1 == REQUIRED_HEALTHY_SAMPLES {
      assert ConfirmedAt(all, |log|);
    }
    if GoodReading(o) && Confirmed(log) {
      var c: nat :| ConfirmedAt(log, c);
      assert all[..c + 1] == log[..c + 1];
      assert ConfirmedAt(all, c);
    }
  }

  lemma {:induction false} ConfirmedNeedsRun(log: seq<Occurrence>)
    requires Confirmed(log)
    ensures Run(log) >= REQUIRED_HEALTHY_SAMPLES
    decreases |log|
  {
    hide Run, Confirmed;
    if |log| == 0 {
      EmptyIsUnconfirmed();
    } else {
      assert log == Before(log) + [Last(log)];
      ConfirmedGrows(Before(log), Last(log));
      RunGrows(Before(log), Last(log));
      if Confirmed(Before(log)) {
        ConfirmedNeedsRun(Before(log));
      }
    }
  }

  lemma EmptyIsUnconfirmed()
    ensures !Confirmed([])
  {}

  // ----- Mode and faults in closed form

  lemma LogStep(start: int, steps: seq<Step>)
    requires |steps| > 0
    ensures var before, step := Before(steps), Last(steps);
      Log(start, steps) == Log(start, before) + OccurrenceOf(IsTick(StateOf(start, before), step), step)
  {}

  /** The reports a step adds to the history. */
  function NewReports(tick: bool, step: Step): seq<Report> {
    if tick && step.Polled? then [Evaluated(step.readings)] else []
  }

  lemma ReportsStep(start: int, steps: seq<Step>)
    requires |steps| > 0
    ensures Reports(Log(start, steps)) ==
      Reports(Log(start, Before(steps))) + NewReports(TickAt(start, steps), Last(steps))
  {
    var log, o := Log(start, Before(steps)), OccurrenceOf(TickAt(start, steps), Last(steps));
    LogStep(start, steps);
    hide Reports, Log, TickAt, Evaluated;
    if |o| == 1 {
      assert o == [o[0]];
      ReportsGrow(log, o[0]);
    } else {
      assert log + o == log;
      assert Reports(log) + [] == Reports(log);
    }
  }

  /** The fault manager has seen exactly the reports of the log. */
  lemma {:induction false} FaultsFollowReports(start: int, steps: seq<Step>)
    ensures StateOf(start, steps).fault == StateAfter(true, Reports(Log(start, steps)))
    decreases |steps|
  {
    if |steps| > 0 {
      FaultsFollowReports(start, Before(steps));
      ReportsStep(start, steps);
      hide Updated, Evaluated, CatchUp, StateAfter, Reports, Log;
      var reports := Reports(Log(start, Before(steps)));
      if TickAt(start, steps) {
        HistoryGrows(reports, Evaluated(Last(steps).readings));
      } else {
        assert reports + [] == reports;
      }
    }
  }

  /** One occurrence moves the mode as the closed form says, if it described the mode so far. */
  lemma ModeStep(log: seq<Occurrence>, mode: Mode, o: Occurrence)
    requires mode == if Confirmed(log) then Nominal else Safe
    ensures var next := match o
        case SafeCommanded => Next(mode, SafeModeRequested)
        case Reading(r) => ModeAfterEvent(mode, Updated(StateAfter(true, Reports(log)), r).1);
      next == if Confirmed(log + [o]) then Nominal else Safe
  {
    ConfirmedGrows(log, o);
    if Confirmed(log) {
      ConfirmedNeedsRun(log);
    }
    if o.Reading? {
      var reports := Reports(log) + [o.report];
      assert Before(reports) == Reports(log) && Last(reports) == o.report;
      HistoryGrows(Reports(log), o.report);
      EventExactlyWhen(true, reports);
    }
    hide Confirmed, StateAfter, HealthyRun, Updated;
  }

  /**
   * The mode in every reachable state: never Boot, and Nominal exactly when three healthy
   * readings in a row have been followed by healthy readings only, no fault and no
   * EnterSafeMode command. Until then it is Safe.
   */
  lemma {:induction false} ModeExactlyWhen(start: int, steps: seq<Step>)
    ensures StateOf(start, steps).mode == if Confirmed(Log(start, steps)) then Nominal else Safe
    decreases |steps|
  {
    hide Updated, Evaluated, CatchUp, Confirmed, StateAfter;
    if |steps| == 0 {
      EmptyIsUnconfirmed();
    } else {
      var before, step := Before(steps), Last(steps);
      var log, s := Log(start, before), StateOf(start, before);
      ModeExactlyWhen(start, before);
      FaultsFollowReports(start, before);
      LogStep(start, steps);
      var o := OccurrenceOf(IsTick(s, step), step);
      if |o| == 1 {
        ModeStep(log, s.mode, o[0]);
        assert o == [o[0]];
      } else {
        assert log + o == log;
      }
    }
  }

  /** A Safe mode without a fault was commanded; only a new fault and three healthy readings after it end it. */
  lemma CommandedSafeEndsAfterFault(start: int, early: seq<Step>, late: seq<Step>)
    requires early <= late && StateOf(start, early).mode == Safe && !StateOf(start, early).fault.faulted
    requires StateOf(start, late).mode == Nominal
    ensures var a, b := Log(start, early), Log(start, late);
      exists k, c: nat :: |a| <= k < c < |b| && b[k].Reading? && !b[k].report.Healthy() && ConfirmedAt(b, c)
  {
    var a, b := Log(start, early), Log(start, late);
    ModeExactlyWhen(start, early);
    ModeExactlyWhen(start, late);
    FaultsFollowReports(start, early);
    FaultedExactlyWhen(true, Reports(a));
    LogPrefix(start, early, late);
    FaultBeforeConfirmation(a, b);
  }

  lemma {:induction false} LogPrefix(start: int, early: seq<Step>, late: seq<Step>)
    requires early <= late
    ensures Log(start, early) <= Log(start, late)
    decreases |late|
  {
    hide OccurrenceOf, TickAt;
    if |early| < |late| {
      LogPrefix(start, early, Before(late));
    } else {
      assert early == late;
    }
  }

  lemma {:induction false} RunSince(a: seq<Occurrence>, b: seq<Occurrence>)
    requires a <= b && forall k :: |a| <= k < |b| && b[k].Reading? ==> b[k].report.Healthy()
    ensures Run(b) >= Run(a)
    ensures |b| > |a| && GoodReading(b[|b| - 1]) ==> Run(b) > Run(a)
    decreases |b|
  {
    hide Run;
    if |a| == |b| {
      assert a == b;
    } else {
      RunSince(a, Before(b));
      assert b == Before(b) + [Last(b)];
      RunGrows(Before(b), Last(b));
    }
  }

  /** Three healthy readings in a row after the last fault take at least three readings. */
  lemma {:induction false} RunIsRecent(b: seq<Occurrence>, k: nat)
    requires k < |b| && b[k].Reading? && !b[k].report.Healthy()
    ensures Run(b) < |b| - k
    decreases |b|
  {
    hide Run;
    assert b == Before(b) + [Last(b)];
    RunGrows(Before(b), Last(b));
    if k < |b| - 1 {
      RunIsRecent(Before(b), k);
    }
  }

  lemma ConfirmedEarlier(a: seq<Occurrence>, b: seq<Occurrence>, c: nat)
    requires a <= b && c < |a| && ConfirmedAt(b, c)
    ensures Confirmed(a)
  {
    hide Run;
    assert a[..c + 1] == b[..c + 1];
    assert ConfirmedAt(a, c);
  }

  lemma FaultBeforeConfirmation(a: seq<Occurrence>, b: seq<Occurrence>)
    requires a <= b && Run(a) >= REQUIRED_HEALTHY_SAMPLES && !Confirmed(a) && Confirmed(b)
    ensures exists k, c: nat :: |a| <= k < c < |b| && b[k].Reading? && !b[k].report.Healthy() && ConfirmedAt(b, c)
  {
    hide Run;
    var c: nat :| ConfirmedAt(b, c);
    if c < |a| {
      ConfirmedEarlier(a, b, c);
      assert false;
    }
    var upTo := b[..c + 1];
    assert a <= upTo;
    if forall k :: |a| <= k < |upTo| && upTo[k].Reading? ==> upTo[k].report.Healthy() {
      RunSince(a, upTo);
      assert false;
    }
    var k :| |a| <= k < |upTo| && upTo[k].Reading? && !upTo[k].report.Healthy();
    RunIsRecent(upTo, k);
    assert b[k] == upTo[k];
  }

  // ----- The telemetry rate

  predicate InOrder(start: int, steps: seq<Step>) {
    && (forall k :: 0 <= k < |steps| ==> start <= steps[k].at)
    && (forall j, k :: 0 <= j < k < |steps| ==> steps[j].at <= steps[k].at)
  }

  /** How many telemetry ticks there have been. */
  function Ticks(start: int, steps: seq<Step>): nat { |Reports(Log(start, steps))| }

  lemma TicksStep(start: int, steps: seq<Step>)
    requires |steps| > 0
    ensures Ticks(start, steps) == Ticks(start, Before(steps)) + if TickAt(start, steps) then 1 else 0
  {
    ReportsStep(start, steps);
    hide Reports, Log, Evaluated;
  }

  function Clock(start: int, steps: seq<Step>): int { if |steps| == 0 then start else Last(steps).at }

  /** The period is always allowed, and the deadline keeps pace with the ticks on one side, the clock on the other. */
  lemma {:induction false} DeadlineInvariant(start: int, steps: seq<Step>)
    requires InOrder(start, steps)
    ensures var s := StateOf(start, steps);
      && PeriodAllowed(s.periodMs)
      && MINIMUM_TELEMETRY_PERIOD_MS * Ticks(start, steps) <= s.deadline - s.periodMs - start
      && s.deadline - s.periodMs <= Clock(start, steps)
    decreases |steps|
  {
    hide Updated, Evaluated, CatchUp, Ticks, ModeAfterEvent;
    if |steps| == 0 {
      NoTicks(start);
    } else {
      DeadlineInvariant(start, Before(steps));
      TicksStep(start, steps);
      assert Clock(start, Before(steps)) <= Last(steps).at;
    }
  }

  lemma NoTicks(start: int)
    ensures Ticks(start, []) == 0
  {}

  /** At most one tick every 250 milliseconds since boot, however commands and polls interleave. */
  lemma TelemetryRateBound(start: int, steps: seq<Step>)
    requires InOrder(start, steps)
    ensures MINIMUM_TELEMETRY_PERIOD_MS * Ticks(start, steps) <= Clock(start, steps) - start
  {
    DeadlineInvariant(start, steps);
  }

  /** Catching up skips whole periods: the new deadline is the old one plus a positive number of them. */
  lemma {:induction false} CatchUpKeepsPhase(deadline: int, periodMs: u32, now: int)
    requires periodMs > 0
    ensures exists k: nat :: k > 0 && CatchUp(deadline, periodMs, now) == deadline + Times(k, periodMs)
    decreases now - deadline
  {
    if deadline + periodMs > now {
      assert CatchUp(deadline, periodMs, now) == deadline + Times(1, periodMs);
    } else {
      CatchUpKeepsPhase(deadline + periodMs, periodMs, now);
      var k: nat :| k > 0 && CatchUp(deadline + periodMs, periodMs, now) == deadline + periodMs + Times(k, periodMs);
      assert Times(k + 1, periodMs) == periodMs + Times(k, periodMs);
    }
  }

  function Times(k: nat, n: nat): nat { if k == 0 then 0 else n + Times(k - 1, n) }

  // ----- What goes down the link

  lemma {:induction false} SequenceCountsTicks(start: int, steps: seq<Step>)
    ensures StateOf(start, steps).nextSequence == Ticks(start, steps) % 0x1_0000_0000
    decreases |steps|
  {
    hide Updated, Evaluated, CatchUp, Ticks, ModeAfterEvent;
    if |steps| == 0 {
      NoTicks(start);
    } else {
      SequenceCountsTicks(start, Before(steps));
      TicksStep(start, steps);
    }
  }

  lemma {:induction false} ReportsAreKnown(start: int, steps: seq<Step>)
    ensures forall r :: r in Reports(Log(start, steps)) ==> r.activeFaults & !KNOWN_FAULTS == 0
    decreases |steps|
  {
    if |steps| > 0 {
      ReportsAreKnown(start, Before(steps));
      ReportsStep(start, steps);
      hide Log, Reports, TickAt;
    }
  }

  lemma KnownBitsAreSmall(mask: bv8)
    requires mask & !KNOWN_FAULTS == 0
    ensures mask as int <= 7
  {
    assert mask <= 7;
  }

  lemma LatchedFits(start: int, steps: seq<Step>)
    ensures TelemetryCodec.OnlyKnownFaults(StateOf(start, steps).fault.latched as int)
  {
    hide StateOf, Reports, Log;
    FaultsFollowReports(start, steps);
    ReportsAreKnown(start, steps);
    LatchedIsKnown(true, Reports(Log(start, steps)));
    KnownBitsAreSmall(StateOf(start, steps).fault.latched);
  }

  /** The message a receiver should see for the tick that ends `steps`. */
  function ExpectedTelemetry(start: int, steps: seq<Step>): T.Message
    requires |steps| > 0 && TickAt(start, steps)
  {
    var step, s := Last(steps), StateOf(start, steps);
    var sequence, uptimeMs := Ticks(start, Before(steps)) % 0x1_0000_0000, step.at % 0x1_0000_0000_0000_0000;
    T.Message(T.Snapshot(sequence, uptimeMs, s.mode, step.readings), s.fault.latched as int)
  }

  /** The message of a tick can always be encoded, in every reachable state. */
  lemma TickIsEncoded(start: int, steps: seq<Step>)
    requires |steps| > 0 && TickAt(start, steps)
    ensures var t := ExpectedTelemetry(start, steps);
      && TelemetryCodec.EncodedTelemetry(t).Success?
      && Sent(StateOf(start, Before(steps)), Last(steps)) == [TelemetryCodec.EncodedTelemetry(t).value]
  {
    var before, step := Before(steps), Last(steps);
    var m := TickMessage(StateOf(start, before), step.at, step.readings);
    SequenceCountsTicks(start, before);
    ModeExactlyWhen(start, steps);
    LatchedFits(start, steps);
    assert m == ExpectedTelemetry(start, steps);
    hide TelemetryCodec.EncodedTelemetry, ExpectedTelemetry, TickMessage;
    TelemetryCodec.EncodeTelemetrySucceedsWhen(m);
  }

  /**
   * Every tick, in every reachable state, sends one telemetry frame that decodes to the
   * tick's number modulo 2^32, its time, readings, resulting mode and latched faults.
   */
  lemma EveryTickIsReported(start: int, steps: seq<Step>)
    requires |steps| > 0 && TickAt(start, steps)
    ensures var sent := Sent(StateOf(start, Before(steps)), Last(steps));
      |sent| == 1 && TelemetryCodec.DecodedTelemetry(sent[0]) == Success(ExpectedTelemetry(start, steps))
  {
    hide TelemetryCodec.EncodedTelemetry, TelemetryCodec.DecodedTelemetry, ExpectedTelemetry, Sent;
    TickIsEncoded(start, steps);
    TelemetryCodec.EncodeTelemetryThenDecode(ExpectedTelemetry(start, steps));
  }

  /** Every known command is answered by one frame that decodes to its own sequence number and command. */
  lemma EveryCommandIsAnswered(s: FlightState, m: CommandMessage, at: int)
    requires m.command != UnknownCommand
    ensures var sent := Sent(s, Commanded(m, at));
      |sent| == 1 && DecodedAck(sent[0]) == Success(AckFor(s.mode, m))
  {
    hide EncodedAck, DecodedAck;
    EncodeAckThenDecode(AckFor(s.mode, m));
  }

  /**
   * After a tick the mode is Nominal if its reading is the third healthy one in a row, what it
   * was before if it is a later one of such a row, and Safe otherwise.
   */
  lemma ModeAfterTick(start: int, steps: seq<Step>)
    requires |steps| > 0 && TickAt(start, steps)
    ensures var run := Run(Log(start, steps));
      StateOf(start, steps).mode ==
        if run == REQUIRED_HEALTHY_SAMPLES then Nominal
        else if run > REQUIRED_HEALTHY_SAMPLES then StateOf(start, Before(steps)).mode
        else Safe
  {
    var log, o := Log(start, Before(steps)), Reading(Evaluated(Last(steps).readings));
    LogStep(start, steps);
    assert Log(start, steps) == log + [o];
    ModeExactlyWhen(start, steps);
    ModeExactlyWhen(start, Before(steps));
    hide Log, StateOf, TickAt, Run, Confirmed, Evaluated;
    ConfirmedGrows(log, o);
    RunGrows(log, o);
    if Confirmed(log + [o]) {
      ConfirmedNeedsRun(log + [o]);
    }
  }

  /** The argument asked for is not one the period can be set to. */
  predicate BadPeriod(m: CommandMessage) {
    m.command == SetTelemetryPeriod && !(250 <= m.periodMs <= 10000)
  }

  /**
   * In every reachable state a known command is answered by one frame that decodes to its own
   * sequence number and command: invalid if it asks for a period out of range, accepted otherwise.
   */
  lemma AnswerExactlyWhen(start: int, steps: seq<Step>, m: CommandMessage, at: int)
    requires m.command != UnknownCommand
    ensures var sent := Sent(StateOf(start, steps), Commanded(m, at));
      && |sent| == 1
      && DecodedAck(sent[0]) ==
         Success(AckMessage(m.sequence, m.command, if BadPeriod(m) then InvalidArgument else AckAccepted))
  {
    var s := StateOf(start, steps);
    ModeExactlyWhen(start, steps);
    AcceptedUnlessBad(s.mode, m);
    hide StateOf, Sent, DecodedAck, AckFor;
    EveryCommandIsAnswered(s, m, at);
  }

  lemma AcceptedUnlessBad(mode: Mode, m: CommandMessage)
    requires (mode == Safe || mode == Nominal) && m.command != UnknownCommand
    ensures AckFor(mode, m) ==
      AckMessage(m.sequence, m.command, if BadPeriod(m) then InvalidArgument else AckAccepted)
  {}

  /** The period last asked for within range, one second if there was none. */
  function PeriodAsked(steps: seq<Step>): nat
    decreases |steps|
  {
    if |steps| == 0 then 1000
    else match Last(steps)
      case Commanded(m, _) =>
        if m.command == SetTelemetryPeriod && !BadPeriod(m) then m.periodMs else PeriodAsked(Before(steps))
      case Polled(_, _) => PeriodAsked(Before(steps))
  }

  /** The period in force is the last one asked for within range, whatever else happened. */
  lemma {:induction false} PeriodExactlyWhen(start: int, steps: seq<Step>)
    ensures StateOf(start, steps).periodMs == PeriodAsked(steps)
    decreases |steps|
  {
    hide Updated, Evaluated, CatchUp, ModeAfterEvent;
    if |steps| > 0 {
      PeriodExactlyWhen(start, Before(steps));
    }
  }

  // ----- The simulated sensors

  /** Whenever the loop asked, the readings were the next of the simulated samples. */
  predicate SimulatedSensors(start: int, steps: seq<Step>)
    decreases |steps|
  {
    |steps| > 0 ==>
      && SimulatedSensors(start, Before(steps))
      && (TickAt(start, steps) ==> Last(steps).readings == T.Sample(Ticks(start, Before(steps))))
  }

  function SampleReports(n: nat): (r: seq<Report>)
    ensures |r| == n
  {
    if n == 0 then [] else SampleReports(n - 1) + [Evaluated(T.Sample(n - 1))]
  }

  lemma SampleHealth(n: nat)
    ensures Evaluated(T.Sample(n)).Healthy() <==> n % T.SAMPLE_COUNT != 3 && n % T.SAMPLE_COUNT != 4
  {
    var m := n % T.SAMPLE_COUNT;
    assert m == 0 || m == 1 || m == 2 || m == 3 || m == 4 || m == 5 || m == 6 || m == 7;
  }

  lemma NextInCycle(n: nat)
    requires n > 0
    ensures n % T.SAMPLE_COUNT == if (n - 1) % T.SAMPLE_COUNT == 7 then 0 else (n - 1) % T.SAMPLE_COUNT + 1
  {}

  /** The healthy run the cycle leads to after sample n. */
  function CycleRun(n: nat): nat {
    var m := n % T.SAMPLE_COUNT;
    if m == 3 || m == 4 then 0
    else if m >= 5 then m - 4
    else if n < 3 then n + 1
    else m + 4
  }

  lemma CycleRunGrows(n: nat)
    ensures var m := n % T.SAMPLE_COUNT;
      CycleRun(n) == if m == 3 || m == 4 then 0 else if n == 0 then 1 else 1 + CycleRun(n - 1)
  {
    if n > 0 {
      NextInCycle(n);
    }
  }

  lemma {:induction false} SampleRun(n: nat)
    ensures HealthyRun(SampleReports(n + 1)) == CycleRun(n)
    decreases n
  {
    var r := Evaluated(T.Sample(n));
    assert SampleReports(n + 1) == SampleReports(n) + [r];
    assert HealthyRun(SampleReports(0)) == 0;
    hide Evaluated, T.Sample, SampleReports, HealthyRun, CycleRun;
    SampleHealth(n);
    HistoryGrows(SampleReports(n), r);
    CycleRunGrows(n);
    if n > 0 {
      SampleRun(n - 1);
    }
  }

  lemma {:induction false} SimulatedReports(start: int, steps: seq<Step>)
    requires SimulatedSensors(start, steps)
    ensures Reports(Log(start, steps)) == SampleReports(Ticks(start, steps))
    decreases |steps|
  {
    if |steps| > 0 {
      SimulatedReports(start, Before(steps));
      ReportsStep(start, steps);
      var reports := Reports(Log(start, Before(steps)));
      hide Log, Reports, Evaluated, T.Sample, TickAt;
      if TickAt(start, steps) {
        assert NewReports(true, Last(steps)) == [Evaluated(T.Sample(|reports|))];
      } else {
        assert reports + [] == reports;
      }
    }
  }

  /**
   * With the simulated sensors, whatever commands arrive in between: right after tick n the
   * mode is Nominal if n is 7 modulo 8 (and after tick 2), Safe if n is 3, 4, 5 or 6 modulo 8
   * (and after ticks 0 and 1), and after any other tick it is what it was before.
   */
  lemma SimulatedCycle(start: int, steps: seq<Step>)
    requires |steps| > 0 && TickAt(start, steps) && SimulatedSensors(start, steps)
    ensures var n, mode := Ticks(start, Before(steps)), StateOf(start, steps).mode;
      && (n % T.SAMPLE_COUNT == 7 || n == 2 ==> mode == Nominal)
      && (3 <= n % T.SAMPLE_COUNT <= 6 || n < 2 ==> mode == Safe)
      && (n > 2 && n % T.SAMPLE_COUNT < 3 ==> mode == StateOf(start, Before(steps)).mode)
  {
    var n := Ticks(start, Before(steps));
    TicksStep(start, steps);
    SimulatedReports(start, steps);
    SampleRun(n);
    assert Run(Log(start, steps)) == HealthyRun(SampleReports(n + 1));
    hide Run, Log, Ticks, StateOf, SampleReports, HealthyRun, SimulatedSensors, TickAt;
    ModeAfterTick(start, steps);
  }
}
