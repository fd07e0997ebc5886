/** Fault latching and the three-sample recovery, and what they amount to over a whole history of reports. */
module FaultManager {
  import opened Wrappers
  import opened Health
  import opened FlightMode

  const REQUIRED_HEALTHY_SAMPLES: nat := 3

  datatype FaultState = FaultState(latched: bv8, healthyStreak: nat, faulted: bool)

  function Initial(initiallyFaulted: bool): FaultState { FaultState(0, 0, initiallyFaulted) }

  function Merge(a: bv8, b: bv8): bv8 { a | b }

  /** One update: the new state and the event it raises, if any. */
  function Updated(s: FaultState, report: Report): (FaultState, Option<Event>) {
    if !report.Healthy() then
      (FaultState(Merge(s.latched, report.activeFaults), 0, true), if s.faulted then None else Some(FaultDetected))
    else if !s.faulted then (s, None)
    else
      var streak := if s.healthyStreak < REQUIRED_HEALTHY_SAMPLES then s.healthyStreak + 1 else s.healthyStreak;
      if streak == REQUIRED_HEALTHY_SAMPLES then (FaultState(0, streak, false), Some(HealthConfirmed))
      else (s.(healthyStreak := streak), None)
  }

  class Manager {
    var latchedFaultMask: bv8
    var healthyStreak: nat
    var faulted: bool

    function State(): FaultState
      reads this
    {
      FaultState(latchedFaultMask, healthyStreak, faulted)
    }

    constructor (initiallyFaulted: bool := false)
      ensures State() == Initial(initiallyFaulted)
    {
      latchedFaultMask := 0;
      healthyStreak := 0;
      faulted := initiallyFaulted;
    }

    method Update(report: Report) returns (event: Option<Event>)
      modifies this
      ensures (State(), event) == Updated(old(State()), report)
    {
      if !report.Healthy() {
        latchedFaultMask := Merge(latchedFaultMask, report.activeFaults);
        healthyStreak := 0;
        if !faulted {
          faulted := true;
          return Some(FaultDetected);
        }
        return None;
      }
      if !faulted {
        return None;
      }
      if healthyStreak < REQUIRED_HEALTHY_SAMPLES {
        healthyStreak := healthyStreak + 1;
      }
      if healthyStreak == REQUIRED_HEALTHY_SAMPLES {
        faulted := false;
        latchedFaultMask := 0;
        return Some(HealthConfirmed);
      }
      return None;
    }
  }

  // ----- Histories

  /** The state after all these reports. */
  function StateAfter(initiallyFaulted: bool, reports: seq<Report>): FaultState
    decreases |reports|
  {
    if |reports| == 0 then Initial(initiallyFaulted)
    else Updated(StateAfter(initiallyFaulted, Before(reports)), Last(reports)).0
  }

  /** The event raised by the last of these reports. */
  function LastEvent(initiallyFaulted: bool, reports: seq<Report>): Option<Event>
    requires |reports| > 0
  {
    Updated(StateAfter(initiallyFaulted, Before(reports)), Last(reports)).1
  }

  /** All events raised so far, in order. */
  function EventsSoFar(initiallyFaulted: bool, reports: seq<Report>): seq<Event>
    decreases |reports|
  {
    if |reports| == 0 then []
    else
      EventsSoFar(initiallyFaulted, Before(reports))
      + match LastEvent(initiallyFaulted, reports) case None => [] case Some(e) => [e]
  }

  /** How many healthy reports the history ends with. */
  function HealthyRun(reports: seq<Report>): nat
    decreases |reports|
  {
    if |reports| == 0 || !Last(reports).Healthy() then 0 else 1 + HealthyRun(Before(reports))
  }

  /** A fault was there from the start or has been reported since. */
  predicate EverFaulty(initiallyFaulted: bool, reports: seq<Report>) {
    initiallyFaulted || exists k :: 0 <= k < |reports| && !reports[k].Healthy()
  }

  lemma EverFaultyGrows(initiallyFaulted: bool, reports: seq<Report>)
    requires |reports| > 0
    ensures EverFaulty(initiallyFaulted, reports)
      <==> EverFaulty(initiallyFaulted, Before(reports)) || !Last(reports).Healthy()
  {
    var b := Before(reports);
    if EverFaulty(initiallyFaulted, b) && !initiallyFaulted {
      var k :| 0 <= k < |b| && !b[k].Healthy();
      assert !reports[k].Healthy();
    }
    if EverFaulty(initiallyFaulted, reports) && !initiallyFaulted && Last(reports).Healthy() {
      var k :| 0 <= k < |reports| && !reports[k].Healthy();
      assert !b[k].Healthy();
    }
  }

  /** Faulted exactly when some fault has been seen and fewer than three healthy reports have followed the last one. */
  lemma {:induction false} FaultedExactlyWhen(initiallyFaulted: bool, reports: seq<Report>)
    ensures var s, ever := StateAfter(initiallyFaulted, reports), EverFaulty(initiallyFaulted, reports);
      && s.faulted == (ever && HealthyRun(reports) < REQUIRED_HEALTHY_SAMPLES)
      && s.healthyStreak == (if s.faulted then HealthyRun(reports) else if ever then REQUIRED_HEALTHY_SAMPLES else 0)
    decreases |reports|
  {
    if |reports| > 0 {
      FaultedExactlyWhen(initiallyFaulted, Before(reports));
      EverFaultyGrows(initiallyFaulted, reports);
      hide EverFaulty;
    }
  }

  /** When each event is raised, in terms of the reports alone. */
  lemma EventExactlyWhen(initiallyFaulted: bool, reports: seq<Report>)
    requires |reports| > 0
    ensures var ever, run := EverFaulty(initiallyFaulted, Before(reports)), HealthyRun(Before(reports));
      LastEvent(initiallyFaulted, reports) ==
        if Last(reports).Healthy() then
          if ever && run + 1 == REQUIRED_HEALTHY_SAMPLES then Some(HealthConfirmed) else None
        else if ever && run < REQUIRED_HEALTHY_SAMPLES then None else Some(FaultDetected)
  {
    FaultedExactlyWhen(initiallyFaulted, Before(reports));
    hide EverFaulty;
  }

  /** FaultDetected and HealthConfirmed take turns; which comes first depends on the initial state only. */
  lemma {:induction false} EventsAlternate(initiallyFaulted: bool, reports: seq<Report>)
    ensures var e := EventsSoFar(initiallyFaulted, reports);
      && (forall k :: 0 <= k < |e| ==>
            e[k] == if (k % 2 == 0) == initiallyFaulted then HealthConfirmed else FaultDetected)
      && StateAfter(initiallyFaulted, reports).faulted == ((|e| % 2 == 0) == initiallyFaulted)
    decreases |reports|
  {
    if |reports| > 0 {
      EventsAlternate(initiallyFaulted, Before(reports));
    }
  }

  /** The union of the fault masks of these reports. */
  function AllFaults(reports: seq<Report>): bv8
    decreases |reports|
  {
    if |reports| == 0 then 0 else Merge(AllFaults(Before(reports)), Last(reports).activeFaults)
  }

  /** How many reports there had been at the last HealthConfirmed; none if there was no such event. */
  function LastConfirmation(initiallyFaulted: bool, reports: seq<Report>): (n: nat)
    ensures n <= |reports|
    decreases |reports|
  {
    if |reports| == 0 then 0
    else if LastEvent(initiallyFaulted, reports) == Some(HealthConfirmed) then |reports|
    else LastConfirmation(initiallyFaulted, Before(reports))
  }

  lemma MergeHealthy(a: bv8)
    ensures Merge(a, 0) == a
  {}

  /** The latched mask is the union of everything reported since the last HealthConfirmed. */
  lemma {:induction false} LatchedIsUnion(initiallyFaulted: bool, reports: seq<Report>)
    ensures StateAfter(initiallyFaulted, reports).latched
      == AllFaults(reports[LastConfirmation(initiallyFaulted, reports)..])
    decreases |reports|
  {
    hide Merge;
    if |reports| > 0 {
      var n := LastConfirmation(initiallyFaulted, reports);
      LatchedIsUnion(initiallyFaulted, Before(reports));
      MergeHealthy(StateAfter(initiallyFaulted, Before(reports)).latched);
      if n < |reports| {
        assert Before(reports[n..]) == Before(reports)[n..];
        assert Last(reports[n..]) == Last(reports);
      }
    }
  }

  lemma MergeBit(a: bv8, b: bv8, bit: bv8)
    ensures Merge(a, b) & bit != 0 <==> a & bit != 0 || b & bit != 0
  {}

  lemma {:induction false} AllFaultsBit(reports: seq<Report>, bit: bv8)
    ensures AllFaults(reports) & bit != 0 <==> exists k :: 0 <= k < |reports| && reports[k].HasFault(bit)
    decreases |reports|
  {
    hide Merge;
    if |reports| > 0 {
      var before, last := Before(reports), |reports| - 1;
      AllFaultsBit(before, bit);
      MergeBit(AllFaults(before), Last(reports).activeFaults, bit);
      if k :| 0 <= k < |before| && before[k].HasFault(bit) {
        assert reports[k].HasFault(bit);
      }
      if k :| 0 <= k < |reports| && reports[k].HasFault(bit) && k != last {
        assert before[k].HasFault(bit);
      }
    }
  }

  /** A bit is latched exactly if a report since the last HealthConfirmed had it set. */
  lemma LatchedBitExactlyWhen(initiallyFaulted: bool, reports: seq<Report>, bit: bv8)
    ensures StateAfter(initiallyFaulted, reports).latched & bit != 0 <==>
      exists k :: LastConfirmation(initiallyFaulted, reports) <= k < |reports| && reports[k].HasFault(bit)
  {
    hide StateAfter, LastConfirmation, AllFaults, Report.HasFault;
    var n := LastConfirmation(initiallyFaulted, reports);
    var recent := reports[n..];
    LatchedIsUnion(initiallyFaulted, reports);
    AllFaultsBit(recent, bit);
    if k :| 0 <= k < |recent| && recent[k].HasFault(bit) {
      assert reports[n + k].HasFault(bit);
    }
    if k :| n <= k < |reports| && reports[k].HasFault(bit) {
      assert recent[k - n].HasFault(bit);
    }
  }

  /** Merging known faults never sets an unknown bit. */
  lemma {:induction false} LatchedIsKnown(initiallyFaulted: bool, reports: seq<Report>)
    requires forall k :: 0 <= k < |reports| ==> reports[k].activeFaults & !KNOWN_FAULTS == 0
    ensures StateAfter(initiallyFaulted, reports).latched & !KNOWN_FAULTS == 0
    decreases |reports|
  {
    if |reports| > 0 {
      LatchedIsKnown(initiallyFaulted, Before(reports));
      MergeKnown(StateAfter(initiallyFaulted, Before(reports)).latched, Last(reports).activeFaults);
      hide Merge;
    }
  }

  lemma MergeKnown(a: bv8, b: bv8)
    requires a & !KNOWN_FAULTS == 0 && b & !KNOWN_FAULTS == 0
    ensures Merge(a, b) & !KNOWN_FAULTS == 0
  {}
}
