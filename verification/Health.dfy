/** Health limits, and the fault bits raised when a reading is outside them. */
module Health {
  import opened Telemetry

  const BATTERY_UNDERVOLTAGE: bv8 := 1
  const BOARD_UNDERTEMPERATURE: bv8 := 2
  const BOARD_OVERTEMPERATURE: bv8 := 4
  const KNOWN_FAULTS: bv8 := 7

  const MINIMUM_BATTERY_MV := 7000
  const MINIMUM_TEMPERATURE_CENTI_C := -1000
  const MAXIMUM_TEMPERATURE_CENTI_C := 6000

  datatype Report = Report(activeFaults: bv8) {
    predicate Healthy() { activeFaults == 0 }

    predicate HasFault(fault: bv8) { activeFaults & fault != 0 }
  }

  predicate InLimits(r: SensorReadings) {
    r.batteryMv >= MINIMUM_BATTERY_MV
    && MINIMUM_TEMPERATURE_CENTI_C <= r.boardTemperatureCentiC <= MAXIMUM_TEMPERATURE_CENTI_C
  }

  /** Each bit says whether its own limit is broken; solar current has no limit. */
  function Evaluated(r: SensorReadings): (report: Report)
    ensures report.Healthy() <==> InLimits(r)
    ensures report.HasFault(BATTERY_UNDERVOLTAGE) <==> r.batteryMv < MINIMUM_BATTERY_MV
    ensures report.HasFault(BOARD_UNDERTEMPERATURE) <==> r.boardTemperatureCentiC < MINIMUM_TEMPERATURE_CENTI_C
    ensures report.HasFault(BOARD_OVERTEMPERATURE) <==> r.boardTemperatureCentiC > MAXIMUM_TEMPERATURE_CENTI_C
    ensures report.activeFaults & !KNOWN_FAULTS == 0
  {
    Report((if r.batteryMv < MINIMUM_BATTERY_MV then BATTERY_UNDERVOLTAGE else 0)
      | (if r.boardTemperatureCentiC < MINIMUM_TEMPERATURE_CENTI_C then BOARD_UNDERTEMPERATURE else 0)
      | (if r.boardTemperatureCentiC > MAXIMUM_TEMPERATURE_CENTI_C then BOARD_OVERTEMPERATURE else 0))
  }

  method Evaluate(r: SensorReadings) returns (report: Report)
    ensures report == Evaluated(r)
  {
    var activeFaults: bv8 := 0;
    if r.batteryMv < MINIMUM_BATTERY_MV {
      activeFaults := activeFaults | BATTERY_UNDERVOLTAGE;
    }
    if r.boardTemperatureCentiC < MINIMUM_TEMPERATURE_CENTI_C {
      activeFaults := activeFaults | BOARD_UNDERTEMPERATURE;
    }
    if r.boardTemperatureCentiC > MAXIMUM_TEMPERATURE_CENTI_C {
      activeFaults := activeFaults | BOARD_OVERTEMPERATURE;
    }
    report := Report(activeFaults);
  }

  /** The bits and limits in plain numbers: 7 V, and -10 to 60 degrees. */
  lemma FaultBits(r: SensorReadings)
    ensures var faults := Evaluated(r).activeFaults;
      && (faults & 1 != 0 <==> r.batteryMv < 7000)
      && (faults & 2 != 0 <==> r.boardTemperatureCentiC < -1000)
      && (faults & 4 != 0 <==> r.boardTemperatureCentiC > 6000)
      && faults & 0xF8 == 0
  {}
}
