/** Sensor readings, the snapshots sent down, and the counter that numbers them. */
module Telemetry {
  import opened Bytes
  import FlightMode

  datatype SensorReadings = SensorReadings(batteryMv: u16, boardTemperatureCentiC: i16, solarCurrentMa: u16)

  datatype Snapshot = Snapshot(sequence: u32, uptimeMs: u64, flightMode: FlightMode.Mode, readings: SensorReadings)

  datatype Message = Message(snapshot: Snapshot, latchedFaultMask: u32)

  /** Unsigned 32-bit increment. */
  function NextSequence(n: u32): u32 { (n + 1) % 0x1_0000_0000 }

  class Collector {
    var nextSequence: u32

    constructor (initial: u32 := 0)
      ensures nextSequence == initial
    {
      nextSequence := initial;
    }

    method Capture(uptimeMs: u64, mode: FlightMode.Mode, readings: SensorReadings) returns (snapshot: Snapshot)
      modifies this
      ensures snapshot == Snapshot(old(nextSequence), uptimeMs, mode, readings)
      ensures nextSequence == NextSequence(old(nextSequence))
    {
      snapshot := Snapshot(nextSequence, uptimeMs, mode, readings);
      nextSequence := NextSequence(nextSequence);
    }
  }

  /** The simulated sensors: eight samples, over and over. */
  const SAMPLES: seq<SensorReadings> := [
    SensorReadings(7400, 2200, 320),
    SensorReadings(7380, 2250, 340),
    SensorReadings(7360, 2300, 360),
    SensorReadings(6900, 2400, 300),
    SensorReadings(6800, 6100, 280),
    SensorReadings(7340, 2350, 320),
    SensorReadings(7320, 2400, 340),
    SensorReadings(7300, 2450, 360)
  ]

  const SAMPLE_COUNT: nat := 8

  /** What the sensors return on their n-th read, counted from zero. */
  function Sample(n: nat): SensorReadings { SAMPLES[n % SAMPLE_COUNT] }

  /** The samples one by one, and round again. */
  lemma SampleCycle(n: nat)
    ensures Sample(8 * n) == SensorReadings(7400, 2200, 320)
    ensures Sample(8 * n + 1) == SensorReadings(7380, 2250, 340)
    ensures Sample(8 * n + 2) == SensorReadings(7360, 2300, 360)
    ensures Sample(8 * n + 3) == SensorReadings(6900, 2400, 300)
    ensures Sample(8 * n + 4) == SensorReadings(6800, 6100, 280)
    ensures Sample(8 * n + 5) == SensorReadings(7340, 2350, 320)
    ensures Sample(8 * n + 6) == SensorReadings(7320, 2400, 340)
    ensures Sample(8 * n + 7) == SensorReadings(7300, 2450, 360)
  {
    assert (8 * n) % SAMPLE_COUNT == 0;
  }

  class SimulatedSensorSource {
    var nextSample: nat
    ghost var readCount: nat

    ghost predicate Valid()
      reads this
    {
      nextSample == readCount % SAMPLE_COUNT
    }

    constructor ()
      ensures Valid() && readCount == 0
    {
      nextSample := 0;
      readCount := 0;
    }

    method Read() returns (reading: SensorReadings)
      requires Valid()
      modifies this
      ensures Valid() && readCount == old(readCount) + 1
      ensures reading == Sample(old(readCount))
    {
      reading := SAMPLES[nextSample];
      nextSample := nextSample + 1;
      if nextSample == SAMPLE_COUNT {
        nextSample := 0;
      }
      readCount := readCount + 1;
    }
  }
}
