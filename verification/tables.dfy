/** The two input tables of the health monitor and the KPI record it returns.
    Timestamps are whole seconds; sensor channels are exact reals. */
module Tables {

  /** One row of the sensor table (`ts`, `flow_kg_s`, `dp_kPa`, `temp_C`, `vib_mm_s`). */
  datatype SensorReading = SensorReading(ts: int, flow: real, dp: real, temp: real, vib: real)

  /** The event table's `type` column is free text; the analytics compare it
      against three literal values and ignore every other value. */
  type EventType = string

  const FailureType: EventType := "failure"
  const WoOpenType: EventType := "wo_open"
  const WoCloseType: EventType := "wo_close"

  /** One row of the event table (`type`, `start`, `end`, `system`). */
  datatype Event = Event(kind: EventType, start: int, end: int, system: string)

  /** A floating-point percentage that may be NaN, as the mean of an empty
      column is. */
  datatype Percent = NotANumber | Percent(value: real)

  /** The dictionary returned by the KPI computation. */
  datatype KpiSnapshot = KpiSnapshot(availabilityPct: Percent, demandFailures: nat, openWorkOrders: int)
}
