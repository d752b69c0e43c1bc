/**
 * The heartbeat store of `sharp_hems/metrics/collector.py`.
 *
 * Each sensor report is quantised into a 360-second slot; the table `sensor_heartbeats` holds
 * at most one row per (sensor, slot), so it is a map from that pair to the row's timestamp.
 * `sensor_availability` holds one summary row per (sensor, date), a map as well.
 */
module Metrics {
  import opened Wrappers
  import opened IntSets

  /** The length of one time slot, the sensors' report cadence: 6 minutes. */
  const SLOT_SECONDS: int := 360
  /** The grace after a slot boundary within which a report may still fill the slot before it. */
  const DEFAULT_GRACE: int := 30
  /** One day of slots: 24 * 60 / 6. */
  const SLOTS_PER_DAY: int := 240
  const DAY_SECONDS: int := 86400

  /** A row key of `sensor_heartbeats`: UNIQUE(sensor_name, time_slot). */
  type HeartbeatKey = (string, int)
  type Heartbeats = map<HeartbeatKey, int>

  /** A row of `sensor_availability`; the rounded percentage is left to `received / expected`. */
  datatype Summary = Summary(expected: int, received: int)
  /** Summary rows keyed by sensor and day; a day is the number of days since the epoch. */
  type Summaries = map<(string, int), Summary>

  /** `timestamp // 360`; Dafny's division by a positive divisor floors like Python's. */
  function SlotOf(ts: int): (slot: int)
    ensures slot * SLOT_SECONDS <= ts < (slot + 1) * SLOT_SECONDS
  {
    ts / SLOT_SECONDS
  }

  /** Later reports never fall into earlier slots. */
  lemma SlotOfMonotonic(t1: int, t2: int)
    requires t1 <= t2
    ensures SlotOf(t1) <= SlotOf(t2)
  {
  }

  /** The slots in which `sensor` has a heartbeat row. */
  function SlotsOf(hb: Heartbeats, sensor: string): (slots: set<int>)
    ensures forall slot :: slot in slots <==> (sensor, slot) in hb
  {
    set k | k in hb && k.0 == sensor :: k.1
  }

  /** The timestamps of the heartbeat rows of `sensor`. */
  function TimestampsOf(hb: Heartbeats, sensor: string): (ts: set<int>)
    ensures forall k :: k in hb && k.0 == sensor ==> hb[k] in ts
    ensures forall t :: t in ts ==> exists k :: k in hb && k.0 == sensor && hb[k] == t
  {
    set k | k in hb && k.0 == sensor :: hb[k]
  }

  /** The sensor has at least one heartbeat row. */
  predicate HasRows(hb: Heartbeats, sensor: string) {
    exists k :: k in hb && k.0 == sensor
  }

  /**
   * The slot a report at `ts` is stored in: the slot before its own when it arrives at most
   * `grace` seconds after the boundary, its own slot is not the first, and the slot before is
   * still empty for this sensor; its own slot otherwise.
   */
  function TargetSlot(hb: Heartbeats, sensor: string, ts: int, grace: int): (slot: int)
    ensures slot == SlotOf(ts) || slot == SlotOf(ts) - 1
    ensures slot == SlotOf(ts) - 1 <==>
      ts % SLOT_SECONDS <= grace && SlotOf(ts) > 0 && (sensor, SlotOf(ts) - 1) !in hb
  {
    var current := ts / SLOT_SECONDS;
    var into := ts - current * SLOT_SECONDS;
    if into <= grace && current > 0 && (sensor, current - 1) !in hb then current - 1 else current
  }

  /** The table after `record_heartbeat(sensor, ts, grace)`: INSERT OR REPLACE at the target slot. */
  function Recorded(hb: Heartbeats, sensor: string, ts: int, grace: int): (hb': Heartbeats)
    ensures (sensor, TargetSlot(hb, sensor, ts, grace)) in hb' && hb'[(sensor, TargetSlot(hb, sensor, ts, grace))] == ts
    ensures hb'.Keys == hb.Keys + {(sensor, TargetSlot(hb, sensor, ts, grace))}
    ensures forall k :: k in hb && k != (sensor, TargetSlot(hb, sensor, ts, grace)) ==> hb'[k] == hb[k]
  {
    hb[(sensor, TargetSlot(hb, sensor, ts, grace)) := ts]
  }

  /** Every row sits in its timestamp's slot or, by the boundary grace, in the slot before. */
  predicate RowsInPlace(hb: Heartbeats) {
    forall k :: k in hb ==> k.1 == SlotOf(hb[k]) || k.1 == SlotOf(hb[k]) - 1
  }

  lemma RecordedKeepsRowsInPlace(hb: Heartbeats, sensor: string, ts: int, grace: int)
    requires RowsInPlace(hb)
    ensures RowsInPlace(Recorded(hb, sensor, ts, grace))
  {
  }

  /**
   * A report recorded twice, when it fell inside the grace with an empty previous slot:
   * the first call fills the previous slot and the second its own, so both slots have rows.
   */
  lemma RecordTwiceInGrace(hb: Heartbeats, sensor: string, ts: int, grace: int)
    requires ts % SLOT_SECONDS <= grace && SlotOf(ts) > 0 && (sensor, SlotOf(ts) - 1) !in hb
    ensures var twice := Recorded(Recorded(hb, sensor, ts, grace), sensor, ts, grace);
      twice.Keys == hb.Keys + {(sensor, SlotOf(ts) - 1), (sensor, SlotOf(ts))}
  {
    var once := Recorded(hb, sensor, ts, grace);
    assert TargetSlot(hb, sensor, ts, grace) == SlotOf(ts) - 1;
    assert TargetSlot(once, sensor, ts, grace) == SlotOf(ts);
  }

  /**
   * Outside that case a repeated report changes nothing: the second call targets the same
   * slot and rewrites the same row.
   */
  lemma RecordTwiceOutsideGrace(hb: Heartbeats, sensor: string, ts: int, grace: int)
    requires TargetSlot(hb, sensor, ts, grace) == SlotOf(ts)
    ensures Recorded(Recorded(hb, sensor, ts, grace), sensor, ts, grace) == Recorded(hb, sensor, ts, grace)
  {
    var once := Recorded(hb, sensor, ts, grace);
    assert TargetSlot(once, sensor, ts, grace) == SlotOf(ts);
  }

  /** `get_latest_heartbeat`: `MAX(timestamp)` over the sensor's rows, `None` without rows. */
  ghost function LatestHeartbeat(hb: Heartbeats, sensor: string): (r: Option<int>)
    ensures r.None? <==> !HasRows(hb, sensor)
    ensures r.Some? ==> exists k :: k in hb && k.0 == sensor && hb[k] == r.value
    ensures r.Some? ==> forall k :: k in hb && k.0 == sensor ==> hb[k] <= r.value
  {
    if HasRows(hb, sensor) then
      var k :| k in hb && k.0 == sensor;
      assert hb[k] in TimestampsOf(hb, sensor);
      Some(MaxOf(TimestampsOf(hb, sensor)))
    else None
  }

  /** The earliest timestamp of the sensor's rows, `MIN(timestamp)`, `None` without rows. */
  ghost function EarliestHeartbeat(hb: Heartbeats, sensor: string): (r: Option<int>)
    ensures r.None? <==> !HasRows(hb, sensor)
    ensures r.Some? ==> exists k :: k in hb && k.0 == sensor && hb[k] == r.value
    ensures r.Some? ==> forall k :: k in hb && k.0 == sensor ==> r.value <= hb[k]
  {
    if HasRows(hb, sensor) then
      var k :| k in hb && k.0 == sensor;
      assert hb[k] in TimestampsOf(hb, sensor);
      Some(MinOf(TimestampsOf(hb, sensor)))
    else None
  }

  /**
   * `calculate_availability` for the UTC day `day`: the day's 240 slots start at
   * `day * 86400 // 360`; the count is of distinct slots with a row in `[start, start + 240)`.
   * The count never exceeds 240, and reaches it exactly when every slot of the day has a row.
   */
  function DailyAvailability(hb: Heartbeats, sensor: string, day: int): (r: Summary)
    ensures r.expected == SLOTS_PER_DAY
    ensures r.received == |set slot | day * SLOTS_PER_DAY <= slot < (day + 1) * SLOTS_PER_DAY && (sensor, slot) in hb|
    ensures 0 <= r.received <= r.expected
    ensures r.received == r.expected <==>
      forall slot :: day * SLOTS_PER_DAY <= slot < (day + 1) * SLOTS_PER_DAY ==> (sensor, slot) in hb
  {
    var startSlot := (day * DAY_SECONDS) / SLOT_SECONDS;
    var endSlot := (day * DAY_SECONDS + DAY_SECONDS) / SLOT_SECONDS;
    assert startSlot == day * SLOTS_PER_DAY && endSlot == startSlot + SLOTS_PER_DAY;
    CountWithin(SlotsOf(hb, sensor), startSlot, endSlot);
    RowSlotsWithin(hb, sensor, startSlot, endSlot);
    Summary(SLOTS_PER_DAY, |Within(SlotsOf(hb, sensor), startSlot, endSlot)|)
  }

  /** The slots of `[lo, hi)` holding a row of the sensor, as the `COUNT(DISTINCT time_slot)` queries filter them. */
  lemma RowSlotsWithin(hb: Heartbeats, sensor: string, lo: int, hi: int)
    ensures Within(SlotsOf(hb, sensor), lo, hi) == set slot | lo <= slot < hi && (sensor, slot) in hb
  {
  }

  class MetricsCollector {
    /** `sensor_heartbeats`. */
    var heartbeats: Heartbeats
    /** `sensor_availability`. */
    var summaries: Summaries

    /** Opening the store creates missing tables and keeps the rows already there. */
    constructor (heartbeats: Heartbeats, summaries: Summaries)
      ensures this.heartbeats == heartbeats && this.summaries == summaries
    {
      this.heartbeats := heartbeats;
      this.summaries := summaries;
    }

    /**
     * `record_heartbeat`: store `ts` for `sensor` in the slot `TargetSlot` chooses, replacing
     * whatever row that slot held; every other row and every summary stay as they were. The
     * source returns nothing; the chosen slot is a ghost result, there for the contract only.
     */
    method RecordHeartbeat(sensor: string, ts: int, grace: int) returns (ghost target: int)
      modifies this`heartbeats
      ensures target == TargetSlot(old(heartbeats), sensor, ts, grace)
      ensures heartbeats == Recorded(old(heartbeats), sensor, ts, grace)
      ensures RowsInPlace(old(heartbeats)) ==> RowsInPlace(heartbeats)
    {
      var currentSlot := ts / SLOT_SECONDS;
      var slotBoundary := currentSlot * SLOT_SECONDS;
      var secondsIntoSlot := ts - slotBoundary;
      var slot := currentSlot;
      if secondsIntoSlot <= grace && currentSlot > 0 {
        var previousSlot := currentSlot - 1;
        if (sensor, previousSlot) !in heartbeats {
          slot := previousSlot;
        }
      }
      target := slot;
      heartbeats := heartbeats[(sensor, slot) := ts];
      if RowsInPlace(old(heartbeats)) {
        RecordedKeepsRowsInPlace(old(heartbeats), sensor, ts, grace);
      }
    }

    /**
     * `update_availability_summary`: the (sensor, day) summary row becomes the day's
     * availability, replacing any earlier one; heartbeats and other summaries are untouched.
     */
    method UpdateAvailabilitySummary(sensor: string, day: int)
      modifies this`summaries
      ensures summaries == old(summaries)[(sensor, day) := DailyAvailability(heartbeats, sensor, day)]
      ensures summaries[(sensor, day)].received <= SLOTS_PER_DAY
    {
      var availability := DailyAvailability(heartbeats, sensor, day);
      summaries := summaries[(sensor, day) := availability];
    }
  }
}
