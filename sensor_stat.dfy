/**
 * The availability figures of `sharp_hems/webui/webapi/sensor_stat.py`: the share of expected
 * slots that hold a heartbeat, since a sensor's first heartbeat and over the trailing 24 hours.
 * Both count the current slot only when it already holds a heartbeat, so a slot still in
 * progress is not counted against the sensor unless the window would otherwise be empty.
 */
module SensorStat {
  import opened Wrappers
  import opened IntSets
  import opened Metrics

  /**
   * What a helper returns: `Zero` for the `0.0` it returns for a sensor without data or for a
   * window without expected slots, `Ratio` for `round(received / expected * 100, 2)`, kept as
   * the exact integers.
   */
  datatype Availability = Zero | Ratio(received: int, expected: int)

  /** The closed slot range `[startSlot, endSlot]` counted, and its expected slot count. */
  datatype Window = Window(startSlot: int, endSlot: int, expected: int)

  /**
   * The window both helpers build from the start slot and the current slot. With a heartbeat in
   * the current slot it runs up to and including the current slot, and is left as it is even
   * when the start slot lies after the current slot. Without one it stops before the current
   * slot, and when that leaves no slot it is clamped to the single start slot. The expected
   * count is not positive exactly in the first case with the start after the current slot;
   * otherwise it is the number of slots in the window. A current slot without a heartbeat lies
   * inside the window only through the clamp.
   */
  function CountingWindow(hasCurrent: bool, startSlot: int, currentSlot: int): (w: Window)
    ensures w.startSlot == startSlot
    ensures hasCurrent ==> w.endSlot == currentSlot && w.expected == currentSlot - startSlot + 1
    ensures !hasCurrent && startSlot < currentSlot ==> w.endSlot == currentSlot - 1 && w.expected == currentSlot - startSlot
    ensures !hasCurrent && startSlot >= currentSlot ==> w.endSlot == startSlot && w.expected == 1
    ensures w.expected <= 0 <==> hasCurrent && startSlot > currentSlot
    ensures w.expected > 0 ==> w.expected == w.endSlot - w.startSlot + 1
    ensures !hasCurrent && w.startSlot <= currentSlot <= w.endSlot ==> startSlot == currentSlot
  {
    if hasCurrent then
      Window(startSlot, currentSlot, currentSlot - startSlot + 1)
    else
      var expected := currentSlot - startSlot;
      if expected <= 0 then Window(startSlot, startSlot, 1)
      else Window(startSlot, currentSlot - 1, expected)
  }

  /** The window for a sensor's table, a window start timestamp and the current time. */
  function WindowAt(hb: Heartbeats, sensor: string, startTs: int, now: int): Window {
    CountingWindow((sensor, SlotOf(now)) in hb, SlotOf(startTs), SlotOf(now))
  }

  /**
   * The shared tail of both helpers, from the timestamp the window starts at and the current
   * time. A window without expected slots gives `Zero`. Otherwise the received count is the
   * number of distinct slots of the window holding a heartbeat, so the ratio never exceeds one,
   * and it is one exactly when every slot of the window holds a heartbeat.
   */
  function AvailabilityFrom(hb: Heartbeats, sensor: string, startTs: int, now: int): (r: Availability)
    ensures var w := WindowAt(hb, sensor, startTs, now);
      && (r.Zero? <==> w.expected <= 0)
      && (r.Ratio? ==> r.expected == w.expected)
      && (r.Ratio? ==> r.received == |set slot | w.startSlot <= slot <= w.endSlot && (sensor, slot) in hb|)
      && (r.Ratio? ==> 0 <= r.received <= r.expected)
      && (r.Ratio? ==> (r.received == r.expected <==> forall slot :: w.startSlot <= slot <= w.endSlot ==> (sensor, slot) in hb))
  {
    var startSlot := startTs / SLOT_SECONDS;
    var currentSlot := now / SLOT_SECONDS;
    var hasCurrent := (sensor, currentSlot) in hb;
    var w := CountingWindow(hasCurrent, startSlot, currentSlot);
    var received := |Within(SlotsOf(hb, sensor), w.startSlot, w.endSlot + 1)|;
    if w.expected <= 0 then Zero
    else
      CountWithin(SlotsOf(hb, sensor), w.startSlot, w.endSlot + 1);
      RowSlotsWithin(hb, sensor, w.startSlot, w.endSlot + 1);
      assert (set slot | w.startSlot <= slot < w.endSlot + 1 && (sensor, slot) in hb)
          == (set slot | w.startSlot <= slot <= w.endSlot && (sensor, slot) in hb);
      Ratio(received, w.expected)
  }

  /**
   * The current slot holds a heartbeat, yet the earliest heartbeat lies in a later slot: a
   * heartbeat moved back by the boundary grace, or one stamped after the current time.
   */
  ghost predicate FirstAfterCurrent(hb: Heartbeats, sensor: string, now: int) {
    (sensor, SlotOf(now)) in hb && SlotOf(EarliestHeartbeat(hb, sensor).value) > SlotOf(now)
  }

  /** That case needs a stored timestamp later than the current time. */
  lemma FirstAfterCurrentIsAhead(hb: Heartbeats, sensor: string, now: int)
    requires FirstAfterCurrent(hb, sensor, now)
    ensures EarliestHeartbeat(hb, sensor).value > now
  {
    var first := EarliestHeartbeat(hb, sensor).value;
    if first <= now {
      SlotOfMonotonic(first, now);
    }
  }

  /**
   * An example of that case: reports at 36005 and 36010 are recorded into slots 99 and 100;
   * at 35999, in slot 99, the current slot has a row but the window starts at slot 100, so
   * the total availability is `Zero` rather than a ratio.
   */
  lemma AheadRowsGiveZero()
    ensures TotalAvailability(map[("s", 99) := 36005, ("s", 100) := 36010], "s", 35999) == Zero
  {
    var hb := map[("s", 99) := 36005, ("s", 100) := 36010];
    assert hb == Recorded(Recorded(map[], "s", 36005, DEFAULT_GRACE), "s", 36010, DEFAULT_GRACE);
    assert ("s", 99) in hb;
    assert EarliestHeartbeat(hb, "s").value == 36005 by {
      assert hb[("s", 100)] == 36010;
    }
  }

  /**
   * `_calculate_total_availability`: from the sensor's earliest heartbeat timestamp to now.
   * It is `Zero` exactly when the sensor has no heartbeats, or when the current slot holds one
   * but the earliest heartbeat lies in a later slot.
   */
  ghost function TotalAvailability(hb: Heartbeats, sensor: string, now: int): (r: Availability)
    ensures r.Zero? <==> !HasRows(hb, sensor) || FirstAfterCurrent(hb, sensor, now)
    ensures HasRows(hb, sensor) ==> r == AvailabilityFrom(hb, sensor, EarliestHeartbeat(hb, sensor).value, now)
    ensures r.Ratio? ==> 0 <= r.received <= r.expected && r.expected >= 1
  {
    match EarliestHeartbeat(hb, sensor)
    case None => Zero
    case Some(first) => AvailabilityFrom(hb, sensor, first, now)
  }

  /**
   * `_calculate_last_24h_availability`: the window starts at the later of the earliest
   * heartbeat and 86400 seconds before now, so it never expects more than 241 slots
   * (240 whole slots and the current one), whatever the stored timestamps are. It is `Zero`
   * exactly when the sensor has no heartbeats, or when the current slot holds one but the
   * earliest heartbeat lies in a later slot.
   */
  ghost function Last24hAvailability(hb: Heartbeats, sensor: string, now: int): (r: Availability)
    ensures r.Zero? <==> !HasRows(hb, sensor) || FirstAfterCurrent(hb, sensor, now)
    ensures HasRows(hb, sensor) ==>
      var first := EarliestHeartbeat(hb, sensor).value;
      r == AvailabilityFrom(hb, sensor, if first > now - DAY_SECONDS then first else now - DAY_SECONDS, now)
    ensures r.Ratio? ==> 0 <= r.received <= r.expected <= SLOTS_PER_DAY + 1 && r.expected >= 1
  {
    match EarliestHeartbeat(hb, sensor)
    case None => Zero
    case Some(first) =>
      var yesterday := now - DAY_SECONDS;
      var startTs := if first > yesterday then first else yesterday;
      SlotOfMonotonic(yesterday, startTs);
      DaySlots(now);
      AvailabilityFrom(hb, sensor, startTs, now)
  }

  /** A day before `t` is exactly 240 slots before it. */
  lemma DaySlots(t: int)
    ensures SlotOf(t - DAY_SECONDS) == SlotOf(t) - SLOTS_PER_DAY
  {
    var s := SlotOf(t);
    assert s * SLOT_SECONDS <= t < (s + 1) * SLOT_SECONDS;
    assert (s - SLOTS_PER_DAY) * SLOT_SECONDS <= t - DAY_SECONDS < (s - SLOTS_PER_DAY + 1) * SLOT_SECONDS;
  }

  /**
   * The clamp counts the open current slot as a miss in one case: the only heartbeat arrived
   * 5 seconds into slot 100 and was moved into empty slot 99 by the boundary grace; at 100
   * seconds into slot 100 the window is slot 100 alone, which has no row yet, so the total
   * availability is 0 of 1.
   */
  lemma ClampCountsOpenSlot()
    ensures TotalAvailability(map[("s", 99) := 36005], "s", 36100) == Ratio(0, 1)
  {
    var hb := map[("s", 99) := 36005];
    assert hb == Recorded(map[], "s", 36005, DEFAULT_GRACE);
    assert HasRows(hb, "s") by { assert ("s", 99) in hb; }
    var first := EarliestHeartbeat(hb, "s").value;
    assert first == 36005;
    assert Within(SlotsOf(hb, "s"), 100, 101) == {};
  }
}
