/** Timestamps of the ETL job: naive UTC instants as integer epoch seconds,
    and the calendar arithmetic the job performs on them. */
module Time {

  type Timestamp = int

  const Hour: int := 3600
  const Day: int := 86400

  /** `t.replace(minute=0, second=0)`: the start of t's hour. */
  function HourFloor(t: Timestamp): (r: Timestamp)
    ensures r <= t < r + Hour
    ensures r % Hour == 0
  {
    t - t % Hour
  }

  /** `t.replace(hour=0, minute=0, second=0)`: the start of t's day. */
  function DayFloor(t: Timestamp): (r: Timestamp)
    ensures r <= t < r + Day
    ensures r % Day == 0
  {
    t - t % Day
  }

  /** `t.hour`: the hour of the day, 0 to 23. */
  function HourOfDay(t: Timestamp): (h: int)
    ensures 0 <= h < 24
    ensures DayFloor(t) + h * Hour <= t < DayFloor(t) + (h + 1) * Hour
  {
    (t % Day) / Hour
  }

  /** An instant on a whole hour (minute = second = 0). */
  predicate HourAligned(t: Timestamp) {
    t % Hour == 0
  }

  /** `start.replace(minute=59, second=59)`: the last second of start's hour. */
  function WindowEnd(start: Timestamp): (e: Timestamp)
    ensures start <= e < start + Hour
    ensures (e + 1) % Hour == 0
    ensures HourAligned(start) ==> e == start + Hour - 1
  {
    HourFloor(start) + 59 * 60 + 59
  }

  /** The end of the range of window starts: the date of one clock reading
      with the hour of a second, later reading, at minute and second zero. */
  function RangeEnd(dateReading: Timestamp, hourReading: Timestamp): (e: Timestamp)
    ensures HourAligned(e)
    ensures DayFloor(e) == DayFloor(dateReading)
    ensures HourOfDay(e) == HourOfDay(hourReading)
    ensures dateReading <= hourReading ==> e <= HourFloor(hourReading)
  {
    var h := HourOfDay(hourReading);
    var e := DayFloor(dateReading) + h * Hour;
    DayFloorAligned(dateReading);
    AlignedShift(DayFloor(dateReading), h);
    DayAndHourOf(DayFloor(dateReading), h);
    HourFloorByDay(hourReading);
    assert dateReading <= hourReading ==> e <= HourFloor(hourReading) by {
      if dateReading <= hourReading && DayFloor(dateReading) != DayFloor(hourReading) {
        LaterDay(dateReading, hourReading);
      }
    }
    e
  }

  /** The instant h hours into the day starting at dayStart has that day and hour. */
  lemma DayAndHourOf(dayStart: Timestamp, h: int)
    requires dayStart % Day == 0 && 0 <= h < 24
    ensures DayFloor(dayStart + h * Hour) == dayStart
    ensures HourOfDay(dayStart + h * Hour) == h
  {
    var x := h * Hour;
    assert 0 <= x < Day;
    ModOfDayOffset(dayStart, x);
  }

  lemma ModOfDayOffset(dayStart: Timestamp, x: int)
    requires dayStart % Day == 0 && 0 <= x < Day
    ensures (dayStart + x) % Day == x
  {
    var k := dayStart / Day;
    assert dayStart == k * Day;
    var q := (dayStart + x) / Day;
    assert dayStart + x == q * Day + (dayStart + x) % Day;
    assert (q - k) * Day == x - (dayStart + x) % Day;
  }

  /** An hour start is its day's start plus its hour of the day. */
  lemma HourFloorByDay(t: Timestamp)
    ensures HourFloor(t) == DayFloor(t) + HourOfDay(t) * Hour
  {
    var a := DayFloor(t) + HourOfDay(t) * Hour;
    DayFloorAligned(t);
    AlignedShift(DayFloor(t), HourOfDay(t));
    HourFloorUnique(t, a);
  }

  /** Of two instants on different days, the earlier one's day ends by the later one's day start. */
  lemma LaterDay(s: Timestamp, t: Timestamp)
    requires s <= t && DayFloor(s) != DayFloor(t)
    ensures DayFloor(s) + Day <= DayFloor(t)
  {
    var p, q := DayFloor(s) / Day, DayFloor(t) / Day;
    assert DayFloor(s) == p * Day && DayFloor(t) == q * Day;
  }

  /** Read from one clock reading, the range end is the start of the current hour. */
  lemma RangeEndSingleReading(now: Timestamp)
    ensures RangeEnd(now, now) == HourFloor(now)
  {
    var e := RangeEnd(now, now);
    assert HourAligned(e);
    assert e <= now < e + Hour;
    HourFloorUnique(now, e);
  }

  /** The hour-aligned instant within an hour before t is t's hour start. */
  lemma HourFloorUnique(t: Timestamp, a: Timestamp)
    requires HourAligned(a) && a <= t < a + Hour
    ensures a == HourFloor(t)
  {
    var f := HourFloor(t);
    assert f % Hour == 0;
    var p, q := a / Hour, f / Hour;
    assert a == p * Hour;
    assert f == q * Hour;
    assert (p - q) * Hour < Hour && (q - p) * Hour < Hour;
  }

  /** A day start is also an hour start. */
  lemma DayFloorAligned(t: Timestamp)
    ensures HourAligned(DayFloor(t))
  {
    var k := DayFloor(t) / Day;
    assert DayFloor(t) == (24 * k) * Hour;
  }

  /** Adding whole hours keeps an instant hour-aligned. */
  lemma AlignedShift(t: Timestamp, k: int)
    requires HourAligned(t)
    ensures HourAligned(t + k * Hour)
  {
    var p := t / Hour;
    assert t + k * Hour == (p + k) * Hour;
  }
}
