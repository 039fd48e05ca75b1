/** The `devices_summary` destination table: the query for its latest
    window, the resume point derived from it, the formatting of summary
    rows and the batch insert. */
module Destination {
  import opened Time
  import opened Records

  /** `SELECT MAX(hour_start_time) FROM devices_summary`: nothing for an empty table. */
  function MaxHourStart(rows: seq<SummaryRecord>): (m: Option<Timestamp>)
    ensures m.None? <==> rows == []
    ensures m.Some? ==> exists i :: 0 <= i < |rows| && rows[i].hourStartTime == m.value
    ensures m.Some? ==> forall i :: 0 <= i < |rows| ==> rows[i].hourStartTime <= m.value
  {
    if rows == [] then None
    else
      var last := rows[|rows| - 1].hourStartTime;
      match MaxHourStart(rows[..|rows| - 1])
      case None => Some(last)
      case Some(m) => Some(if m < last then last else m)
  }

  /** `SELECT MIN(time) FROM devices`: nothing for an empty table. */
  function MinTime(src: seq<RawRecord>): (m: Option<Timestamp>)
    ensures m.None? <==> src == []
    ensures m.Some? ==> exists x :: x in src && x.time == m.value
    ensures m.Some? ==> forall x :: x in src ==> m.value <= x.time
  {
    if src == [] then None
    else
      var first := src[0].time;
      assert src == [src[0]] + src[1..];
      match MinTime(src[1..])
      case None => Some(first)
      case Some(m) => Some(if m < first then m else first)
  }

  /** `get_first_inserted_time`: the earliest source time with hour, minute
      and second set to zero. An empty source gives nothing (the code then
      calls `replace` on a missing value and raises). */
  function FirstInsertedTime(src: seq<RawRecord>): (r: Option<Timestamp>)
    ensures r.Some? <==> src != []
    ensures r.Some? ==> exists x :: x in src && r.value == DayFloor(x.time) && forall y :: y in src ==> x.time <= y.time
    ensures r.Some? ==> r.value % Day == 0 && forall y :: y in src ==> r.value <= y.time
  {
    match MinTime(src)
    case None => None
    case Some(t) => Some(DayFloor(t))
  }

  /** Row i has the latest window of the table. */
  ghost predicate IsLatest(rows: seq<SummaryRecord>, i: int)
    requires 0 <= i < |rows|
  {
    forall j :: 0 <= j < |rows| ==> rows[j].hourStartTime <= rows[i].hourStartTime
  }

  /** `resolve_last_inserted_time`: one hour after the latest window in the
      destination, or the first source day when the destination is empty. */
  function ResolveStart(rows: seq<SummaryRecord>, src: seq<RawRecord>): (r: Option<Timestamp>)
    ensures rows != [] ==> r.Some?
    ensures rows != [] ==>
      exists i :: 0 <= i < |rows| && r.value == rows[i].hourStartTime + Hour && IsLatest(rows, i)
    ensures rows != [] ==> forall i :: 0 <= i < |rows| ==> rows[i].hourStartTime < r.value
    ensures rows == [] ==> r == FirstInsertedTime(src)
  {
    match MaxHourStart(rows)
    case Some(h) => Some(h + Hour)
    case None => FirstInsertedTime(src)
  }

  /** Warm start: the latest window H of the destination resumes at H plus one hour. */
  lemma WarmStart(rows: seq<SummaryRecord>, src: seq<RawRecord>, k: nat)
    requires k < |rows|
    requires forall i :: 0 <= i < |rows| ==> rows[i].hourStartTime <= rows[k].hourStartTime
    ensures ResolveStart(rows, src) == Some(rows[k].hourStartTime + Hour)
  {
    var r := ResolveStart(rows, src);
    var i :| 0 <= i < |rows| && r.value == rows[i].hourStartTime + Hour;
    assert rows[k].hourStartTime < r.value;
  }

  /** Cold start: an empty destination resumes at the day of the earliest source record. */
  lemma ColdStart(src: seq<RawRecord>, first: RawRecord)
    requires first in src
    requires forall y :: y in src ==> first.time <= y.time
    ensures ResolveStart([], src) == Some(DayFloor(first.time))
  {
    var r := ResolveStart([], src);
    var x :| x in src && r.value == DayFloor(x.time) && forall y :: y in src ==> x.time <= y.time;
    assert x.time == first.time;
  }

  /** `format_data`, after the run loop has attached `hour_start_time`: the
      destination columns in their fixed order, one row per summary row, and
      one `inserted_time` for the whole batch. */
  function FormatData(summary: seq<SummaryRow>, hourStart: Timestamp, insertedTime: Timestamp): (r: seq<SummaryRecord>)
    ensures |r| == |summary|
    ensures forall i :: 0 <= i < |r| ==>
      && r[i].deviceId == summary[i].deviceId
      && r[i].maxTemperature == summary[i].maxTemperature
      && r[i].deviceDataCount == summary[i].deviceDataCount
      && r[i].totalDistance == summary[i].totalDistance
      && r[i].hourStartTime == hourStart
      && r[i].insertedTime == insertedTime
  {
    seq(|summary|, i requires 0 <= i < |summary| =>
      SummaryRecord(summary[i].deviceId, hourStart, summary[i].maxTemperature,
        summary[i].deviceDataCount, summary[i].totalDistance, insertedTime))
  }

  /** At most one row per device and window. The table has no uniqueness
      constraint that would enforce it. */
  ghost predicate OneRowPerDeviceAndWindow(rows: seq<SummaryRecord>) {
    forall i, j :: 0 <= i < j < |rows| ==>
      rows[i].deviceId != rows[j].deviceId || rows[i].hourStartTime != rows[j].hourStartTime
  }

  /** The destination table: a growing list of summary rows. */
  class DestinationStore {
    var rows: seq<SummaryRecord>

    constructor (initial: seq<SummaryRecord>)
      ensures rows == initial
    {
      rows := initial;
    }

    /** `load_data`: one batch insert after the existing rows, with no check
        for rows already present. When the store rejects the insert the batch
        is lost and the table is unchanged. Returns the reported row count. */
    method LoadData(summary: seq<SummaryRecord>, accepted: bool) returns (rowCount: nat)
      modifies this
      ensures rows == old(rows) + (if accepted then summary else [])
      ensures rowCount == if accepted then |summary| else 0
    {
      if accepted {
        rows := rows + summary;
        rowCount := |summary|;
      } else {
        rowCount := 0;
      }
    }
  }

  /** Nothing stops a batch from being loaded twice: the second load breaks
      the one-row-per-device-and-window intent. */
  lemma ReloadDuplicates(rows: seq<SummaryRecord>, batch: seq<SummaryRecord>)
    requires batch != []
    ensures !OneRowPerDeviceAndWindow(rows + batch + batch)
  {
    var all := rows + batch + batch;
    assert all[|rows|] == all[|rows| + |batch|];
  }
}
