/** `run_etl`: one pass of the job. It resolves where to resume, expands
    that into hourly window starts up to the current hour, and for each
    window in ascending order loads the window's summary when it is not
    empty. The clock, the store's acceptance of each insert and the distance
    function are parameters. */
module Pipeline {
  import opened Time
  import opened Records
  import opened Metrics
  import opened Merge
  import opened Destination

  /** `pd.date_range(start, end, freq='H')`: every hour from start up to and
      including end. */
  function DateRange(start: Timestamp, end: Timestamp): (r: seq<Timestamp>)
    ensures |r| == if start > end then 0 else (end - start) / 3600 + 1
    ensures forall k :: 0 <= k < |r| ==> r[k] == start + k * 3600
    ensures forall k :: 0 <= k < |r| ==> r[k] <= end
    ensures r != [] ==> end < r[|r| - 1] + 3600
    decreases if start > end then 0 else end - start + 1
  {
    if start > end then []
    else
      var rest := DateRange(start + Hour, end);
      assert forall k :: 1 <= k <= |rest| ==> ([start] + rest)[k] == rest[k - 1];
      [start] + rest
  }

  /** Strictly increasing. */
  predicate Ascending(ws: seq<Timestamp>) {
    forall i, j :: 0 <= i < j < |ws| ==> ws[i] < ws[j]
  }

  /** What a run does: it raises before loading anything when the resume
      point cannot be resolved, and otherwise processes these window starts. */
  datatype RunOutcome = Crashed | Completed(windows: seq<Timestamp>)

  /** The windows of a run against the destination rows, with the clock
      read once for the date and once more for the hour. */
  function Plan(rows: seq<SummaryRecord>, src: seq<RawRecord>, dateReading: Timestamp, hourReading: Timestamp): (r: RunOutcome)
    ensures r.Crashed? <==> rows == [] && src == []
  {
    match ResolveStart(rows, src)
    case None => Crashed
    case Some(s) => Completed(DateRange(s, RangeEnd(dateReading, hourReading)))
  }

  /** The rows one window adds to the destination: its formatted summary,
      unless the summary is empty or the store rejects the insert. */
  function WindowRows(
    src: seq<RawRecord>, start: Timestamp,
    stampAt: Timestamp -> Timestamp, accepts: Timestamp -> bool, d: Geodesic): (r: seq<SummaryRecord>)
    ensures forall i :: 0 <= i < |r| ==> r[i].hourStartTime == start
  {
    var summary := Summary(src, WindowAt(start), d);
    if summary != [] && accepts(start) then FormatData(summary, start, stampAt(start)) else []
  }

  /** WindowRows as a function of the window start alone. */
  function WindowRowsOf(
    src: seq<RawRecord>, stampAt: Timestamp -> Timestamp, accepts: Timestamp -> bool, d: Geodesic)
    : Timestamp -> seq<SummaryRecord>
  {
    start => WindowRows(src, start, stampAt, accepts, d)
  }

  /** The rows a run adds, window after window, given the rows each window adds. */
  function LoadedRows(rowsOf: Timestamp -> seq<SummaryRecord>, windows: seq<Timestamp>): (rs: seq<SummaryRecord>)
    ensures forall k, x :: 0 <= k < |windows| && x in rowsOf(windows[k]) ==> x in rs
  {
    if windows == [] then []
    else LoadedRows(rowsOf, windows[..|windows| - 1]) + rowsOf(windows[|windows| - 1])
  }

  /** The rows a run against `rows` adds: none when it crashes. */
  function RunRows(
    rows: seq<SummaryRecord>, src: seq<RawRecord>, dateReading: Timestamp, hourReading: Timestamp,
    rowsOf: Timestamp -> seq<SummaryRecord>): (rs: seq<SummaryRecord>)
    ensures rows == [] && src == [] ==> rs == []
  {
    match Plan(rows, src, dateReading, hourReading)
    case Crashed => []
    case Completed(ws) => LoadedRows(rowsOf, ws)
  }

  /** One iteration of `run_etl`'s loop: summarise the window starting at
      `srItem` and load the formatted summary unless it is empty. */
  method ProcessWindow(
    store: DestinationStore, src: seq<RawRecord>, srItem: Timestamp,
    stampAt: Timestamp -> Timestamp, accepts: Timestamp -> bool, d: Geodesic)
    modifies store
    ensures store.rows == old(store.rows) + WindowRows(src, srItem, stampAt, accepts, d)
  {
    var endTime := WindowEnd(srItem);
    var summary := TransformData(src, Window(srItem, endTime), d);
    assert Window(srItem, endTime) == WindowAt(srItem);
    if summary != [] {
      var formatted := FormatData(summary, srItem, stampAt(srItem));
      var _ := store.LoadData(formatted, accepts(srItem));
    }
  }

  /** `run_etl`: resolve the resume point (a failure propagates before
      anything is loaded), then process every window up to the current hour. */
  method RunEtl(
    store: DestinationStore, src: seq<RawRecord>,
    dateReading: Timestamp, hourReading: Timestamp,
    stampAt: Timestamp -> Timestamp, accepts: Timestamp -> bool, d: Geodesic)
    returns (outcome: RunOutcome)
    modifies store
    ensures outcome == Plan(old(store.rows), src, dateReading, hourReading)
    ensures store.rows == old(store.rows)
      + RunRows(old(store.rows), src, dateReading, hourReading, WindowRowsOf(src, stampAt, accepts, d))
  {
    var insertedTime := ResolveStart(store.rows, src);
    if insertedTime.None? {
      return Crashed;
    }
    var seriesToBeExtracted := DateRange(insertedTime.value, RangeEnd(dateReading, hourReading));
    LoadWindows(store, src, seriesToBeExtracted, stampAt, accepts, d);
    outcome := Completed(seriesToBeExtracted);
  }

  /** `run_etl`'s loop: the windows in order, each loading its summary. */
  method LoadWindows(
    store: DestinationStore, src: seq<RawRecord>, seriesToBeExtracted: seq<Timestamp>,
    stampAt: Timestamp -> Timestamp, accepts: Timestamp -> bool, d: Geodesic)
    modifies store
    ensures store.rows == old(store.rows) + LoadedRows(WindowRowsOf(src, stampAt, accepts, d), seriesToBeExtracted)
  {
    ghost var rowsOf := WindowRowsOf(src, stampAt, accepts, d);
    for i := 0 to |seriesToBeExtracted|
      invariant store.rows == old(store.rows) + LoadedRows(rowsOf, seriesToBeExtracted[..i])
    {
      var srItem := seriesToBeExtracted[i];
      ghost var prefix := LoadedRows(rowsOf, seriesToBeExtracted[..i]);
      assert seriesToBeExtracted[..i + 1][..i] == seriesToBeExtracted[..i];
      assert LoadedRows(rowsOf, seriesToBeExtracted[..i + 1]) == prefix + rowsOf(srItem);
      ProcessWindow(store, src, srItem, stampAt, accepts, d);
      assert store.rows == old(store.rows) + prefix + rowsOf(srItem);
      AppendAssociative(old(store.rows), prefix, rowsOf(srItem));
    }
    assert seriesToBeExtracted[..|seriesToBeExtracted|] == seriesToBeExtracted;
  }

  lemma AppendAssociative<T>(a: seq<T>, b: seq<T>, c: seq<T>)
    ensures (a + b) + c == a + (b + c)
  {
  }

  // ---------------------------------------------------------------------
  // Windows

  /** The window starts begin at the resume point, rise by exactly one hour
      and stop at the last hour not after the range end. */
  lemma DateRangeSteps(start: Timestamp, end: Timestamp)
    ensures var ws := DateRange(start, end);
      && Ascending(ws)
      && (ws == [] <==> start > end)
      && (ws != [] ==> ws[0] == start)
      && (forall k :: 0 <= k < |ws| - 1 ==> ws[k + 1] == ws[k] + Hour)
  {
  }

  /** From an hour-aligned start, the windows are contiguous and do not
      overlap: each instant from the first start to the last window's end
      lies in exactly one window, the one (t - start) / 3600 hours in. */
  lemma WindowsPartition(start: Timestamp, end: Timestamp, t: Timestamp)
    requires HourAligned(start)
    requires DateRange(start, end) != []
    requires start <= t <= WindowEnd(DateRange(start, end)[|DateRange(start, end)| - 1])
    ensures (t - start) / 3600 < |DateRange(start, end)|
    ensures forall j :: 0 <= j < |DateRange(start, end)| ==>
      (DateRange(start, end)[j] <= t <= WindowEnd(DateRange(start, end)[j]) <==> j == (t - start) / 3600)
  {
    var ws := DateRange(start, end);
    forall j | 0 <= j < |ws| ensures WindowEnd(ws[j]) == ws[j] + 3599 {
      AlignedShift(start, j);
    }
    var k := (t - start) / 3600;
    assert start + k * 3600 <= t < start + (k + 1) * 3600;
  }

  /** The range always reaches the hour in progress: read from one clock
      reading, the current hour's start is the last window whenever the
      resume point is an hour start not after it. */
  lemma CurrentHourIsLastWindow(start: Timestamp, now: Timestamp)
    requires HourAligned(start) && start <= HourFloor(now)
    ensures var ws := DateRange(start, RangeEnd(now, now));
      ws != [] && ws[|ws| - 1] == HourFloor(now)
  {
    RangeEndSingleReading(now);
    var h := HourFloor(now);
    var ws := DateRange(start, h);
    var last := ws[|ws| - 1];
    AlignedShift(start, |ws| - 1);
    assert last <= h < last + Hour;
    HourFloorUnique(h, last);
  }

  // ---------------------------------------------------------------------
  // What a run loads

  /** Every row a window adds carries that window's start. */
  ghost predicate StampedByWindow(rowsOf: Timestamp -> seq<SummaryRecord>) {
    forall w, i :: 0 <= i < |rowsOf(w)| ==> rowsOf(w)[i].hourStartTime == w
  }

  /** Every window adds at most one row per device. */
  ghost predicate OnePerDeviceEachWindow(rowsOf: Timestamp -> seq<SummaryRecord>) {
    forall w :: OneRowPerDeviceAndWindow(rowsOf(w))
  }

  /** One window's rows name each device once. */
  lemma WindowRowsOnePerDevice(
    src: seq<RawRecord>, start: Timestamp,
    stampAt: Timestamp -> Timestamp, accepts: Timestamp -> bool, d: Geodesic)
    ensures OneRowPerDeviceAndWindow(WindowRows(src, start, stampAt, accepts, d))
  {
    var summary := Summary(src, WindowAt(start), d);
    SummaryRows(src, WindowAt(start), d);
    var r := WindowRows(src, start, stampAt, accepts, d);
    if r != [] {
      forall i, j | 0 <= i < j < |r| ensures r[i].deviceId != r[j].deviceId {
        assert DevicesOf(summary)[i] != DevicesOf(summary)[j];
      }
    }
  }

  /** The job's windows add rows stamped with their window, one per device. */
  lemma WindowRowsWellFormed(
    src: seq<RawRecord>, stampAt: Timestamp -> Timestamp, accepts: Timestamp -> bool, d: Geodesic)
    ensures StampedByWindow(WindowRowsOf(src, stampAt, accepts, d))
    ensures OnePerDeviceEachWindow(WindowRowsOf(src, stampAt, accepts, d))
  {
    var rowsOf := WindowRowsOf(src, stampAt, accepts, d);
    forall w ensures OneRowPerDeviceAndWindow(rowsOf(w)) {
      WindowRowsOnePerDevice(src, w, stampAt, accepts, d);
    }
  }

  /** Every loaded row belongs to one of the run's windows, and over
      ascending windows the last loaded row has the latest window. */
  lemma {:induction false} LoadedRowsShape(rowsOf: Timestamp -> seq<SummaryRecord>, ws: seq<Timestamp>)
    requires StampedByWindow(rowsOf)
    requires Ascending(ws)
    ensures forall i :: 0 <= i < |LoadedRows(rowsOf, ws)| ==> LoadedRows(rowsOf, ws)[i].hourStartTime in ws
    ensures LoadedRows(rowsOf, ws) != [] ==> forall i :: 0 <= i < |LoadedRows(rowsOf, ws)| ==>
      LoadedRows(rowsOf, ws)[i].hourStartTime <= Last(LoadedRows(rowsOf, ws)).hourStartTime
  {
    if ws != [] {
      var pre, last := ws[..|ws| - 1], ws[|ws| - 1];
      LoadedRowsShape(rowsOf, pre);
      var a := LoadedRows(rowsOf, pre);
      var b := rowsOf(last);
      var l := a + b;
      assert LoadedRows(rowsOf, ws) == l;
      forall i | 0 <= i < |l| ensures l[i].hourStartTime in ws {
        if i < |a| {
          assert l[i] == a[i];
          assert a[i].hourStartTime in pre;
        } else {
          assert l[i] == b[i - |a|];
        }
      }
      if b != [] {
        forall i | 0 <= i < |l| ensures l[i].hourStartTime <= last {
          if i < |a| {
            assert l[i] == a[i];
            var j :| 0 <= j < |pre| && pre[j] == a[i].hourStartTime;
            assert ws[j] < ws[|ws| - 1];
          } else {
            assert l[i] == b[i - |a|];
          }
        }
        assert Last(l) == b[|b| - 1];
      } else {
        assert l == a;
      }
    }
  }

  /** The last element of a non-empty sequence. */
  function Last<T>(s: seq<T>): T
    requires s != []
  {
    s[|s| - 1]
  }

  /** The windows of a completed run ascend from the resume point, which
      lies after every window already in the destination. */
  lemma PlanWindows(rows: seq<SummaryRecord>, src: seq<RawRecord>, dateReading: Timestamp, hourReading: Timestamp)
    requires Plan(rows, src, dateReading, hourReading).Completed?
    ensures Ascending(Plan(rows, src, dateReading, hourReading).windows)
    ensures forall w, i :: w in Plan(rows, src, dateReading, hourReading).windows && 0 <= i < |rows| ==>
      rows[i].hourStartTime < w
  {
    var s := ResolveStart(rows, src).value;
    DateRangeSteps(s, RangeEnd(dateReading, hourReading));
    var ws := DateRange(s, RangeEnd(dateReading, hourReading));
    forall w | w in ws ensures s <= w {
      var k :| 0 <= k < |ws| && ws[k] == w;
    }
  }

  /** The watermark advances past exactly the last window that loaded rows:
      after a run, resolution resumes one hour after that window; a run that
      loads nothing leaves the resume point where it was. */
  lemma WatermarkAfterRun(
    rows: seq<SummaryRecord>, src: seq<RawRecord>,
    dateReading: Timestamp, hourReading: Timestamp, rowsOf: Timestamp -> seq<SummaryRecord>)
    requires StampedByWindow(rowsOf)
    requires Plan(rows, src, dateReading, hourReading).Completed?
    ensures RunRows(rows, src, dateReading, hourReading, rowsOf) == [] ==>
      ResolveStart(rows + RunRows(rows, src, dateReading, hourReading, rowsOf), src) == ResolveStart(rows, src)
    ensures RunRows(rows, src, dateReading, hourReading, rowsOf) != [] ==>
      Last(RunRows(rows, src, dateReading, hourReading, rowsOf)).hourStartTime
        in Plan(rows, src, dateReading, hourReading).windows
    ensures RunRows(rows, src, dateReading, hourReading, rowsOf) != [] ==>
      ResolveStart(rows + RunRows(rows, src, dateReading, hourReading, rowsOf), src)
        == Some(Last(RunRows(rows, src, dateReading, hourReading, rowsOf)).hourStartTime + Hour)
  {
    var ws := Plan(rows, src, dateReading, hourReading).windows;
    var l := RunRows(rows, src, dateReading, hourReading, rowsOf);
    assert l == LoadedRows(rowsOf, ws);
    PlanWindows(rows, src, dateReading, hourReading);
    ResumeAfterLoaded(rows, src, rowsOf, ws);
    if l == [] {
      assert rows + l == rows;
    }
  }

  /** Loading ascending windows that all come after the existing ones
      resumes one hour after the last loaded row's window. */
  lemma ResumeAfterLoaded(
    rows: seq<SummaryRecord>, src: seq<RawRecord>, rowsOf: Timestamp -> seq<SummaryRecord>, ws: seq<Timestamp>)
    requires StampedByWindow(rowsOf)
    requires Ascending(ws)
    requires forall w, i :: w in ws && 0 <= i < |rows| ==> rows[i].hourStartTime < w
    ensures LoadedRows(rowsOf, ws) != [] ==> Last(LoadedRows(rowsOf, ws)).hourStartTime in ws
    ensures LoadedRows(rowsOf, ws) != [] ==>
      ResolveStart(rows + LoadedRows(rowsOf, ws), src) == Some(Last(LoadedRows(rowsOf, ws)).hourStartTime + Hour)
  {
    var l := LoadedRows(rowsOf, ws);
    LoadedRowsShape(rowsOf, ws);
    if l != [] {
      assert l[|l| - 1] == Last(l);
      var h := Last(l).hourStartTime;
      assert h in ws;
      forall i | 0 <= i < |rows| ensures rows[i].hourStartTime < h {
      }
      ResumeAfterAppend(rows, l, src);
    }
  }

  /** Appending rows whose last one has the latest window, later than every
      existing window, resumes one hour after that row's window. */
  lemma ResumeAfterAppend(rows: seq<SummaryRecord>, l: seq<SummaryRecord>, src: seq<RawRecord>)
    requires l != []
    requires forall i :: 0 <= i < |rows| ==> rows[i].hourStartTime < Last(l).hourStartTime
    requires forall i :: 0 <= i < |l| ==> l[i].hourStartTime <= Last(l).hourStartTime
    ensures ResolveStart(rows + l, src) == Some(Last(l).hourStartTime + Hour)
  {
    var all := rows + l;
    var k := |all| - 1;
    assert all[k] == l[|l| - 1];
    forall i | 0 <= i < |all| ensures all[i].hourStartTime <= all[k].hourStartTime {
      if i < |rows| {
        assert all[i] == rows[i];
      } else {
        assert all[i] == l[i - |rows|];
      }
    }
    WarmStart(all, src, k);
  }

  /** No window is processed twice in the normal case: every window of a run
      comes after every window already in a non-empty destination. */
  lemma NoWindowReprocessed(
    rows: seq<SummaryRecord>, src: seq<RawRecord>, dateReading: Timestamp, hourReading: Timestamp)
    requires rows != []
    ensures Plan(rows, src, dateReading, hourReading).Completed?
    ensures forall w, i :: w in Plan(rows, src, dateReading, hourReading).windows && 0 <= i < |rows| ==>
      rows[i].hourStartTime < w
  {
    PlanWindows(rows, src, dateReading, hourReading);
  }

  /** Every window of the destination starts on a whole hour. */
  ghost predicate AlignedRows(rows: seq<SummaryRecord>) {
    forall i :: 0 <= i < |rows| ==> HourAligned(rows[i].hourStartTime)
  }

  /** Runs keep every `hour_start_time` on a whole hour, since the resume
      point is a day start or a loaded window plus one hour. */
  lemma RunKeepsAlignment(
    rows: seq<SummaryRecord>, src: seq<RawRecord>,
    dateReading: Timestamp, hourReading: Timestamp, rowsOf: Timestamp -> seq<SummaryRecord>)
    requires StampedByWindow(rowsOf)
    requires AlignedRows(rows)
    ensures AlignedRows(rows + RunRows(rows, src, dateReading, hourReading, rowsOf))
  {
    var l := RunRows(rows, src, dateReading, hourReading, rowsOf);
    if Plan(rows, src, dateReading, hourReading).Completed? {
      var s := ResolveStart(rows, src).value;
      var ws := Plan(rows, src, dateReading, hourReading).windows;
      if rows != [] {
        var i :| 0 <= i < |rows| && s == rows[i].hourStartTime + Hour;
        AlignedShift(rows[i].hourStartTime, 1);
      } else {
        var m := MinTime(src).value;
        DayFloorAligned(m);
      }
      forall k | 0 <= k < |ws| ensures HourAligned(ws[k]) {
        AlignedShift(s, k);
      }
      PlanWindows(rows, src, dateReading, hourReading);
      LoadedRowsAligned(rowsOf, ws);
    }
    assert AlignedRows(l);
    forall i | 0 <= i < |rows + l| ensures HourAligned((rows + l)[i].hourStartTime) {
      if i >= |rows| {
        assert (rows + l)[i] == l[i - |rows|];
      }
    }
  }

  /** Over hour-aligned windows, every loaded row has an hour-aligned window. */
  lemma LoadedRowsAligned(rowsOf: Timestamp -> seq<SummaryRecord>, ws: seq<Timestamp>)
    requires StampedByWindow(rowsOf)
    requires Ascending(ws)
    requires forall k :: 0 <= k < |ws| ==> HourAligned(ws[k])
    ensures AlignedRows(LoadedRows(rowsOf, ws))
  {
    var l := LoadedRows(rowsOf, ws);
    LoadedRowsShape(rowsOf, ws);
    forall i | 0 <= i < |l| ensures HourAligned(l[i].hourStartTime) {
      var k :| 0 <= k < |ws| && ws[k] == l[i].hourStartTime;
    }
  }

  /** Over ascending windows, a run adds at most one row per device and window. */
  lemma {:induction false} LoadedRowsOnePerDevice(rowsOf: Timestamp -> seq<SummaryRecord>, ws: seq<Timestamp>)
    requires StampedByWindow(rowsOf) && OnePerDeviceEachWindow(rowsOf)
    requires Ascending(ws)
    ensures OneRowPerDeviceAndWindow(LoadedRows(rowsOf, ws))
  {
    if ws != [] {
      var pre, last := ws[..|ws| - 1], ws[|ws| - 1];
      LoadedRowsOnePerDevice(rowsOf, pre);
      LoadedRowsShape(rowsOf, pre);
      var a := LoadedRows(rowsOf, pre);
      var b := rowsOf(last);
      forall i, j | 0 <= i < |a| && 0 <= j < |b| ensures a[i].hourStartTime != b[j].hourStartTime {
        var k :| 0 <= k < |pre| && pre[k] == a[i].hourStartTime;
        assert ws[k] < ws[|ws| - 1];
      }
      OnePerDeviceConcat(a, b);
    }
  }

  lemma OnePerDeviceConcat(a: seq<SummaryRecord>, b: seq<SummaryRecord>)
    requires OneRowPerDeviceAndWindow(a) && OneRowPerDeviceAndWindow(b)
    requires forall i, j :: 0 <= i < |a| && 0 <= j < |b| ==> a[i].hourStartTime != b[j].hourStartTime
    ensures OneRowPerDeviceAndWindow(a + b)
  {
    var c := a + b;
    forall i, j | 0 <= i < j < |c|
      ensures c[i].deviceId != c[j].deviceId || c[i].hourStartTime != c[j].hourStartTime
    {
      if j < |a| {
        assert c[i] == a[i] && c[j] == a[j];
      } else if i >= |a| {
        assert c[i] == b[i - |a|] && c[j] == b[j - |a|];
      } else {
        assert c[i] == a[i] && c[j] == b[j - |a|];
      }
    }
  }

  /** Without retries or overlapping runs, the destination keeps at most one
      row per device and window. */
  lemma RunKeepsOneRowPerDeviceAndWindow(
    rows: seq<SummaryRecord>, src: seq<RawRecord>,
    dateReading: Timestamp, hourReading: Timestamp, rowsOf: Timestamp -> seq<SummaryRecord>)
    requires StampedByWindow(rowsOf) && OnePerDeviceEachWindow(rowsOf)
    requires OneRowPerDeviceAndWindow(rows)
    ensures OneRowPerDeviceAndWindow(rows + RunRows(rows, src, dateReading, hourReading, rowsOf))
  {
    var l := RunRows(rows, src, dateReading, hourReading, rowsOf);
    if Plan(rows, src, dateReading, hourReading).Crashed? {
      assert rows + l == rows;
    } else {
      var ws := Plan(rows, src, dateReading, hourReading).windows;
      PlanWindows(rows, src, dateReading, hourReading);
      LoadedRowsOnePerDevice(rowsOf, ws);
      LoadedRowsShape(rowsOf, ws);
      forall i, j | 0 <= i < |rows| && 0 <= j < |l| ensures rows[i].hourStartTime != l[j].hourStartTime {
        var k :| 0 <= k < |ws| && ws[k] == l[j].hourStartTime;
      }
      OnePerDeviceConcat(rows, l);
    }
  }

  /** Because the range includes the hour in progress, a run whose current
      hour's window loads rows moves the resume point past that whole hour
      for good: whatever rows are appended afterwards, a record stamped later
      in that hour lies in no window of any later run. */
  lemma InProgressHourClosed(
    rows: seq<SummaryRecord>, src: seq<RawRecord>, now: Timestamp, rowsOf: Timestamp -> seq<SummaryRecord>,
    more: seq<SummaryRecord>, laterDate: Timestamp, laterHour: Timestamp, t: Timestamp)
    requires StampedByWindow(rowsOf)
    requires Plan(rows, src, now, now).Completed?
    requires HourFloor(now) in Plan(rows, src, now, now).windows
    requires rowsOf(HourFloor(now)) != []
    requires now < t <= WindowEnd(HourFloor(now))
    ensures Plan(rows + RunRows(rows, src, now, now, rowsOf) + more, src, laterDate, laterHour).Completed?
    ensures forall w :: w in Plan(rows + RunRows(rows, src, now, now, rowsOf) + more, src, laterDate, laterHour).windows ==>
      !(w <= t <= WindowEnd(w))
  {
    var h := HourFloor(now);
    var ws := Plan(rows, src, now, now).windows;
    var l := RunRows(rows, src, now, now, rowsOf);
    LastWindowIsCurrentHour(rows, src, now);
    LastLoadedRow(rowsOf, ws);
    assert l == LoadedRows(rowsOf, ws);
    var all := rows + l + more;
    var k := |rows| + |l| - 1;
    assert all[k] == l[|l| - 1] == Last(l);
    ResumeAtLeast(all, src, k);
    var v := ResolveStart(all, src).value;
    var later := DateRange(v, RangeEnd(laterDate, laterHour));
    DateRangeSteps(v, RangeEnd(laterDate, laterHour));
    forall w | w in later ensures h + Hour <= w {
      var j :| 0 <= j < |later| && later[j] == w;
    }
  }

  /** A destination holding a row of window H resumes no earlier than H plus one hour. */
  lemma ResumeAtLeast(rows: seq<SummaryRecord>, src: seq<RawRecord>, k: nat)
    requires k < |rows|
    ensures ResolveStart(rows, src).Some?
    ensures ResolveStart(rows, src).value >= rows[k].hourStartTime + Hour
  {
    var i :| 0 <= i < |rows| && ResolveStart(rows, src).value == rows[i].hourStartTime + Hour && IsLatest(rows, i);
  }

  /** When the current hour's window loads rows, the next run resumes one
      hour after the current hour's start. */
  lemma ResumeAfterCurrentHour(
    rows: seq<SummaryRecord>, src: seq<RawRecord>, now: Timestamp, rowsOf: Timestamp -> seq<SummaryRecord>)
    requires StampedByWindow(rowsOf)
    requires Plan(rows, src, now, now).Completed?
    requires HourFloor(now) in Plan(rows, src, now, now).windows
    requires rowsOf(HourFloor(now)) != []
    ensures ResolveStart(rows + RunRows(rows, src, now, now, rowsOf), src) == Some(HourFloor(now) + Hour)
  {
    var ws := Plan(rows, src, now, now).windows;
    LastWindowIsCurrentHour(rows, src, now);
    LastLoadedRow(rowsOf, ws);
    assert RunRows(rows, src, now, now, rowsOf) == LoadedRows(rowsOf, ws);
    WatermarkAfterRun(rows, src, now, now, rowsOf);
  }

  /** When the last window adds rows, the last loaded row is its last row. */
  lemma LastLoadedRow(rowsOf: Timestamp -> seq<SummaryRecord>, ws: seq<Timestamp>)
    requires StampedByWindow(rowsOf)
    requires ws != [] && rowsOf(Last(ws)) != []
    ensures LoadedRows(rowsOf, ws) != []
    ensures Last(LoadedRows(rowsOf, ws)).hourStartTime == Last(ws)
  {
    var b := rowsOf(Last(ws));
    var l := LoadedRows(rowsOf, ws);
    assert l == LoadedRows(rowsOf, ws[..|ws| - 1]) + b;
    assert l[|l| - 1] == b[|b| - 1];
  }

  /** Read from one clock reading, a run's windows end with the current hour
      whenever they contain it. */
  lemma LastWindowIsCurrentHour(rows: seq<SummaryRecord>, src: seq<RawRecord>, now: Timestamp)
    requires Plan(rows, src, now, now).Completed?
    requires HourFloor(now) in Plan(rows, src, now, now).windows
    ensures Plan(rows, src, now, now).windows != []
    ensures Last(Plan(rows, src, now, now).windows) == HourFloor(now)
  {
    var s := ResolveStart(rows, src).value;
    var ws := Plan(rows, src, now, now).windows;
    RangeEndSingleReading(now);
    DateRangeSteps(s, RangeEnd(now, now));
    var j :| 0 <= j < |ws| && ws[j] == HourFloor(now);
    assert ws[|ws| - 1] <= HourFloor(now);
    assert ws[j] <= ws[|ws| - 1];
  }

  // ---------------------------------------------------------------------
  // Scenarios

  /** The destination's latest window is 09:00 and the clock reads 11:30:
      the run processes 10:00 and also 11:00, the hour in progress. */
  lemma WarmRunAtHalfPast(rows: seq<SummaryRecord>, src: seq<RawRecord>)
    requires rows != []
    requires forall i :: 0 <= i < |rows| ==> rows[i].hourStartTime <= 9 * 3600
    requires exists i :: 0 <= i < |rows| && rows[i].hourStartTime == 9 * 3600
    ensures Plan(rows, src, 11 * 3600 + 30 * 60, 11 * 3600 + 30 * 60) == Completed([10 * 3600, 11 * 3600])
  {
    var k :| 0 <= k < |rows| && rows[k].hourStartTime == 9 * 3600;
    WarmStart(rows, src, k);
    assert RangeEnd(11 * 3600 + 30 * 60, 11 * 3600 + 30 * 60) == 11 * 3600;
    assert DateRange(10 * 3600, 11 * 3600) == [10 * 3600, 11 * 3600];
  }
}
