# Hourly device-summary ETL, modelled in Dafny

This project models the core of the analytics job in
`etl_task/analytics/analytics.py`. Once an hour the job reads raw device pings from a
source table (`devices`: device id, epoch time, temperature, location).
For every hour not yet summarised, it computes three metrics per device:
the maximum temperature, the number of records and the distance travelled.
It joins the three metrics into one summary row per device and appends the rows
to a destination table (`devices_summary`). The newest `hour_start_time`
in the destination is the watermark: it decides where the next run
resumes.

The model works over in-memory data:

- timestamps are integer epoch seconds (naive UTC);
- the source table is a `seq<RawRecord>` in the order the queries return it;
- the destination is a `DestinationStore` object whose `rows` sequence only grows.

The files follow the job's structure:

- `time.dfy` (module `Time`): the calendar arithmetic: hour and day floors,
  the window end (`replace(minute=59, second=59)`) and the end of the range
  of window starts.
- `records.dfy` (module `Records`): the rows: raw records, per-device metric
  rows, merged summary rows and destination rows.
- `metrics.dfy` (module `Metrics`): `get_max_temp`, `get_device_data_count`
  and `calculate_distance`. The last is a method with the source's two nested
  loops, proved equal to a specification function.
- `merge.dfy` (module `Merge`): `transform_data`, the pandas inner merge on
  `device_id` that joins the three results.
- `destination.dfy` (module `Destination`): the resume-point queries and
  `resolve_last_inserted_time`, `format_data`, and `load_data` as a method of
  the store class.
- `pipeline.dfy` (module `Pipeline`): `pd.date_range` and `run_etl`. `run_etl`
  is a method that loops over the windows and appends to the store. It is
  proved equal to `LoadedRows`, which lists the rows each window adds. This
  file also holds the lemmas about consecutive runs: how far the watermark
  advances, alignment, and one row per device and window.

Values the job reads from outside are parameters:

- the two clock readings that form the range end: the date of
  `current_time` and the hour of a second `utcnow()`;
- `stampAt`, the `utcnow()` that `format_data` stamps on each window's batch;
- `accepts`, whether the destination accepted each window's batch insert;
- `d`, the geodesic distance, of which only non-negativity is assumed.

The run-level lemmas are stated for any per-window row function `rowsOf`
whose rows carry their window start (`StampedByWindow`).
`WindowRowsWellFormed` shows that the job's own `WindowRowsOf` is such a
function, with one row per device in every window.

## Behaviours of the code worth knowing

The model follows the code in each of these cases:

- **Cold start floors to the day.** The comment on `get_first_inserted_time`
  speaks of the first record's time. Line 91 sets hour, minute and second
  to zero, so an empty destination resumes at the start of the earliest
  record's day, not its hour. `FirstInsertedTime` and `ColdStart` state this
  day floor.
- **The hour in progress is processed.** `pd.date_range` includes its end,
  and the end built at lines 322-324 is the current hour's start, so each
  run also summarises the current hour. The job is triggered at minute 5
  (line 341), so that window holds only the first minutes of the hour.
  `CurrentHourIsLastWindow` and `WarmRunAtHalfPast` show this: with the
  latest window at 09:00 and the clock at 11:30, the run processes 10:00 and
  11:00. `InProgressHourClosed` shows what follows. If that hour's window
  loads rows, the resume point moves past the whole hour. Whatever rows are
  appended afterwards, a record stamped later in that hour lies in no window
  of any later run, so it is never summarised.
- **The range end uses two clock readings.** Line 324 combines the date of
  `current_time` with the hour of a second `utcnow()`. `RangeEnd` states
  that the end is on the first reading's day, at the second reading's hour.
  When the first reading is not after the second, the end is not after the
  second reading's hour start. When the second reading falls on the next
  day (just after midnight), the end can be nearly a day earlier.
  `RangeEndSingleReading` shows that the end is the current hour's start when
  both readings agree.

## Model

| member | source | states |
|---|---|---|
| Time.HourFloor | etl_task/analytics/analytics.py:324 | the start of t's hour: hour-aligned, not after t, less than an hour before t |
| Time.DayFloor | etl_task/analytics/analytics.py:91 | the start of t's day: a multiple of 86400, not after t, less than a day before t |
| Time.HourOfDay | etl_task/analytics/analytics.py:324 | `utcnow().hour` is in 0..23 and places t within that hour of its day |
| Time.WindowEnd | etl_task/analytics/analytics.py:329 | the window end lies in the start's hour and is that hour's last second; for an hour-aligned start it is start + 3599 |
| Time.RangeEnd | etl_task/analytics/analytics.py:320-324 | the range end is hour-aligned, on the first clock reading's day and at the second reading's hour; it is not after the second reading's hour start when the readings are in order |
| Time.DayAndHourOf | etl_task/analytics/analytics.py:324 | the instant h hours after a day start lies on that day at hour h |
| Time.HourFloorByDay | etl_task/analytics/analytics.py:324 | an hour start is its day start plus its hour of the day times 3600 |
| Time.RangeEndSingleReading | etl_task/analytics/analytics.py:320-324 | when both clock readings agree, the range end is the current hour's start |
| Time.HourFloorUnique | etl_task/analytics/analytics.py:324 | the only hour-aligned instant within the hour before t is t's hour start |
| Metrics.WindowAt | etl_task/analytics/analytics.py:329-331 | the window runs from its start to the last second of the start's hour, start + 3599 for an hour-aligned start |
| Metrics.InWindow | etl_task/analytics/analytics.py:184-190 | SQL `BETWEEN` with both ends included, as in all three queries: a record lies only in a window whose start is not after its end |
| Metrics.InWindowAtHour | etl_task/analytics/analytics.py:329-331 | for an hour start, a record lies in that window exactly when its time falls in that hour |
| Metrics.Select | etl_task/analytics/analytics.py:184-190 | the WHERE clause keeps exactly the records with start <= time <= end, both ends included |
| Metrics.OfDevice | etl_task/analytics/analytics.py:202 | the per-device filter keeps exactly that device's rows |
| Metrics.Devices | etl_task/analytics/analytics.py:199 | `unique()` lists every device id of the rows, each exactly once |
| Metrics.MaxOf | etl_task/analytics/analytics.py:109 | SQL MAX is an element of the group and at least every element |
| Metrics.GetMaxTemp | etl_task/analytics/analytics.py:98-126 | exactly one row per device with an in-window record; its value is one of that device's in-window temperatures and at least all of them |
| Metrics.GetDeviceDataCount | etl_task/analytics/analytics.py:129-157 | exactly one row per device with an in-window record; its value is the number of that device's in-window records, which is positive |
| Metrics.CountIsInWindowCount | etl_task/analytics/analytics.py:138-146 | counting the device's rows after the window filter equals counting the in-window positions of the source table |
| Metrics.InWindowCountStep | etl_task/analytics/analytics.py:138-146 | the in-window count grows by one exactly when the appended record is the device's and in the window |
| Metrics.PathLength | etl_task/analytics/analytics.py:208-214 | a path of at most one point has length 0; with a non-negative distance every length is >= 0 |
| Metrics.Sum | etl_task/analytics/analytics.py:214 | Python's `sum`: the left-to-right total from 0.0, non-negative for non-negative terms |
| Metrics.SumOfLegs | etl_task/analytics/analytics.py:208-214 | `sum` of the list of consecutive distances is the path length |
| Metrics.TotalDistance | etl_task/analytics/analytics.py:208-214 | the inner loop plus `sum` computes the path length through the points in query order |
| Metrics.DistanceResult | etl_task/analytics/analytics.py:198-217 | no result (None) exactly for an empty window; otherwise a non-empty list with one row per device with an in-window record, non-negative when d is |
| Metrics.SinglePointNoDistance | etl_task/analytics/analytics.py:208-214 | a device with exactly one in-window record has total distance 0 |
| Metrics.CalculateDistance | etl_task/analytics/analytics.py:174-220 | the nested loops return exactly DistanceResult: None for an empty window, else per device in first-appearance order its path length |
| Merge.Matches | etl_task/analytics/analytics.py:238 | one left row pairs with exactly the right rows of the same key; at most one when right keys are distinct |
| Merge.Join | etl_task/analytics/analytics.py:238-239 | the inner merge holds (id, (a, b)) exactly when (id, a) is on the left and (id, b) on the right |
| Merge.JoinDistinct | etl_task/analytics/analytics.py:238-239 | merging results with one row per device yields one row per device |
| Merge.SummaryRowsOf | etl_task/analytics/analytics.py:238-240 | the summary rows carry exactly the joined triples, in join order |
| Merge.MergeSummaries | etl_task/analytics/analytics.py:236-245 | empty when any input is missing or empty; otherwise a device has a row with values (t, c, x) exactly when the three results hold t, c and x for it; distinct inputs give distinct devices |
| Merge.MergeHasRow | etl_task/analytics/analytics.py:236-240 | a device present in all three results appears in the merge |
| Merge.SummaryHasDevice | etl_task/analytics/analytics.py:232-240 | every device with an in-window record has a summary row |
| Merge.SummaryRowFaithful | etl_task/analytics/analytics.py:232-240 | every summary row belongs to a device with an in-window record and carries its max temperature, record count and distance |
| Merge.SummaryRows | etl_task/analytics/analytics.py:223-245 | one summary row per device with an in-window record and no other, with the right three metrics; the summary is empty exactly when the window has no records |
| Merge.Summary | etl_task/analytics/analytics.py:232-245 | the three extractors' results merged; a window with no record gives an empty summary (SummaryRows states the full contents) |
| Merge.TransformData | etl_task/analytics/analytics.py:223-245 | the three extractors then the merge produce Summary of the window |
| Destination.MaxHourStart | etl_task/analytics/analytics.py:58-67 | MAX(hour_start_time) is missing exactly for an empty table, else it is some row's value and at least every row's |
| Destination.MinTime | etl_task/analytics/analytics.py:81-88 | MIN(time) is missing exactly for an empty source, else it is some record's time and at most every record's |
| Destination.FirstInsertedTime | etl_task/analytics/analytics.py:74-95 | present exactly for a non-empty source; the earliest record's time floored to its day, a day boundary not after any record |
| Destination.ResolveStart | etl_task/analytics/analytics.py:300-306 | a non-empty destination resumes one hour after its latest window; an empty one resumes at FirstInsertedTime |
| Destination.WarmStart | etl_task/analytics/analytics.py:300-304 | with latest window H the resume point is H + 3600 |
| Destination.ColdStart | etl_task/analytics/analytics.py:81-91 | with an empty destination the resume point is the earliest record's day start |
| Destination.FormatData | etl_task/analytics/analytics.py:248-259 | one row per summary row in the destination's column order, every row stamped with the window start and one shared inserted_time |
| Destination.DestinationStore.LoadData | etl_task/analytics/analytics.py:262-297 | an accepted batch is appended after the unchanged existing rows with no duplicate check; a rejected one leaves the table unchanged |
| Destination.ReloadDuplicates | etl_task/analytics/analytics.py:273-290 | loading a non-empty batch twice breaks one-row-per-device-and-window |
| Pipeline.Plan | etl_task/analytics/analytics.py:319-324 | a run crashes exactly when the destination and the source are both empty; otherwise its windows are the hourly range from the resume point to the range end |
| Pipeline.DateRange | etl_task/analytics/analytics.py:322-324 | hourly starts from start up to and including end: the k-th is start + 3600k, all <= end, the last within an hour of end; empty when start > end |
| Pipeline.DateRangeSteps | etl_task/analytics/analytics.py:322-324 | the starts strictly ascend by exactly one hour from the resume point, and are empty exactly when it is after the end |
| Pipeline.WindowsPartition | etl_task/analytics/analytics.py:322-329 | from an aligned start, every instant up to the last window's end lies in exactly one window |
| Pipeline.CurrentHourIsLastWindow | etl_task/analytics/analytics.py:320-324 | from an aligned start not after the current hour, the last window is the current, in-progress hour |
| Pipeline.WindowRows | etl_task/analytics/analytics.py:331-337 | every row a window adds carries that window's start as hour_start_time |
| Pipeline.WindowRowsOnePerDevice | etl_task/analytics/analytics.py:331-337 | one window adds at most one row per device |
| Pipeline.WindowRowsWellFormed | etl_task/analytics/analytics.py:331-337 | the job's per-window rows are stamped with their window and name each device once |
| Pipeline.LoadedRows | etl_task/analytics/analytics.py:327-337 | the rows the loop appends, window after window: every row of every window is among them |
| Pipeline.RunRows | etl_task/analytics/analytics.py:319-337 | the rows a run appends: none when the destination and the source are both empty, else LoadedRows over the planned windows |
| Pipeline.ProcessWindow | etl_task/analytics/analytics.py:328-337 | one loop iteration appends exactly WindowRows: nothing for an empty summary or a rejected insert |
| Pipeline.LoadWindows | etl_task/analytics/analytics.py:327-337 | the loop appends the windows' rows in window order after the existing rows |
| Pipeline.RunEtl | etl_task/analytics/analytics.py:309-337 | the run crashes before loading when the resume point cannot be resolved, else processes Plan's windows and appends exactly their rows |
| Pipeline.LoadedRowsShape | etl_task/analytics/analytics.py:327-337 | every loaded row's window is one of the run's windows, and the last loaded row has the latest one |
| Pipeline.PlanWindows | etl_task/analytics/analytics.py:319-324 | a run's windows ascend and all come after every window already in the destination |
| Pipeline.WatermarkAfterRun | etl_task/analytics/analytics.py:300-337 | after a run, resolution resumes one hour after the last loaded window; a run that loads nothing leaves the resume point unchanged |
| Pipeline.ResumeAfterLoaded | etl_task/analytics/analytics.py:300-337 | loading ascending windows that all follow the existing ones resumes one hour after the last loaded row's window |
| Pipeline.ResumeAtLeast | etl_task/analytics/analytics.py:300-304 | a destination holding a row of window H resumes no earlier than H + 3600 |
| Pipeline.ResumeAfterAppend | etl_task/analytics/analytics.py:300-304 | appending rows whose last window is the newest resumes one hour after it |
| Pipeline.NoWindowReprocessed | etl_task/analytics/analytics.py:319-324 | with a non-empty destination a run never revisits a window already present |
| Pipeline.RunKeepsAlignment | etl_task/analytics/analytics.py:300-337 | if every hour_start_time is hour-aligned before a run, it still is after it |
| Pipeline.LoadedRowsAligned | etl_task/analytics/analytics.py:327-337 | over aligned windows every loaded row has an aligned window |
| Pipeline.LoadedRowsOnePerDevice | etl_task/analytics/analytics.py:327-337 | over ascending windows a run adds at most one row per device and window |
| Pipeline.RunKeepsOneRowPerDeviceAndWindow | etl_task/analytics/analytics.py:300-337 | without retries or overlapping runs, one row per device and window is preserved |
| Pipeline.LastWindowIsCurrentHour | etl_task/analytics/analytics.py:320-324 | read from one clock, a run's windows end with the current hour whenever they contain it |
| Pipeline.LastLoadedRow | etl_task/analytics/analytics.py:327-337 | when the last window adds rows, the last loaded row carries that window |
| Pipeline.ResumeAfterCurrentHour | etl_task/analytics/analytics.py:320-337 | when the current hour's window loads rows, the next run resumes at the following hour |
| Pipeline.InProgressHourClosed | etl_task/analytics/analytics.py:320-337 | once the current hour's window loads rows, a record stamped later in that hour lies in no window of any later run, whatever rows are appended in between |
| Pipeline.WarmRunAtHalfPast | etl_task/analytics/analytics.py:319-324 | latest window 09:00 and clock 11:30: the run processes 10:00 and 11:00 |

## Left out

- Connecting to the two databases, the retry loops and creating the
  destination schema (lines 20-47): these are startup I/O.
- The hourly `schedule` trigger and the `sleep` calls: the model covers one
  call of `run_etl`, with the clock readings as parameters. Overlapping runs
  are not modelled.
- The SQL text, SQLAlchemy connections and pandas DataFrames: queries become
  functions over the source sequence. Merge.MergeSummaries takes each metric
  result as an `Option` so that a missing result from an error path can be
  represented. Errors in the metric queries themselves are not modelled: the
  extractors always return a result.
- Pipeline.RunEtl: the source table is one snapshot for the whole call of
  `run_etl`. The same sequence serves resolution and every window's three
  queries, so records that arrive during a run are not modelled.
- Metrics.GetMaxTemp and Metrics.GetDeviceDataCount: `GROUP BY` returns rows
  in an unspecified order. The model lists devices in order of first
  appearance. No property relies on that order.
- Metrics.Select: its contract states which records are kept. Their order and
  multiplicity are given by its body, an order-preserving filter.
  CountIsInWindowCount proves the multiplicity per device.
- Metrics.CalculateDistance: geopy's ellipsoidal distance is the parameter
  `d`, of which only non-negativity is assumed. Distances and their `sum`
  use exact real arithmetic, not floating point. The float32 precision of the
  `total_distance` column is not modelled.
- Decoding the JSON `location` column (`flatten_location_data`): records
  carry an already decoded latitude/longitude pair.
- Formatting timestamps as strings (`str`, `strftime`) and parsing them back
  in `pd.date_range`: times stay integers. Logging is left out.
- The destination's auto-increment `summary_id`: the store assigns it, and
  no part of the job reads it.
- Destination.DestinationStore.LoadData: an insert is all-or-nothing
  (`accepted`). A failure is logged and swallowed, so the batch is lost.
- Pipeline.Plan: the only crash modelled is a cold start on an empty source,
  where line 91 calls `replace` on a missing value. A failed
  `get_last_inserted_time` query (line 301 then indexes a missing row) and a
  failed `get_first_inserted_time` query (`pd.date_range` then gets no start)
  also raise out of `run_etl`. They are not modelled, because the
  destination and source queries always succeed in the model.
