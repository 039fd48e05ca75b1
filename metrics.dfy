/** The three per-device metric extractors of one window: maximum
    temperature, number of records and distance travelled. Each one keeps
    the source records whose time lies in the window, both ends included
    (SQL `BETWEEN`). */
module Metrics {
  import opened Time
  import opened Records

  /** A processing window: from its start to the last second of its hour. */
  datatype Window = Window(start: Timestamp, end: Timestamp)

  /** The window processed for a window start (`end_time` in the run loop). */
  function WindowAt(start: Timestamp): (w: Window)
    ensures w.start == start
    ensures w.start <= w.end < w.start + Hour
    ensures (w.end + 1) % Hour == 0
    ensures HourAligned(start) ==> w.end == start + 3599
  {
    Window(start, WindowEnd(start))
  }

  /** `time BETWEEN start AND end`, both ends included; only a window whose
      start is not after its end holds records. */
  predicate InWindow(r: RawRecord, w: Window): (b: bool)
    ensures b ==> w.start <= w.end
  {
    w.start <= r.time <= w.end
  }

  /** For an hour start, a record lies in that hour's window exactly when
      its time falls in that hour. */
  lemma InWindowAtHour(r: RawRecord, start: Timestamp)
    requires HourAligned(start)
    ensures InWindow(r, WindowAt(start)) <==> HourFloor(r.time) == start
  {
    if start <= r.time < start + Hour {
      HourFloorUnique(r.time, start);
    }
  }

  /** Some source record of the device lies in the window. */
  ghost predicate HasRecordIn(src: seq<RawRecord>, w: Window, id: DeviceId) {
    exists x :: x in src && InWindow(x, w) && x.deviceId == id
  }

  /** The rows the window's WHERE clause keeps, in query-return order. */
  function Select(src: seq<RawRecord>, w: Window): (rs: seq<RawRecord>)
    ensures forall x :: x in rs <==> x in src && InWindow(x, w)
    ensures |rs| <= |src|
  {
    if src == [] then []
    else
      var last := src[|src| - 1];
      assert src == src[..|src| - 1] + [last];
      Select(src[..|src| - 1], w) + (if InWindow(last, w) then [last] else [])
  }

  /** The rows of one device (`data[data['device_id'] == device_id]`), in order. */
  function OfDevice(recs: seq<RawRecord>, id: DeviceId): (rs: seq<RawRecord>)
    ensures forall x :: x in rs <==> x in recs && x.deviceId == id
  {
    if recs == [] then []
    else
      var last := recs[|recs| - 1];
      assert recs == recs[..|recs| - 1] + [last];
      OfDevice(recs[..|recs| - 1], id) + (if last.deviceId == id then [last] else [])
  }

  /** The distinct device ids of the rows, in order of first appearance
      (`data['device_id'].unique()`). */
  function Devices(recs: seq<RawRecord>): (ids: seq<DeviceId>)
    ensures Distinct(ids)
    ensures forall id :: id in ids <==> exists x :: x in recs && x.deviceId == id
  {
    if recs == [] then []
    else
      var last := recs[|recs| - 1];
      assert recs == recs[..|recs| - 1] + [last];
      var earlier := Devices(recs[..|recs| - 1]);
      if last.deviceId in earlier then earlier else earlier + [last.deviceId]
  }

  /** The temperatures of the rows, in order. */
  function Temperatures(recs: seq<RawRecord>): (ts: seq<int>)
    ensures |ts| == |recs|
    ensures forall i :: 0 <= i < |recs| ==> ts[i] == recs[i].temperature
  {
    seq(|recs|, i requires 0 <= i < |recs| => recs[i].temperature)
  }

  /** SQL `MAX`: the largest element. */
  function MaxOf(s: seq<int>): (m: int)
    requires s != []
    ensures m in s
    ensures forall i :: 0 <= i < |s| ==> s[i] <= m
  {
    if |s| == 1 then s[0]
    else
      var rest := MaxOf(s[1..]);
      assert forall i :: 1 <= i < |s| ==> s[i] == s[1..][i - 1];
      if s[0] < rest then rest else s[0]
  }

  /** The number of source records of the device that lie in the window,
      counted over the positions of the source table. */
  ghost function InWindowCount(src: seq<RawRecord>, w: Window, id: DeviceId): nat {
    |set i | 0 <= i < |src| && src[i].deviceId == id && InWindow(src[i], w)|
  }

  /** m is the maximum temperature among the device's in-window records. */
  ghost predicate IsMaxTemperature(src: seq<RawRecord>, w: Window, id: DeviceId, m: int) {
    && (exists x :: x in src && InWindow(x, w) && x.deviceId == id && x.temperature == m)
    && (forall x :: x in src && InWindow(x, w) && x.deviceId == id ==> x.temperature <= m)
  }

  /** `get_max_temp`: one row per device with an in-window record, carrying
      the maximum of that device's in-window temperatures. */
  function GetMaxTemp(src: seq<RawRecord>, w: Window): (r: seq<Keyed<int>>)
    ensures Distinct(KeysOf(r))
    ensures forall id :: id in KeysOf(r) <==> HasRecordIn(src, w, id)
    ensures forall k :: 0 <= k < |r| ==> IsMaxTemperature(src, w, r[k].deviceId, r[k].value)
  {
    var recs := Select(src, w);
    var ids := Devices(recs);
    var r := seq(|ids|, k requires 0 <= k < |ids| =>
      assert ids[k] in ids;
      Keyed(ids[k], MaxOf(Temperatures(OfDevice(recs, ids[k])))));
    assert KeysOf(r) == ids;
    forall k | 0 <= k < |r|
      ensures IsMaxTemperature(src, w, r[k].deviceId, r[k].value)
    {
      var ts := Temperatures(OfDevice(recs, ids[k]));
      var i :| 0 <= i < |ts| && ts[i] == r[k].value;
      assert OfDevice(recs, ids[k])[i] in OfDevice(recs, ids[k]);
    }
    r
  }

  /** `get_device_data_count`: one row per device with an in-window record,
      carrying how many in-window records that device has. */
  function GetDeviceDataCount(src: seq<RawRecord>, w: Window): (r: seq<Keyed<int>>)
    ensures Distinct(KeysOf(r))
    ensures forall id :: id in KeysOf(r) <==> HasRecordIn(src, w, id)
    ensures forall k :: 0 <= k < |r| ==> r[k].value == InWindowCount(src, w, r[k].deviceId) > 0
  {
    var recs := Select(src, w);
    var ids := Devices(recs);
    var r := seq(|ids|, k requires 0 <= k < |ids| => Keyed(ids[k], |OfDevice(recs, ids[k])|));
    assert KeysOf(r) == ids;
    forall k | 0 <= k < |r|
      ensures r[k].value == InWindowCount(src, w, r[k].deviceId) > 0
    {
      CountIsInWindowCount(src, w, ids[k]);
      assert ids[k] in ids;
    }
    r
  }

  /** Filtering the window, then the device, keeps exactly the in-window
      records of the device, position by position. */
  lemma {:induction false} CountIsInWindowCount(src: seq<RawRecord>, w: Window, id: DeviceId)
    ensures |OfDevice(Select(src, w), id)| == InWindowCount(src, w, id)
  {
    if src != [] {
      var n := |src| - 1;
      var pre, last := src[..n], src[n];
      CountIsInWindowCount(pre, w, id);
      InWindowCountStep(src, w, id);
      var a := Select(pre, w);
      var b := if InWindow(last, w) then [last] else [];
      assert Select(src, w) == a + b;
      OfDeviceAppend(a, b, id);
      assert |OfDevice(b, id)| == if last.deviceId == id && InWindow(last, w) then 1 else 0;
    }
  }

  lemma InWindowCountStep(src: seq<RawRecord>, w: Window, id: DeviceId)
    requires src != []
    ensures InWindowCount(src, w, id) == InWindowCount(src[..|src| - 1], w, id) +
      (if src[|src| - 1].deviceId == id && InWindow(src[|src| - 1], w) then 1 else 0)
  {
    var n := |src| - 1;
    var sPre := set i | 0 <= i < n && src[i].deviceId == id && InWindow(src[i], w);
    var sAll := set i | 0 <= i < |src| && src[i].deviceId == id && InWindow(src[i], w);
    PrefixCount(src, w, id, sPre);
    var hit := src[n].deviceId == id && InWindow(src[n], w);
    var sLast: set<int> := if hit then {n} else {};
    forall i ensures i in sAll <==> i in sPre || i in sLast {
    }
    assert sAll == sPre + sLast;
    assert sPre !! sLast;
  }

  lemma PrefixCount(src: seq<RawRecord>, w: Window, id: DeviceId, sPre: set<int>)
    requires src != []
    requires sPre == set i | 0 <= i < |src| - 1 && src[i].deviceId == id && InWindow(src[i], w)
    ensures InWindowCount(src[..|src| - 1], w, id) == |sPre|
  {
    var pre := src[..|src| - 1];
    assert forall i :: 0 <= i < |pre| ==> pre[i] == src[i];
    assert sPre == set i | 0 <= i < |pre| && pre[i].deviceId == id && InWindow(pre[i], w);
  }

  lemma {:induction false} OfDeviceAppend(a: seq<RawRecord>, b: seq<RawRecord>, id: DeviceId)
    requires |b| <= 1
    ensures OfDevice(a + b, id) == OfDevice(a, id) + OfDevice(b, id)
  {
    if b != [] {
      assert (a + b)[..|a + b| - 1] == a;
      assert b[..0] == [];
    } else {
      assert a + b == a;
    }
  }

  /** A distance between two points on the earth, such as geopy's ellipsoidal
      distance in kilometres; only its non-negativity is relied on. */
  type Geodesic = (Location, Location) -> real

  ghost predicate NonNegative(d: Geodesic) {
    forall p, q :: d(p, q) >= 0.0
  }

  /** The length of the path through the points in the given order: the sum
      of the distances between consecutive points. */
  function PathLength(pts: seq<Location>, d: Geodesic): (len: real)
    ensures |pts| <= 1 ==> len == 0.0
    ensures NonNegative(d) ==> len >= 0.0
  {
    if |pts| <= 1 then 0.0
    else PathLength(pts[..|pts| - 1], d) + d(pts[|pts| - 2], pts[|pts| - 1])
  }

  /** Python's `sum` over a list of floats: a left-to-right total from zero. */
  function Sum(xs: seq<real>): (s: real)
    ensures (forall i :: 0 <= i < |xs| ==> xs[i] >= 0.0) ==> s >= 0.0
  {
    if xs == [] then 0.0 else Sum(xs[..|xs| - 1]) + xs[|xs| - 1]
  }

  /** The list of consecutive distances sums to the path length. */
  lemma {:induction false} SumOfLegs(pts: seq<Location>, legs: seq<real>, d: Geodesic)
    requires |pts| >= 1 && |legs| == |pts| - 1
    requires forall n :: 0 <= n < |legs| ==> legs[n] == d(pts[n], pts[n + 1])
    ensures Sum(legs) == PathLength(pts, d)
  {
    if |legs| > 0 {
      SumOfLegs(pts[..|pts| - 1], legs[..|legs| - 1], d);
    }
  }

  /** The locations of the rows, in order. */
  function Points(recs: seq<RawRecord>): (pts: seq<Location>)
    ensures |pts| == |recs|
    ensures forall i :: 0 <= i < |recs| ==> pts[i] == recs[i].location
  {
    seq(|recs|, i requires 0 <= i < |recs| => recs[i].location)
  }

  /** The distance the device travelled through its in-window points, in
      the order the query returned them. */
  function DeviceDistance(recs: seq<RawRecord>, id: DeviceId, d: Geodesic): real {
    PathLength(Points(OfDevice(recs, id)), d)
  }

  /** What `calculate_distance` returns: nothing for a window without records,
      otherwise one row per device in order of first appearance. */
  function DistanceResult(src: seq<RawRecord>, w: Window, d: Geodesic): (r: Option<seq<Keyed<real>>>)
    ensures r.None? <==> Select(src, w) == []
    ensures r.Some? ==> r.value != []
    ensures r.Some? ==> Distinct(KeysOf(r.value))
    ensures r.Some? ==> forall id :: id in KeysOf(r.value) <==> HasRecordIn(src, w, id)
    ensures r.Some? && NonNegative(d) ==> forall k :: 0 <= k < |r.value| ==> r.value[k].value >= 0.0
  {
    var recs := Select(src, w);
    if recs == [] then None
    else
      var ids := Devices(recs);
      var rows := seq(|ids|, k requires 0 <= k < |ids| => Keyed(ids[k], DeviceDistance(recs, ids[k], d)));
      assert KeysOf(rows) == ids;
      assert recs[0] in recs;
      Some(rows)
  }

  /** A device with a single in-window point travelled no distance. */
  lemma SinglePointNoDistance(src: seq<RawRecord>, w: Window, d: Geodesic, k: nat)
    requires DistanceResult(src, w, d).Some? && k < |DistanceResult(src, w, d).value|
    requires InWindowCount(src, w, DistanceResult(src, w, d).value[k].deviceId) == 1
    ensures DistanceResult(src, w, d).value[k].value == 0.0
  {
    var id := DistanceResult(src, w, d).value[k].deviceId;
    CountIsInWindowCount(src, w, id);
  }

  /** The inner loop of `calculate_distance`: the list of distances between
      consecutive points, then its sum. */
  method TotalDistance(pts: seq<Location>, d: Geodesic) returns (totalDistance: real)
    ensures totalDistance == PathLength(pts, d)
  {
    var distances: seq<real> := [];
    var n := 0;
    while n < |pts| - 1
      invariant 0 <= n <= if |pts| == 0 then 0 else |pts| - 1
      invariant |distances| == n
      invariant forall m :: 0 <= m < n ==> distances[m] == d(pts[m], pts[m + 1])
    {
      distances := distances + [d(pts[n], pts[n + 1])];
      n := n + 1;
    }
    totalDistance := Sum(distances);
    if pts != [] {
      SumOfLegs(pts, distances, d);
    }
  }

  /** `calculate_distance`: for each device, in order of first appearance,
      the sum of the distances between its consecutive points. */
  method CalculateDistance(src: seq<RawRecord>, w: Window, d: Geodesic) returns (r: Option<seq<Keyed<real>>>)
    ensures r == DistanceResult(src, w, d)
  {
    var data := Select(src, w);
    if data == [] {
      return None;
    }
    var deviceIds := Devices(data);
    ghost var expected := DistanceResult(src, w, d).value;
    var deviceDistances: seq<Keyed<real>> := [];
    for i := 0 to |deviceIds|
      invariant deviceDistances == expected[..i]
    {
      var deviceId := deviceIds[i];
      var deviceData := OfDevice(data, deviceId);
      var totalDistance := TotalDistance(Points(deviceData), d);
      assert expected[..i + 1] == expected[..i] + [Keyed(deviceId, totalDistance)];
      deviceDistances := deviceDistances + [Keyed(deviceId, totalDistance)];
    }
    assert expected[..|deviceIds|] == expected;
    r := Some(deviceDistances);
  }
}
