/** `transform_data`: the inner join of the three per-device metric results
    of one window into one summary row per device. */
module Merge {
  import opened Time
  import opened Records
  import opened Metrics

  /** The rows of `right` whose key is the key of `l`, each paired with `l`. */
  function Matches<A(==, !new), B(==, !new)>(l: Keyed<A>, right: seq<Keyed<B>>): (r: seq<Keyed<(A, B)>>)
    ensures forall id, a, b :: Keyed(id, (a, b)) in r <==> Keyed(id, a) == l && Keyed(id, b) in right
    ensures forall x :: x in r ==> x.deviceId == l.deviceId
    ensures (forall y :: y in right ==> y.deviceId != l.deviceId) ==> r == []
    ensures Distinct(KeysOf(right)) ==> |r| <= 1
  {
    if right == [] then []
    else
      var rest := Matches(l, right[1..]);
      assert right == [right[0]] + right[1..];
      assert Distinct(KeysOf(right)) ==> Distinct(KeysOf(right[1..])) by {
        if Distinct(KeysOf(right)) {
          HeadKeyUnique(right);
        }
      }
      if right[0].deviceId == l.deviceId then
        assert Distinct(KeysOf(right)) ==> rest == [] by {
          if Distinct(KeysOf(right)) {
            HeadKeyUnique(right);
          }
        }
        [Keyed(l.deviceId, (l.value, right[0].value))] + rest
      else
        rest
  }

  /** pandas' inner `merge` on `device_id`: for each row on the left, in
      order, one row for every row on the right with the same key. */
  function Join<A(==, !new), B(==, !new)>(left: seq<Keyed<A>>, right: seq<Keyed<B>>): (r: seq<Keyed<(A, B)>>)
    ensures forall id, a, b :: Keyed(id, (a, b)) in r <==> Keyed(id, a) in left && Keyed(id, b) in right
    ensures forall x :: x in r ==> x.deviceId in KeysOf(left)
  {
    if left == [] then []
    else
      assert left == [left[0]] + left[1..];
      assert KeysOf(left) == [left[0].deviceId] + KeysOf(left[1..]);
      Matches(left[0], right) + Join(left[1..], right)
  }

  /** Joining results with one row per device gives one row per device. */
  lemma {:induction false} JoinDistinct<A(!new), B(!new)>(left: seq<Keyed<A>>, right: seq<Keyed<B>>)
    requires Distinct(KeysOf(left)) && Distinct(KeysOf(right))
    ensures Distinct(KeysOf(Join(left, right)))
  {
    if left != [] {
      HeadKeyUnique(left);
      JoinDistinct(left[1..], right);
      var here, rest := Matches(left[0], right), Join(left[1..], right);
      assert Join(left, right) == here + rest;
      KeysOfConcat(here, rest);
      forall k | k in KeysOf(here) ensures k !in KeysOf(rest) {
      }
      DistinctConcat(KeysOf(here), KeysOf(rest));
    }
  }

  /** Summary rows from the joined results, one per joined row, in order. */
  function SummaryRowsOf(j: seq<Keyed<((int, int), real)>>): (r: seq<SummaryRow>)
    ensures forall id, t, c, x :: SummaryRow(id, t, c, x) in r <==> Keyed(id, ((t, c), x)) in j
    ensures DevicesOf(r) == KeysOf(j)
  {
    if j == [] then []
    else
      var rest := SummaryRowsOf(j[1..]);
      SummaryRowsOfStep(j, rest);
      [SummaryRow(j[0].deviceId, j[0].value.0.0, j[0].value.0.1, j[0].value.1)] + rest
  }

  lemma SummaryRowsOfStep(j: seq<Keyed<((int, int), real)>>, rest: seq<SummaryRow>)
    requires j != []
    requires DevicesOf(rest) == KeysOf(j[1..])
    ensures DevicesOf([SummaryRow(j[0].deviceId, j[0].value.0.0, j[0].value.0.1, j[0].value.1)] + rest) == KeysOf(j)
    ensures forall y :: y in j <==> y == j[0] || y in j[1..]
  {
    var r := [SummaryRow(j[0].deviceId, j[0].value.0.0, j[0].value.0.1, j[0].value.1)] + rest;
    forall i | 1 <= i < |r| ensures DevicesOf(r)[i] == KeysOf(j)[i] {
      assert r[i] == rest[i - 1];
      assert DevicesOf(rest)[i - 1] == KeysOf(j[1..])[i - 1];
    }
    assert j == [j[0]] + j[1..];
  }

  /** The device ids of summary rows, in order. */
  function DevicesOf(rows: seq<SummaryRow>): (ids: seq<DeviceId>)
    ensures |ids| == |rows|
    ensures forall i :: 0 <= i < |rows| ==> ids[i] == rows[i].deviceId
  {
    seq(|rows|, i requires 0 <= i < |rows| => rows[i].deviceId)
  }

  /** The merged summary of one window. An input that is missing (the
      extractor returned nothing) or empty makes the summary empty. */
  function MergeSummaries(
    maxTemps: Option<seq<Keyed<int>>>,
    counts: Option<seq<Keyed<int>>>,
    distances: Option<seq<Keyed<real>>>): (r: seq<SummaryRow>)
    ensures maxTemps.None? || counts.None? || distances.None? ==> r == []
    ensures maxTemps == Some([]) || counts == Some([]) || distances == Some([]) ==> r == []
    ensures maxTemps.Some? && counts.Some? && distances.Some? ==>
      forall id, t, c, x :: SummaryRow(id, t, c, x) in r <==>
        Keyed(id, t) in maxTemps.value && Keyed(id, c) in counts.value && Keyed(id, x) in distances.value
    ensures (maxTemps.Some? && counts.Some? && distances.Some? &&
      Distinct(KeysOf(maxTemps.value)) && Distinct(KeysOf(counts.value)) && Distinct(KeysOf(distances.value)))
      ==> Distinct(DevicesOf(r))
  {
    if maxTemps.Some? && counts.Some? && distances.Some?
      && maxTemps.value != [] && counts.value != [] && distances.value != []
    then
      var mc := Join(maxTemps.value, counts.value);
      var j := Join(mc, distances.value);
      assert Distinct(KeysOf(maxTemps.value)) && Distinct(KeysOf(counts.value)) && Distinct(KeysOf(distances.value))
        ==> Distinct(KeysOf(j)) by {
        if Distinct(KeysOf(maxTemps.value)) && Distinct(KeysOf(counts.value)) && Distinct(KeysOf(distances.value)) {
          JoinDistinct(maxTemps.value, counts.value);
          JoinDistinct(mc, distances.value);
        }
      }
      SummaryRowsOf(j)
    else
      []
  }

  /** The summary `transform_data` produces for a window of the source table. */
  function Summary(src: seq<RawRecord>, w: Window, d: Geodesic): (s: seq<SummaryRow>)
    ensures (forall id :: !HasRecordIn(src, w, id)) ==> s == []
  {
    var maxTemps := GetMaxTemp(src, w);
    assert maxTemps != [] ==> maxTemps[0].deviceId in KeysOf(maxTemps);
    MergeSummaries(Some(maxTemps), Some(GetDeviceDataCount(src, w)), DistanceResult(src, w, d))
  }

  /** A device present in all three results has a merged row with their values. */
  lemma MergeHasRow(m: seq<Keyed<int>>, c: seq<Keyed<int>>, x: seq<Keyed<real>>, row: SummaryRow)
    requires Keyed(row.deviceId, row.maxTemperature) in m
    requires Keyed(row.deviceId, row.deviceDataCount) in c
    requires Keyed(row.deviceId, row.totalDistance) in x
    ensures row.deviceId in DevicesOf(MergeSummaries(Some(m), Some(c), Some(x)))
  {
    var r := MergeSummaries(Some(m), Some(c), Some(x));
    assert SummaryRow(row.deviceId, row.maxTemperature, row.deviceDataCount, row.totalDistance) == row;
    assert row in r;
    var n :| 0 <= n < |r| && r[n] == row;
    assert DevicesOf(r)[n] == row.deviceId;
  }

  /** A key of a result is the key of one of its rows. */
  lemma RowOfKey<V>(s: seq<Keyed<V>>, id: DeviceId) returns (v: V)
    requires id in KeysOf(s)
    ensures Keyed(id, v) in s
  {
    var i :| 0 <= i < |s| && KeysOf(s)[i] == id;
    assert s[i] == Keyed(id, s[i].value);
    v := s[i].value;
  }

  /** Every device with an in-window record has a summary row. */
  lemma SummaryHasDevice(src: seq<RawRecord>, w: Window, d: Geodesic, id: DeviceId)
    requires HasRecordIn(src, w, id)
    ensures id in DevicesOf(Summary(src, w, d))
  {
    var m, c, x := GetMaxTemp(src, w), GetDeviceDataCount(src, w), DistanceResult(src, w, d);
    var y :| y in src && InWindow(y, w) && y.deviceId == id;
    assert y in Select(src, w);
    var a := RowOfKey(m, id);
    var b := RowOfKey(c, id);
    var e := RowOfKey(x.value, id);
    MergeHasRow(m, c, x.value, SummaryRow(id, a, b, e));
  }

  /** Every summary row belongs to a device with an in-window record and
      carries that device's metrics. */
  lemma SummaryRowFaithful(src: seq<RawRecord>, w: Window, d: Geodesic, row: SummaryRow)
    requires row in Summary(src, w, d)
    ensures HasRecordIn(src, w, row.deviceId)
    ensures IsMaxTemperature(src, w, row.deviceId, row.maxTemperature)
    ensures row.deviceDataCount == InWindowCount(src, w, row.deviceId)
    ensures row.totalDistance == DeviceDistance(Select(src, w), row.deviceId, d)
  {
    var m, c, x := GetMaxTemp(src, w), GetDeviceDataCount(src, w), DistanceResult(src, w, d);
    assert x.Some?;
    assert SummaryRow(row.deviceId, row.maxTemperature, row.deviceDataCount, row.totalDistance) == row;
    assert Keyed(row.deviceId, row.maxTemperature) in m;
    var i :| 0 <= i < |m| && m[i] == Keyed(row.deviceId, row.maxTemperature);
    var j :| 0 <= j < |c| && c[j] == Keyed(row.deviceId, row.deviceDataCount);
    var k :| 0 <= k < |x.value| && x.value[k] == Keyed(row.deviceId, row.totalDistance);
    assert KeysOf(m)[i] == row.deviceId;
  }

  /** Over one snapshot of the source table, the summary has exactly one row
      for each device with an in-window record, carrying that device's
      maximum temperature, record count and travelled distance; it is empty
      exactly when no record lies in the window. */
  lemma SummaryRows(src: seq<RawRecord>, w: Window, d: Geodesic)
    ensures Distinct(DevicesOf(Summary(src, w, d)))
    ensures forall id :: id in DevicesOf(Summary(src, w, d)) <==> HasRecordIn(src, w, id)
    ensures forall row :: row in Summary(src, w, d) ==>
      && IsMaxTemperature(src, w, row.deviceId, row.maxTemperature)
      && row.deviceDataCount == InWindowCount(src, w, row.deviceId)
      && row.totalDistance == DeviceDistance(Select(src, w), row.deviceId, d)
    ensures Summary(src, w, d) == [] <==> Select(src, w) == []
  {
    var r := Summary(src, w, d);
    forall id | HasRecordIn(src, w, id) ensures id in DevicesOf(r) {
      SummaryHasDevice(src, w, d, id);
    }
    forall row | row in r
      ensures HasRecordIn(src, w, row.deviceId)
      ensures IsMaxTemperature(src, w, row.deviceId, row.maxTemperature)
      ensures row.deviceDataCount == InWindowCount(src, w, row.deviceId)
      ensures row.totalDistance == DeviceDistance(Select(src, w), row.deviceId, d)
    {
      SummaryRowFaithful(src, w, d, row);
    }
    forall id | id in DevicesOf(r) ensures HasRecordIn(src, w, id) {
      var n :| 0 <= n < |r| && DevicesOf(r)[n] == id;
      assert r[n] in r;
    }
    var recs := Select(src, w);
    if recs != [] {
      assert recs[0] in recs;
      SummaryHasDevice(src, w, d, recs[0].deviceId);
    }
  }

  /** `transform_data`: the three extractors over one window, then the merge. */
  method TransformData(src: seq<RawRecord>, w: Window, d: Geodesic) returns (summary: seq<SummaryRow>)
    ensures summary == Summary(src, w, d)
  {
    var maxTempDf := GetMaxTemp(src, w);
    var deviceDataCountDf := GetDeviceDataCount(src, w);
    var distanceDf := CalculateDistance(src, w, d);
    summary := MergeSummaries(Some(maxTempDf), Some(deviceDataCountDf), distanceDf);
  }
}
