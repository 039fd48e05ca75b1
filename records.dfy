/** The data of the ETL job: raw device pings in the source table, the
    per-device metric rows computed for one window, the merged summary row,
    and the row of the `devices_summary` destination table. */
module Records {
  import opened Time

  datatype Option<T> = None | Some(value: T)

  type DeviceId = string

  /** A decoded `location` payload. */
  datatype Location = Location(latitude: real, longitude: real)

  /** One row of the source `devices` table. */
  datatype RawRecord = RawRecord(
    deviceId: DeviceId,
    time: Timestamp,
    temperature: int,
    location: Location)

  /** One row of a per-device metric result: a device and its metric value. */
  datatype Keyed<V> = Keyed(deviceId: DeviceId, value: V)

  /** A row of the merged metric results, before the window and load time are attached. */
  datatype SummaryRow = SummaryRow(
    deviceId: DeviceId,
    maxTemperature: int,
    deviceDataCount: int,
    totalDistance: real)

  /** One row of `devices_summary` as it is inserted. The fields follow the
      column order of the insert: device_id, hour_start_time,
      max_temperature, device_data_count, total_distance, inserted_time.
      The store assigns `summary_id` itself. */
  datatype SummaryRecord = SummaryRecord(
    deviceId: DeviceId,
    hourStartTime: Timestamp,
    maxTemperature: int,
    deviceDataCount: int,
    totalDistance: real,
    insertedTime: Timestamp)

  /** The keys of a metric result, in order. */
  function KeysOf<V>(rows: seq<Keyed<V>>): (ks: seq<DeviceId>)
    ensures |ks| == |rows|
    ensures forall i :: 0 <= i < |rows| ==> ks[i] == rows[i].deviceId
  {
    seq(|rows|, i requires 0 <= i < |rows| => rows[i].deviceId)
  }

  /** No element occurs twice. */
  predicate Distinct<T(==)>(s: seq<T>) {
    forall i, j :: 0 <= i < j < |s| ==> s[i] != s[j]
  }

  lemma KeysOfConcat<V>(a: seq<Keyed<V>>, b: seq<Keyed<V>>)
    ensures KeysOf(a + b) == KeysOf(a) + KeysOf(b)
  {
  }

  /** Concatenating sequences without common elements keeps them distinct. */
  lemma DistinctConcat<T>(a: seq<T>, b: seq<T>)
    requires Distinct(a) && Distinct(b)
    requires forall x :: x in a ==> x !in b
    ensures Distinct(a + b)
  {
    forall i, j | 0 <= i < j < |a + b| ensures (a + b)[i] != (a + b)[j] {
      if j >= |a| && i < |a| {
        assert (a + b)[i] in a;
        assert (a + b)[j] == b[j - |a|];
      }
    }
  }

  /** In a sequence of distinct keys, the head's key does not recur in the tail. */
  lemma HeadKeyUnique<V>(s: seq<Keyed<V>>)
    requires s != [] && Distinct(KeysOf(s))
    ensures Distinct(KeysOf(s[1..]))
    ensures forall y :: y in s[1..] ==> y.deviceId != s[0].deviceId
    ensures s[0].deviceId !in KeysOf(s[1..])
  {
    assert KeysOf(s) == [s[0].deviceId] + KeysOf(s[1..]);
  }
}
