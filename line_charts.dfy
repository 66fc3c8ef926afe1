/**
 * The line charts. Compared by station, each station's bar group holds the
 * mean of each parameter of the group over its readings, rounded to 2
 * decimals, and a parameter without readings has no bar. Over time, the
 * records are bucketed by the key 'DATE HH:00'; a bucket holds per station the
 * selected parameter (all stations) or per parameter the readings of the
 * selected station, the later record of a key winning, and the buckets come
 * out sorted by key. The same code serves the pollutant and the
 * meteorological group.
 */
module LineCharts {
  import opened Strings
  import opened Sorting
  import opened Cells
  import opened Numbers
  import opened ChartData

  lemma GroupsDistinct()
    ensures Distinct(Contaminantes) && Distinct(Meteorologicos)
  {
  }

  // ---------------------------------------------------------------------
  // Means by station

  /** Running sum and count of one station's readings of one parameter. */
  datatype Acc = Acc(sum: real, count: nat)

  function AccOf(inner: map<string, Acc>, q: string): Acc
  {
    if q in inner then inner[q] else Acc(0.0, 0)
  }

  /** The parameters of `group` with a reading in `row`. */
  function ReadingFields(row: Record, group: seq<string>): set<string>
  {
    set q | q in group && Get(row, q).Num?
  }

  /** A station's accumulators after one more record of it. */
  function AddSpec(inner: map<string, Acc>, row: Record, group: seq<string>): map<string, Acc>
  {
    map q | q in inner.Keys + ReadingFields(row, group) ::
      if q in ReadingFields(row, group) then Acc(AccOf(inner, q).sum + Get(row, q).r, AccOf(inner, q).count + 1) else inner[q]
  }

  /** Adds the readings of one record to its station's accumulators, parameter by parameter. */
  method AddReadings(inner: map<string, Acc>, row: Record, group: seq<string>) returns (out: map<string, Acc>)
    requires Distinct(group)
    ensures out == AddSpec(inner, row, group)
  {
    out := inner;
    for k := 0 to |group|
      invariant forall q :: q in out <==> q in inner || q in ReadingFields(row, group[..k])
      invariant forall q :: q in out ==>
        out[q] == (if q in ReadingFields(row, group[..k]) then Acc(AccOf(inner, q).sum + Get(row, q).r, AccOf(inner, q).count + 1) else inner[q])
    {
      var q := group[k];
      assert group[..k + 1] == group[..k] + [q];
      assert q !in group[..k];
      var value := Get(row, q);
      if value.Num? {
        var acc := if q in out then out[q] else Acc(0.0, 0);
        out := out[q := Acc(acc.sum + value.r, acc.count + 1)];
      }
    }
    assert group[..|group|] == group;
  }

  /**
   * The accumulators describe `data`: an entry for every station of the
   * records, and under it an entry for exactly the parameters of `group` it
   * has readings of, holding their sum and count.
   */
  ghost predicate MeansTable(sd: map<string, map<string, Acc>>, data: seq<Record>, group: seq<string>)
  {
    (forall s :: s in sd <==> exists i :: 0 <= i < |data| && data[i].station == s) &&
    (forall s, q :: s in sd ==> (q in sd[s] <==> q in group && |Samples(data, s, q)| > 0)) &&
    (forall s, q :: s in sd && q in sd[s] ==> sd[s][q] == Acc(Sum(Samples(data, s, q)), |Samples(data, s, q)|))
  }

  /** The accumulators of station `s`, none yet when it has no entry. */
  function StationAccs(sd: map<string, map<string, Acc>>, s: string): map<string, Acc>
  {
    if s in sd then sd[s] else map[]
  }

  lemma MeansStep(data: seq<Record>, i: nat, group: seq<string>, sd: map<string, map<string, Acc>>, sd': map<string, map<string, Acc>>)
    requires i < |data| && MeansTable(sd, data[..i], group)
    requires sd' == sd[data[i].station := AddSpec(StationAccs(sd, data[i].station), data[i], group)]
    ensures MeansTable(sd', data[..i + 1], group)
  {
    var front, row, now := data[..i], data[i], data[..i + 1];
    assert now == front + [row];
    MeansStepStations(front, row, now, sd, sd');
    forall s, q | s in sd'
      ensures q in sd'[s] <==> q in group && |Samples(now, s, q)| > 0
      ensures q in sd'[s] ==> sd'[s][q] == Acc(Sum(Samples(now, s, q)), |Samples(now, s, q)|)
    {
      var inner := StationAccs(sd, s);
      if s !in sd {
        SamplesEmpty(front, s, q);
        assert forall j :: 0 <= j < |front| ==> front[j].station != s;
      }
      if s != row.station {
        OtherStationKept(sd, row.station, sd'[row.station], s);
      }
      MeansStepCell(front, row, now, group, inner, sd'[s], s, q);
    }
  }

  lemma OtherStationKept(sd: map<string, map<string, Acc>>, k: string, v: map<string, Acc>, s: string)
    requires s in sd[k := v] && s != k
    ensures s in sd && sd[k := v][s] == sd[s]
  {
  }

  lemma MeansStepStations(front: seq<Record>, row: Record, now: seq<Record>, sd: map<string, map<string, Acc>>, sd': map<string, map<string, Acc>>)
    requires now == front + [row]
    requires forall s :: s in sd <==> exists j :: 0 <= j < |front| && front[j].station == s
    requires sd'.Keys == sd.Keys + {row.station}
    ensures forall s :: s in sd' <==> exists j :: 0 <= j < |now| && now[j].station == s
  {
    forall s ensures s in sd' <==> exists j :: 0 <= j < |now| && now[j].station == s {
      if s in sd' && s != row.station {
        var j :| 0 <= j < |front| && front[j].station == s;
        assert now[j] == front[j];
      }
      if s in sd' && s == row.station {
        assert now[|front|] == row;
      }
      if exists j :: 0 <= j < |now| && now[j].station == s {
        var j :| 0 <= j < |now| && now[j].station == s;
        if j < |front| {
          assert front[j] == now[j];
        }
      }
    }
  }

  /** One station's accumulator of one parameter after one more record. */
  lemma MeansStepCell(front: seq<Record>, row: Record, now: seq<Record>, group: seq<string>,
                      inner: map<string, Acc>, out: map<string, Acc>, s: string, q: string)
    requires now == front + [row]
    requires out == if s == row.station then AddSpec(inner, row, group) else inner
    requires q in inner <==> q in group && |Samples(front, s, q)| > 0
    requires q in inner ==> inner[q] == Acc(Sum(Samples(front, s, q)), |Samples(front, s, q)|)
    ensures q in out <==> q in group && |Samples(now, s, q)| > 0
    ensures q in out ==> out[q] == Acc(Sum(Samples(now, s, q)), |Samples(now, s, q)|)
  {
    var xs := Samples(front, s, q);
    SamplesStep(front, row, now, s, q);
    if s == row.station && Get(row, q).Num? {
      AddSpecAt(inner, row, group, q);
      SumStep(xs, Get(row, q).r);
    } else {
      assert Samples(now, s, q) == xs + [] == xs;
      if s == row.station {
        AddSpecAt(inner, row, group, q);
      }
    }
  }

  lemma SamplesStep(front: seq<Record>, row: Record, now: seq<Record>, s: string, q: string)
    requires now == front + [row]
    ensures Samples(now, s, q) == Samples(front, s, q) + (if row.station == s && Get(row, q).Num? then [Get(row, q).r] else [])
  {
    assert now[..|now| - 1] == front;
  }

  lemma SumStep(xs: seq<real>, x: real)
    ensures Sum(xs + [x]) == Sum(xs) + x
  {
    assert (xs + [x])[..|xs|] == xs;
  }

  lemma AddSpecAt(inner: map<string, Acc>, row: Record, group: seq<string>, q: string)
    ensures q in AddSpec(inner, row, group) <==> q in inner || (q in group && Get(row, q).Num?)
    ensures q in group && Get(row, q).Num? ==>
      AddSpec(inner, row, group)[q] == Acc(AccOf(inner, q).sum + Get(row, q).r, AccOf(inner, q).count + 1)
    ensures q in inner && !(q in group && Get(row, q).Num?) ==> AddSpec(inner, row, group)[q] == inner[q]
  {
  }

  /** Sums and counts every reading of the group, record by record. */
  method AccumulateMeans(data: seq<Record>, group: seq<string>) returns (stationData: map<string, map<string, Acc>>)
    requires Distinct(group)
    ensures MeansTable(stationData, data, group)
  {
    stationData := map[];
    for i := 0 to |data|
      invariant MeansTable(stationData, data[..i], group)
    {
      var station := data[i].station;
      var inner := StationAccs(stationData, station);
      inner := AddReadings(inner, data[i], group);
      var before := stationData;
      stationData := stationData[station := inner];
      MeansStep(data, i, group, before, stationData);
    }
    assert data[..|data|] == data;
  }

  /** One bar group: the station and the rounded mean of each parameter that has readings. */
  datatype MeanRow = MeanRow(station: string, values: map<string, real>)

  /** The bar group of station `s` computed from the accumulators. */
  function TableMeans(sd: map<string, map<string, Acc>>, s: string, group: seq<string>): map<string, real>
  {
    map q | q in group && s in sd && q in sd[s] && sd[s][q].count > 0 :: ToFixed(sd[s][q].sum / sd[s][q].count as real, 2)
  }

  /** The bar group of station `s`: rounded means, and no entry for a parameter without readings. */
  function StationMeans(data: seq<Record>, s: string, group: seq<string>): map<string, real>
  {
    map q | q in group && |Samples(data, s, q)| > 0 :: ToFixed(Mean(Samples(data, s, q)), 2)
  }

  /** The bar groups of the stations `sts`, in that order. */
  function MeansRows(data: seq<Record>, sts: seq<string>, group: seq<string>): seq<MeanRow>
  {
    seq(|sts|, i requires 0 <= i < |sts| => MeanRow(sts[i], StationMeans(data, sts[i], group)))
  }

  /** One bar group per station, in sorted station order. */
  function CompareData(data: seq<Record>, group: seq<string>): seq<MeanRow>
  {
    MeansRows(data, SortedStations(data), group)
  }

  /** The bar groups computed from the accumulators. */
  function TableRows(sd: map<string, map<string, Acc>>, sts: seq<string>, group: seq<string>): seq<MeanRow>
  {
    seq(|sts|, i requires 0 <= i < |sts| => MeanRow(sts[i], TableMeans(sd, sts[i], group)))
  }

  method CompareMeans(data: seq<Record>, group: seq<string>) returns (rows: seq<MeanRow>)
    requires Distinct(group)
    ensures rows == CompareData(data, group)
  {
    var stationData := AccumulateMeans(data, group);
    var stations := SortedStations(data);
    rows := TableRows(stationData, stations, group);
    TableRowsAgree(stationData, data, stations, group);
  }

  lemma TableRowsAgree(sd: map<string, map<string, Acc>>, data: seq<Record>, sts: seq<string>, group: seq<string>)
    requires MeansTable(sd, data, group)
    requires forall s :: s in sts ==> exists i :: 0 <= i < |data| && data[i].station == s
    ensures TableRows(sd, sts, group) == MeansRows(data, sts, group)
  {
    forall i | 0 <= i < |sts| ensures TableMeans(sd, sts[i], group) == StationMeans(data, sts[i], group) {
      assert sts[i] in sts;
      TableAgrees(sd, data, sts[i], group);
    }
  }

  lemma TableAgrees(sd: map<string, map<string, Acc>>, data: seq<Record>, s: string, group: seq<string>)
    requires MeansTable(sd, data, group)
    requires exists i :: 0 <= i < |data| && data[i].station == s
    ensures TableMeans(sd, s, group) == StationMeans(data, s, group)
  {
    assert s in sd;
  }

  /**
   * The bar groups follow the sorted stations; a group has a value for a
   * parameter exactly when the station has a reading of it, so a missing
   * parameter is never shown as 0, and the value lies between the rounded
   * smallest and largest reading.
   */
  lemma CompareDataExact(data: seq<Record>, group: seq<string>, i: nat, q: string)
    requires i < |CompareData(data, group)|
    ensures CompareData(data, group)[i].station == SortedStations(data)[i]
    ensures var row := CompareData(data, group)[i];
      q in row.values <==> q in group && exists j :: 0 <= j < |data| && data[j].station == row.station && Get(data[j], q).Num?
    ensures var row := CompareData(data, group)[i];
      q in row.values ==>
        ToFixed(SeqMin(Samples(data, row.station, q)), 2) <= row.values[q] <= ToFixed(SeqMax(Samples(data, row.station, q)), 2)
  {
    var s := SortedStations(data)[i];
    var xs := Samples(data, s, q);
    SamplesEmpty(data, s, q);
    if q in group && |xs| > 0 {
      MeanBetweenExtremes(xs);
      ToFixedMonotone(SeqMin(xs), Mean(xs), 2);
      ToFixedMonotone(Mean(xs), SeqMax(xs), 2);
    }
  }

  // ---------------------------------------------------------------------
  // Time series

  /** `String(h).padStart(2, '0')`. */
  function Pad2(h: int): (t: string)
    ensures |t| >= 2
  {
    var s := if h < 0 then "-" + NatText(-h) else NatText(h);
    if |s| < 2 then "0" + s else s
  }

  /** The bucket key of a record: its DATE text, a space, the zero-padded hour and ':00'. */
  function TimeKey(r: Record): string
  {
    r.date + HourText(r.hour)
  }

  /** The part of the key after the DATE text: a space, the zero-padded hour and ':00'. */
  function HourText(h: int): string
  {
    " " + Pad2(h) + ":00"
  }

  /** Hours 0 to 99 print as two digits, tens first. */
  lemma Pad2Digits(h: int)
    requires 0 <= h < 100
    ensures Pad2(h) == [DigitChar(h / 10), DigitChar(h % 10)]
  {
    if h >= 10 {
      assert NatText(h) == NatText(h / 10) + [DigitChar(h % 10)];
    }
  }

  /** For an hour of 0 to 99, the key gives back the DATE text and the hour. */
  lemma TimeKeyParts(r: Record)
    requires 0 <= r.hour < 100
    ensures var k := TimeKey(r);
      |k| == |r.date| + 6 && k[..|r.date|] == r.date &&
      AllDigits(k[|r.date| + 1..|r.date| + 3]) && DigitsValue(k[|r.date| + 1..|r.date| + 3]) == r.hour
  {
    Pad2Digits(r.hour);
    var k := TimeKey(r);
    var n := |r.date|;
    assert k[n + 1..n + 3] == Pad2(r.hour);
    assert Pad2(r.hour)[..1] == [DigitChar(r.hour / 10)];
  }

  /** Two records of the same DATE text sort by hour. */
  lemma TimeKeyOrder(a: Record, b: Record)
    requires a.date == b.date && 0 <= a.hour < b.hour < 100
    ensures Below(TimeKey(a), TimeKey(b))
  {
    HourTextOrder(a.hour, b.hour);
    BelowCommonPrefix(a.date, HourText(a.hour), HourText(b.hour));
  }

  /** The part of the key after the DATE text grows with the hour. */
  lemma HourTextOrder(h: int, g: int)
    requires 0 <= h < g < 100
    ensures Below(HourText(h), HourText(g))
  {
    Pad2Digits(h);
    Pad2Digits(g);
    TwoDigitOrder(h, g);
    DigitCharOrder(h / 10, g / 10);
    if h / 10 == g / 10 {
      DigitCharOrder(h % 10, g % 10);
    }
    PaddedOrder(Pad2(h), Pad2(g));
  }

  /** Two-digit numbers compare by tens, then by units. */
  lemma TwoDigitOrder(h: int, g: int)
    requires 0 <= h < g < 100
    ensures h / 10 < g / 10 || (h / 10 == g / 10 && h % 10 < g % 10)
  {
  }

  lemma DigitCharOrder(x: nat, y: nat)
    requires x < 10 && y < 10
    ensures x < y ==> DigitChar(x) < DigitChar(y)
  {
  }

  /** Two-character texts between a blank and ":00" compare character by character. */
  lemma PaddedOrder(a: string, b: string)
    requires |a| == 2 && |b| == 2
    requires a[0] < b[0] || (a[0] == b[0] && a[1] < b[1])
    ensures Below(" " + a + ":00", " " + b + ":00")
  {
    var ta, tb := " " + a + ":00", " " + b + ":00";
    assert ta[0] == ' ' == tb[0] && ta[1] == a[0] && tb[1] == b[0] && ta[2] == a[1] && tb[2] == b[1];
    if a[0] < b[0] {
      assert ta[..1] == tb[..1];
      BelowAtFirstDifference(ta, tb, 1);
    } else {
      assert ta[..2] == tb[..2];
      BelowAtFirstDifference(ta, tb, 2);
    }
  }

  /**
   * Hours 1 and 13 of 2024-01-11, whose DATE texts the conversion writes as
   * 'YYYY-MM-DD HH:MM', give the keys "2024-01-11 01:00 01:00" and
   * "2024-01-11 13:00 13:00", in that order.
   */
  lemma TimeKeyExample(a: Record, b: Record)
    requires a.date == "2024-01-11 01:00" && a.hour == 1 && b.date == "2024-01-11 13:00" && b.hour == 13
    ensures TimeKey(a) == a.date + " 01:00" && TimeKey(b) == b.date + " 13:00"
    ensures Below(TimeKey(a), TimeKey(b))
  {
    HourTextExample();
    var day := "2024-01-11 ";
    assert a.date == day + "01:00" && b.date == day + "13:00";
    BelowCommonPrefix(day, "01:00", "13:00");
    BelowExtend(a.date, b.date, " 01:00", " 13:00");
  }

  /** Hours 1 and 13 print as " 01:00" and " 13:00" after the DATE text. */
  lemma HourTextExample()
    ensures HourText(1) == " 01:00" && HourText(13) == " 13:00"
  {
    Pad2Digits(1);
    Pad2Digits(13);
  }

  /** What the time series shows: one parameter of every station, or the group of one station. */
  datatype Selection = AllStations(param: string) | OneStation(station: string, group: seq<string>)

  /** The station selector's value 'all' selects every station. */
  function SelectionOf(selectedStation: string, selectedParam: string, group: seq<string>): Selection
  {
    if selectedStation == "all" then AllStations(selectedParam) else OneStation(selectedStation, group)
  }

  /** The bucket fields a record writes. */
  function WriteFields(row: Record, sel: Selection): set<string>
  {
    match sel
    case AllStations(p) => if Get(row, p).Num? then {row.station} else {}
    case OneStation(s, g) => if row.station == s then ReadingFields(row, g) else {}
  }

  /** The value a record writes into a field it writes. */
  function Written(row: Record, sel: Selection, q: string): real
    requires q in WriteFields(row, sel)
  {
    match sel
    case AllStations(p) => Get(row, p).r
    case OneStation(_, _) => Get(row, q).r
  }

  /** A bucket after one more record of its key. */
  function RowUpdate(bucket: map<string, real>, row: Record, sel: Selection): map<string, real>
  {
    map q | q in bucket.Keys + WriteFields(row, sel) :: if q in WriteFields(row, sel) then Written(row, sel, q) else bucket[q]
  }

  /** The buckets after one more record: its key gets a bucket if it had none, then the record writes into it. */
  function Step(m: map<string, map<string, real>>, row: Record, sel: Selection): map<string, map<string, real>>
  {
    var k := TimeKey(row);
    m[k := RowUpdate(if k in m then m[k] else map[], row, sel)]
  }

  /** The buckets after the records in order. */
  function Buckets(data: seq<Record>, sel: Selection): map<string, map<string, real>>
  {
    if data == [] then map[] else Step(Buckets(data[..|data| - 1], sel), data[|data| - 1], sel)
  }

  function KeysOf(data: seq<Record>): seq<string>
  {
    seq(|data|, i requires 0 <= i < |data| => TimeKey(data[i]))
  }

  lemma KeysStep(data: seq<Record>)
    requires data != []
    ensures KeysOf(data) == KeysOf(data[..|data| - 1]) + [TimeKey(data[|data| - 1])]
  {
    var front := data[..|data| - 1];
    var grown := KeysOf(front) + [TimeKey(data[|data| - 1])];
    forall i | 0 <= i < |data| ensures KeysOf(data)[i] == grown[i] {
      if i < |front| {
        assert front[i] == data[i];
      }
    }
  }

  /** Writes the selected station's readings of the group into the bucket. */
  method WriteGroup(bucket: map<string, real>, row: Record, s: string, g: seq<string>) returns (out: map<string, real>)
    requires row.station == s
    ensures out == RowUpdate(bucket, row, OneStation(s, g))
  {
    out := bucket;
    for k := 0 to |g|
      invariant forall q :: q in out <==> q in bucket || q in ReadingFields(row, g[..k])
      invariant forall q :: q in out ==> out[q] == if q in ReadingFields(row, g[..k]) then Get(row, q).r else bucket[q]
    {
      var q := g[k];
      assert g[..k + 1] == g[..k] + [q];
      var value := Get(row, q);
      if value.Num? {
        out := out[q := value.r];
      }
    }
    assert g[..|g|] == g;
  }

  /** The write of one record in all-stations mode: its station's value, when it is a reading. */
  lemma AllStationsUpdate(bucket: map<string, real>, row: Record, p: string)
    ensures RowUpdate(bucket, row, AllStations(p)) == if Get(row, p).Num? then bucket[row.station := Get(row, p).r] else bucket
  {
  }

  /** A record of another station leaves the bucket as it was. */
  lemma OtherStationUpdate(bucket: map<string, real>, row: Record, s: string, g: seq<string>)
    requires row.station != s
    ensures RowUpdate(bucket, row, OneStation(s, g)) == bucket
  {
  }

  /** Processes one record: creates its key's bucket when missing and writes into it. */
  method AddRecord(m: map<string, map<string, real>>, row: Record, sel: Selection) returns (out: map<string, map<string, real>>)
    ensures out == Step(m, row, sel)
  {
    var key := TimeKey(row);
    var bucket := if key in m then m[key] else map[];
    match sel {
      case AllStations(p) =>
        AllStationsUpdate(bucket, row, p);
        var value := Get(row, p);
        if value.Num? {
          bucket := bucket[row.station := value.r];
        }
      case OneStation(s, g) =>
        if row.station == s {
          bucket := WriteGroup(bucket, row, s, g);
        } else {
          OtherStationUpdate(bucket, row, s, g);
        }
    }
    out := m[key := bucket];
  }

  /**
   * Fills the buckets record by record; `order` lists the keys as they were
   * first created, which is the order in which JavaScript lists an object's keys.
   */
  method Pivot(data: seq<Record>, sel: Selection) returns (processed: map<string, map<string, real>>, order: seq<string>)
    ensures processed == Buckets(data, sel)
    ensures order == Unique(KeysOf(data))
  {
    processed, order := map[], [];
    for i := 0 to |data|
      invariant processed == Buckets(data[..i], sel)
      invariant order == Unique(KeysOf(data[..i]))
    {
      PivotStep(data, i, sel);
      var key := TimeKey(data[i]);
      if key !in processed {
        order := order + [key];
      }
      processed := AddRecord(processed, data[i], sel);
    }
    assert data[..|data|] == data;
  }

  /** One more record applies one more step, and adds its key to the order when its bucket is new. */
  lemma PivotStep(data: seq<Record>, i: nat, sel: Selection)
    requires i < |data|
    ensures Buckets(data[..i + 1], sel) == Step(Buckets(data[..i], sel), data[i], sel)
    ensures Unique(KeysOf(data[..i + 1])) ==
      if TimeKey(data[i]) in Buckets(data[..i], sel) then Unique(KeysOf(data[..i]))
      else Unique(KeysOf(data[..i])) + [TimeKey(data[i])]
  {
    var now := data[..i + 1];
    assert now[..i] == data[..i] && now[i] == data[i];
    BucketKeys(data[..i], sel);
    KeysStep(now);
    var ks := KeysOf(now);
    assert ks[..|ks| - 1] == KeysOf(data[..i]);
  }

  /** A key has a bucket exactly when some record has that key. */
  lemma {:induction false} BucketKeys(data: seq<Record>, sel: Selection)
    ensures forall k :: k in Buckets(data, sel) <==> k in KeysOf(data)
    decreases |data|
  {
    if data != [] {
      BucketKeys(data[..|data| - 1], sel);
      KeysStep(data);
    }
  }

  /**
   * Last write wins: a bucket has a field exactly when some record of its
   * key writes it, and then holds what the last such record wrote.
   */
  lemma {:induction false} LastWriteWins(data: seq<Record>, sel: Selection, i: nat, q: string)
    requires i < |data| && q in WriteFields(data[i], sel)
    requires forall j :: i < j < |data| && TimeKey(data[j]) == TimeKey(data[i]) ==> q !in WriteFields(data[j], sel)
    ensures TimeKey(data[i]) in Buckets(data, sel)
    ensures q in Buckets(data, sel)[TimeKey(data[i])]
    ensures Buckets(data, sel)[TimeKey(data[i])][q] == Written(data[i], sel, q)
    decreases |data|
  {
    var front := data[..|data| - 1];
    if i < |data| - 1 {
      LastWriteWins(front, sel, i, q);
    }
  }

  /** A field in a bucket was written by a record of that key. */
  lemma {:induction false} BucketFields(data: seq<Record>, sel: Selection, k: string, q: string)
    requires k in Buckets(data, sel) && q in Buckets(data, sel)[k]
    ensures exists i :: 0 <= i < |data| && TimeKey(data[i]) == k && q in WriteFields(data[i], sel)
    decreases |data|
  {
    var front := data[..|data| - 1];
    var last := data[|data| - 1];
    if !(TimeKey(last) == k && q in WriteFields(last, sel)) {
      BucketFields(front, sel, k, q);
      var i :| 0 <= i < |front| && TimeKey(front[i]) == k && q in WriteFields(front[i], sel);
      assert data[i] == front[i];
    }
  }

  /** One point of the time series: its key and the bucket's values. */
  datatype TimeRow = TimeRow(time: string, values: map<string, real>)

  /** The buckets as rows, one per distinct key, in increasing key order. */
  function TimeSeriesData(data: seq<Record>, sel: Selection): (r: seq<TimeRow>)
    ensures forall i, j :: 0 <= i < j < |r| ==> Below(r[i].time, r[j].time)
    ensures forall k :: (exists i :: 0 <= i < |r| && r[i].time == k) <==> k in KeysOf(data)
    ensures forall i :: 0 <= i < |r| ==> r[i].time in Buckets(data, sel) && r[i].values == Buckets(data, sel)[r[i].time]
  {
    var keys := SortedKeys(Unique(KeysOf(data)));
    BucketKeys(data, sel);
    assert forall k :: k in keys <==> k in KeysOf(data);
    assert forall k :: k in keys ==> k in Buckets(data, sel);
    RowsAt(keys, Buckets(data, sel))
  }

  /** One row per key, in the keys' order, holding that key's bucket. */
  function RowsAt(keys: seq<string>, b: map<string, map<string, real>>): (r: seq<TimeRow>)
    requires forall k :: k in keys ==> k in b
    ensures |r| == |keys|
    ensures forall i :: 0 <= i < |r| ==> r[i].time == keys[i] && r[i].values == b[keys[i]]
    ensures StrictlySorted(keys) ==> forall i, j :: 0 <= i < j < |r| ==> Below(r[i].time, r[j].time)
    ensures forall k :: (exists i :: 0 <= i < |r| && r[i].time == k) <==> k in keys
  {
    var r := seq(|keys|, i requires 0 <= i < |keys| => TimeRow(keys[i], b[keys[i]]));
    forall k ensures (exists i :: 0 <= i < |r| && r[i].time == k) <==> k in keys {
      if k in keys {
        var i :| 0 <= i < |keys| && keys[i] == k;
        assert r[i].time == k;
      }
    }
    r
  }

  /** The distinct keys sorted; `localeCompare` on these keys is the code-point order. */
  function SortedKeys(u: seq<string>): (r: seq<string>)
    requires Distinct(u)
    ensures StrictlySorted(r)
    ensures forall k :: k in r <==> k in u
  {
    AtMostTotalPreorder();
    var r := Sort(u, AtMost);
    SortedDistinctStrict(u, r);
    forall k ensures k in r <==> k in u {
      SameElements(u, r, k);
    }
    r
  }

  /** The time-series rows built from the buckets `Pivot` fills. */
  method BuildTimeSeries(data: seq<Record>, sel: Selection) returns (rows: seq<TimeRow>)
    ensures rows == TimeSeriesData(data, sel)
  {
    var processed, order := Pivot(data, sel);
    var keys := SortedKeys(order);
    BucketKeys(data, sel);
    rows := RowsAt(keys, processed);
  }

  /** What either chart shows. */
  datatype ChartRows = ByStation(means: seq<MeanRow>) | OverTime(points: seq<TimeRow>)

  /**
   * The data of the pollutant chart (group `Contaminantes`) or the
   * meteorological chart (group `Meteorologicos`).
   */
  method ParamData(data: seq<Record>, compareByStation: bool, selectedStation: string, selectedParam: string, group: seq<string>)
    returns (r: ChartRows)
    requires Distinct(group)
    ensures compareByStation ==> r == ByStation(CompareData(data, group))
    ensures !compareByStation ==> r == OverTime(TimeSeriesData(data, SelectionOf(selectedStation, selectedParam, group)))
  {
    if compareByStation {
      var rows := CompareMeans(data, group);
      r := ByStation(rows);
    } else {
      var rows := BuildTimeSeries(data, SelectionOf(selectedStation, selectedParam, group));
      r := OverTime(rows);
    }
  }

  // ---------------------------------------------------------------------
  // Lines

  const DefaultColor := "#888888"

  const StationColors: map<string, string> := map[
    "AGU" := "#06b6d4", "ATM" := "#3b82f6", "CEN" := "#f97316", "COU" := "#22c55e",
    "LDO" := "#ef4444", "MIR" := "#8b5cf6", "OBL" := "#ec4899", "PIN" := "#eab308",
    "SAN" := "#14b8a6", "SFE" := "#a855f7", "SMT" := "#0ea5e9", "TLA" := "#6366f1",
    "VAL" := "#f43f5e", "NOR" := "#84cc16", "NTE" := "#fb923c", "SUR" := "#34d399",
    "LDM" := "#c084fc", "SAL" := "#fbbf24", "SJA" := "#2dd4bf", "APO" := "#f472b6",
    "MER" := "#818cf8", "PED" := "#4ade80", "XAL" := "#facc15", "CAM" := "#fb7185",
    "CUA" := "#a3e635", "TAC" := "#c026d3", "BJU" := "#0891b2", "COR" := "#dc2626",
    "CHO" := "#16a34a", "FAC" := "#7c3aed", "HAN" := "#db2777", "INN" := "#ea580c",
    "LAA" := "#059669", "MPA" := "#9333ea", "MON" := "#0284c7", "NEZ" := "#65a30d",
    "SAG" := "#be185d", "UIZ" := "#4f46e5", "VIF" := "#15803d"]

  const ParamColors: map<string, string> := map[
    "O3" := "#3b82f6", "NO" := "#22c55e", "NO2" := "#ef4444", "NOX" := "#f59e0b",
    "SO2" := "#8b5cf6", "CO" := "#ec4899", "PM10" := "#f97316", "PM2.5" := "#06b6d4",
    "IT" := "#ef4444", "ET" := "#f59e0b", "RH" := "#3b82f6", "WS" := "#22c55e",
    "WD" := "#8b5cf6", "PP" := "#06b6d4", "ATM" := "#ec4899", "RS" := "#f97316", "UVI" := "#eab308"]

  function ColorOf(table: map<string, string>, k: string): string
  {
    if k in table then table[k] else DefaultColor
  }

  datatype Line = Line(key: string, color: string)

  /** One line per sorted station when every station is shown, else one per parameter of the group. */
  function Lines(selectedStation: string, stations: seq<string>, group: seq<string>): seq<Line>
  {
    if selectedStation == "all" then seq(|stations|, i requires 0 <= i < |stations| => Line(stations[i], ColorOf(StationColors, stations[i])))
    else seq(|group|, i requires 0 <= i < |group| => Line(group[i], ColorOf(ParamColors, group[i])))
  }

  /** In 'all' mode a station of the colour table, such as SUR, is drawn in its own colour. */
  lemma SurLineExample(group: seq<string>)
    ensures Lines("all", ["SUR"], group) == [Line("SUR", "#34d399")]
  {
  }

  /** Every value of the time series is drawn by some line. */
  lemma LinesCoverSeries(data: seq<Record>, selectedStation: string, selectedParam: string, group: seq<string>, i: nat, q: string)
    requires i < |TimeSeriesData(data, SelectionOf(selectedStation, selectedParam, group))|
    requires q in TimeSeriesData(data, SelectionOf(selectedStation, selectedParam, group))[i].values
    ensures exists l :: l in Lines(selectedStation, SortedStations(data), group) && l.key == q
  {
    var sel := SelectionOf(selectedStation, selectedParam, group);
    var row := TimeSeriesData(data, sel)[i];
    BucketFields(data, sel, row.time, q);
    var j :| 0 <= j < |data| && TimeKey(data[j]) == row.time && q in WriteFields(data[j], sel);
    WrittenFieldHasLine(data, selectedStation, selectedParam, group, j, q);
  }

  /** A field some record writes is a station of the records or a parameter of the group. */
  lemma WrittenFieldHasLine(data: seq<Record>, selectedStation: string, selectedParam: string, group: seq<string>, j: nat, q: string)
    requires j < |data| && q in WriteFields(data[j], SelectionOf(selectedStation, selectedParam, group))
    ensures exists l :: l in Lines(selectedStation, SortedStations(data), group) && l.key == q
  {
    var lines := Lines(selectedStation, SortedStations(data), group);
    if selectedStation == "all" {
      var sts := SortedStations(data);
      assert data[j].station == q;
      assert q in sts;
      var t :| 0 <= t < |sts| && sts[t] == q;
      assert lines[t].key == q;
    } else {
      var t :| 0 <= t < |group| && group[t] == q;
      assert lines[t].key == q;
    }
  }
}
