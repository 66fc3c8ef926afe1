/**
 * The statistics chart: for the selected parameter, the readings of each
 * station (numbers only, flags and empty cells left out), and per station
 * the mean, the population standard deviation, the extremes, the median and
 * the quartiles taken at indices floor(n/4) and floor(3n/4) of the sorted
 * readings, all rounded to 4 decimals; then the box plot built from them.
 */
module StatCharts {
  import opened Strings
  import opened Sorting
  import opened Cells
  import opened Numbers
  import opened ChartData

  /** Fills the dictionary from station to its readings of `p`, record by record. */
  method CollectSamples(data: seq<Record>, p: string) returns (stationStats: map<string, seq<real>>)
    ensures forall s :: s in stationStats <==> |Samples(data, s, p)| > 0
    ensures forall s :: s in stationStats ==> stationStats[s] == Samples(data, s, p)
  {
    stationStats := map[];
    for i := 0 to |data|
      invariant forall s :: s in stationStats <==> |Samples(data[..i], s, p)| > 0
      invariant forall s :: s in stationStats ==> stationStats[s] == Samples(data[..i], s, p)
    {
      assert data[..i + 1][..i] == data[..i];
      var station := data[i].station;
      var value := Get(data[i], p);
      if value.Num? {
        var values := if station in stationStats then stationStats[station] else [];
        stationStats := stationStats[station := values + [value.r]];
      }
    }
    assert data[..|data|] == data;
  }

  /** One bar of the chart; `count` is the number of readings. */
  datatype Stat = Stat(station: string, promedio: real, desviacion: real, min: real, max: real,
                       q1: real, mediana: real, q3: real, count: nat, errorNeg: real, errorPos: real)

  /** The placeholder of a station without readings, dropped before display. */
  function ZeroStat(station: string): Stat
  {
    Stat(station, 0.0, 0.0, 0.0, 0.0, 0.0, 0.0, 0.0, 0, 0.0, 0.0)
  }

  /** The numeric comparison `(a, b) => a - b` of the readings sort. */
  predicate RealLe(a: real, b: real)
  {
    a <= b
  }

  lemma RealLeTotalPreorder()
    ensures TotalPreorder(RealLe)
  {
  }

  /** The middle of the sorted readings: the mean of the two middle ones when n is even. */
  function Median(sorted: seq<real>): real
    requires |sorted| > 0
  {
    var n := |sorted|;
    if n % 2 == 0 then (sorted[n / 2 - 1] + sorted[n / 2]) / 2.0 else sorted[n / 2]
  }

  /** The population variance: squared deviations from the mean, divided by n. */
  function Variance(values: seq<real>): (v: real)
    requires |values| > 0
    ensures v >= 0.0
  {
    SquaredDeviationsNonNegative(values, Mean(values));
    SquaredDeviations(values, Mean(values)) / |values| as real
  }

  /**
   * The quartile indices floor(n·0.25) and floor(n·0.75) lie inside the
   * sorted readings, and minimum, first quartile, median, third quartile and
   * maximum come in that order.
   */
  lemma QuartileChain(sorted: seq<real>)
    requires |sorted| > 0 && SortedBy(sorted, RealLe)
    ensures 0 <= |sorted| / 4 <= (3 * |sorted|) / 4 < |sorted|
    ensures sorted[0] <= sorted[|sorted| / 4] <= Median(sorted)
    ensures Median(sorted) <= sorted[(3 * |sorted|) / 4] <= sorted[|sorted| - 1]
  {
    var n := |sorted|;
    var lo, hi := n / 4, (3 * n) / 4;
    if n % 2 == 0 {
      assert lo <= n / 2 - 1 < n / 2 <= hi;
      assert RealLe(sorted[lo], sorted[n / 2 - 1]);
      assert RealLe(sorted[n / 2 - 1], sorted[n / 2]);
      assert RealLe(sorted[n / 2], sorted[hi]);
    } else {
      assert lo <= n / 2 <= hi;
      assert RealLe(sorted[lo], sorted[n / 2]);
      assert RealLe(sorted[n / 2], sorted[hi]);
    }
    assert RealLe(sorted[0], sorted[lo]);
    assert RealLe(sorted[hi], sorted[n - 1]);
  }

  /** The ends of the sorted readings are the smallest and the largest reading. */
  lemma SortedExtremes(values: seq<real>, sorted: seq<real>)
    requires |values| > 0
    requires multiset(sorted) == multiset(values) && SortedBy(sorted, RealLe)
    ensures |sorted| == |values|
    ensures sorted[0] == SeqMin(values) && sorted[|sorted| - 1] == SeqMax(values)
  {
    assert |sorted| == |multiset(sorted)| == |values|;
    var n := |sorted|;
    SameElements(values, sorted, SeqMin(values));
    SameElements(values, sorted, SeqMax(values));
    SameElements(values, sorted, sorted[0]);
    SameElements(values, sorted, sorted[n - 1]);
    var a :| 0 <= a < n && sorted[a] == SeqMin(values);
    var b :| 0 <= b < n && sorted[b] == SeqMax(values);
    assert RealLe(sorted[0], sorted[a]);
    assert RealLe(sorted[b], sorted[n - 1]);
  }

  /**
   * The statistics of one station's readings, each rounded to 4 decimals;
   * `sqrt` is the square root the platform supplies.
   */
  function StationStat(station: string, values: seq<real>, sqrt: real -> real): (st: Stat)
    requires |values| > 0
    ensures st.station == station && st.count == |values|
    ensures st.min == ToFixed(SeqMin(values), 4) && st.max == ToFixed(SeqMax(values), 4)
    ensures st.promedio == ToFixed(Mean(values), 4)
    ensures st.min <= st.q1 <= st.mediana <= st.q3 <= st.max
    ensures st.min <= st.promedio <= st.max
    ensures st.desviacion == ToFixed(sqrt(Variance(values)), 4)
    ensures st.errorNeg == st.desviacion && st.errorPos == st.desviacion
  {
    RealLeTotalPreorder();
    var sorted := Sort(values, RealLe);
    var n := |sorted|;
    SortedExtremes(values, sorted);
    QuartileChain(sorted);
    var promedio := Mean(values);
    var desviacion := sqrt(Variance(values));
    var min, max := sorted[0], sorted[n - 1];
    var mediana := Median(sorted);
    var q1, q3 := sorted[n / 4], sorted[(3 * n) / 4];
    OrderedRounding(min, q1, mediana, q3, max);
    MeanBetweenExtremes(values);
    ToFixedMonotone(min, promedio, 4);
    ToFixedMonotone(promedio, max, 4);
    var d := ToFixed(desviacion, 4);
    Stat(station, ToFixed(promedio, 4), d, ToFixed(min, 4), ToFixed(max, 4),
         ToFixed(q1, 4), ToFixed(mediana, 4), ToFixed(q3, 4), n, d, d)
  }

  /** Rounding to 4 decimals keeps five ordered values ordered. */
  lemma OrderedRounding(a: real, b: real, c: real, d: real, e: real)
    requires a <= b <= c <= d <= e
    ensures ToFixed(a, 4) <= ToFixed(b, 4) <= ToFixed(c, 4) <= ToFixed(d, 4) <= ToFixed(e, 4)
  {
    ToFixedMonotone(a, b, 4);
    ToFixedMonotone(b, c, 4);
    ToFixedMonotone(c, d, 4);
    ToFixedMonotone(d, e, 4);
  }

  /** A station's row before the empty ones are dropped. */
  function StationRow(data: seq<Record>, p: string, station: string, sqrt: real -> real): Stat
  {
    var values := Samples(data, station, p);
    if |values| == 0 then ZeroStat(station) else StationStat(station, values, sqrt)
  }

  /** The rows of the stations `sts`, in that order. */
  function StationRows(data: seq<Record>, p: string, sts: seq<string>, sqrt: real -> real): (r: seq<Stat>)
    ensures |r| == |sts|
    ensures forall i :: 0 <= i < |sts| ==> r[i].station == sts[i]
  {
    if sts == [] then [] else StationRows(data, p, sts[..|sts| - 1], sqrt) + [StationRow(data, p, sts[|sts| - 1], sqrt)]
  }

  /** The same rows computed from the dictionary of readings. */
  function TableRows(table: map<string, seq<real>>, sts: seq<string>, sqrt: real -> real): seq<Stat>
  {
    if sts == [] then []
    else
      var station := sts[|sts| - 1];
      var values := if station in table then table[station] else [];
      TableRows(table, sts[..|sts| - 1], sqrt) + [if |values| == 0 then ZeroStat(station) else StationStat(station, values, sqrt)]
  }

  /** The rows with at least one reading, in order. */
  function Counted(stats: seq<Stat>): seq<Stat>
  {
    if stats == [] then []
    else Counted(stats[..|stats| - 1]) + (if stats[|stats| - 1].count > 0 then [stats[|stats| - 1]] else [])
  }

  /** The chart rows for parameter `p`: one per station with a reading, in station order. */
  function StatsData(data: seq<Record>, p: string, sqrt: real -> real): seq<Stat>
  {
    Counted(StationRows(data, p, SortedStations(data), sqrt))
  }

  /** The statistics computed from the dictionary that `CollectSamples` fills. */
  method ComputeStats(data: seq<Record>, p: string, sqrt: real -> real) returns (result: seq<Stat>)
    ensures result == StatsData(data, p, sqrt)
  {
    var stationStats := CollectSamples(data, p);
    var stations := SortedStations(data);
    TableRowsAgree(stationStats, data, p, stations, sqrt);
    result := Counted(TableRows(stationStats, stations, sqrt));
  }

  lemma {:induction false} TableRowsAgree(table: map<string, seq<real>>, data: seq<Record>, p: string, sts: seq<string>, sqrt: real -> real)
    requires forall s :: s in table <==> |Samples(data, s, p)| > 0
    requires forall s :: s in table ==> table[s] == Samples(data, s, p)
    ensures TableRows(table, sts, sqrt) == StationRows(data, p, sts, sqrt)
    decreases |sts|
  {
    if sts != [] {
      TableRowsAgree(table, data, p, sts[..|sts| - 1], sqrt);
    }
  }

  lemma {:induction false} CountedMembers(stats: seq<Stat>, st: Stat)
    ensures st in Counted(stats) <==> st in stats && st.count > 0
    decreases |stats|
  {
    if stats != [] {
      var front := stats[..|stats| - 1];
      CountedMembers(front, st);
      assert stats == front + [stats[|stats| - 1]];
    }
  }

  /** Rows in strictly increasing station order. */
  predicate StationsAscending(stats: seq<Stat>)
  {
    forall i, j :: 0 <= i < j < |stats| ==> Below(stats[i].station, stats[j].station)
  }

  lemma {:induction false} CountedAscending(stats: seq<Stat>)
    requires StationsAscending(stats)
    ensures StationsAscending(Counted(stats))
    decreases |stats|
  {
    if stats != [] {
      var front := stats[..|stats| - 1];
      var last := stats[|stats| - 1];
      CountedAscending(front);
      if last.count > 0 {
        var r := Counted(stats);
        forall i | 0 <= i < |r| - 1 ensures Below(r[i].station, last.station) {
          CountedMembers(front, r[i]);
          var k :| 0 <= k < |front| && front[k] == r[i];
        }
      }
    }
  }

  /**
   * A row exists exactly for each station with at least one reading of `p`,
   * holding the statistics of exactly those readings; the rows follow the
   * sorted station order, and in every row the five-number summary is ordered
   * and the mean lies between minimum and maximum.
   */
  lemma StatsDataExact(data: seq<Record>, p: string, sqrt: real -> real)
    ensures forall st :: st in StatsData(data, p, sqrt) <==>
      (exists i :: 0 <= i < |data| && data[i].station == st.station) &&
      |Samples(data, st.station, p)| > 0 && st == StationStat(st.station, Samples(data, st.station, p), sqrt)
    ensures StationsAscending(StatsData(data, p, sqrt))
    ensures forall st :: st in StatsData(data, p, sqrt) ==>
      st.count > 0 && st.min <= st.q1 <= st.mediana <= st.q3 <= st.max && st.min <= st.promedio <= st.max
  {
    forall st ensures st in StatsData(data, p, sqrt) <==>
      (exists i :: 0 <= i < |data| && data[i].station == st.station) &&
      |Samples(data, st.station, p)| > 0 && st == StationStat(st.station, Samples(data, st.station, p), sqrt)
    {
      StatsMember(data, p, sqrt, st);
    }
    StatsAscending(data, p, sqrt);
  }

  lemma StatsAscending(data: seq<Record>, p: string, sqrt: real -> real)
    ensures StationsAscending(StatsData(data, p, sqrt))
  {
    var sts := SortedStations(data);
    var rows := StationRows(data, p, sts, sqrt);
    assert StationsAscending(rows);
    CountedAscending(rows);
  }

  lemma StatsMember(data: seq<Record>, p: string, sqrt: real -> real, st: Stat)
    ensures st in StatsData(data, p, sqrt) <==>
      (exists i :: 0 <= i < |data| && data[i].station == st.station) &&
      |Samples(data, st.station, p)| > 0 && st == StationStat(st.station, Samples(data, st.station, p), sqrt)
  {
    RowsMember(data, p, sqrt, SortedStations(data), st);
  }

  lemma RowsMember(data: seq<Record>, p: string, sqrt: real -> real, sts: seq<string>, st: Stat)
    ensures st in Counted(StationRows(data, p, sts, sqrt)) <==>
      st.station in sts && |Samples(data, st.station, p)| > 0 && st == StationStat(st.station, Samples(data, st.station, p), sqrt)
  {
    var rows := StationRows(data, p, sts, sqrt);
    CountedMembers(rows, st);
    if st in rows {
      var k :| 0 <= k < |rows| && rows[k] == st;
      RowAt(data, p, sts, sqrt, k);
    }
    if st.station in sts && |Samples(data, st.station, p)| > 0 && st == StationStat(st.station, Samples(data, st.station, p), sqrt) {
      var k :| 0 <= k < |sts| && sts[k] == st.station;
      RowAt(data, p, sts, sqrt, k);
    }
  }

  lemma {:induction false} RowAt(data: seq<Record>, p: string, sts: seq<string>, sqrt: real -> real, k: nat)
    requires k < |sts|
    ensures StationRows(data, p, sts, sqrt)[k] == StationRow(data, p, sts[k], sqrt)
    decreases |sts|
  {
    if k < |sts| - 1 {
      RowAt(data, p, sts[..|sts| - 1], sqrt, k);
    }
  }

  /** One bar of the box plot, stacked from `base`. */
  datatype BoxRow = BoxRow(station: string, rangoInferior: real, cajaInferior: real, base: real,
                           cajaSuperior: real, rangoSuperior: real,
                           min: real, q1: real, mediana: real, q3: real, max: real, promedio: real)

  function BoxOf(st: Stat): BoxRow
  {
    BoxRow(st.station, st.q1 - st.min, st.mediana - st.q1, st.min, st.q3 - st.mediana, st.max - st.q3,
           st.min, st.q1, st.mediana, st.q3, st.max, st.promedio)
  }

  function BoxPlotData(stats: seq<Stat>): seq<BoxRow>
  {
    seq(|stats|, i requires 0 <= i < |stats| => BoxOf(stats[i]))
  }

  /**
   * Every box starts at the minimum, its four segments are non-negative and
   * together span exactly from minimum to maximum.
   */
  lemma BoxPlotSegments(data: seq<Record>, p: string, sqrt: real -> real)
    ensures forall b :: b in BoxPlotData(StatsData(data, p, sqrt)) ==>
      b.base == b.min &&
      b.rangoInferior >= 0.0 && b.cajaInferior >= 0.0 && b.cajaSuperior >= 0.0 && b.rangoSuperior >= 0.0 &&
      b.rangoInferior + b.cajaInferior + b.cajaSuperior + b.rangoSuperior == b.max - b.min
  {
    var stats := StatsData(data, p, sqrt);
    StatsDataExact(data, p, sqrt);
    forall b | b in BoxPlotData(stats)
      ensures b.base == b.min && b.rangoInferior >= 0.0 && b.cajaInferior >= 0.0 && b.cajaSuperior >= 0.0 && b.rangoSuperior >= 0.0
      ensures b.rangoInferior + b.cajaInferior + b.cajaSuperior + b.rangoSuperior == b.max - b.min
    {
      var i :| 0 <= i < |stats| && BoxPlotData(stats)[i] == b;
      assert stats[i] in stats;
    }
  }

  // ---------------------------------------------------------------------
  // The order of the readings does not matter

  /** Two ascending arrangements of the same readings are the same sequence. */
  lemma {:induction false} SortedUnique(a: seq<real>, b: seq<real>)
    requires multiset(a) == multiset(b)
    requires SortedBy(a, RealLe) && SortedBy(b, RealLe)
    ensures a == b
    decreases |a|
  {
    assert |a| == |multiset(a)| == |multiset(b)| == |b|;
    if a != [] {
      SortedHeads(a, b);
      DropHead(a, b);
      SortedUnique(a[1..], b[1..]);
      assert a == [a[0]] + a[1..] && b == [b[0]] + b[1..];
    }
  }

  lemma SortedHeads(a: seq<real>, b: seq<real>)
    requires |a| > 0 && |b| > 0 && multiset(a) == multiset(b)
    requires SortedBy(a, RealLe) && SortedBy(b, RealLe)
    ensures a[0] == b[0]
  {
    assert a[0] in multiset(b) && b[0] in multiset(a);
    var i :| 0 <= i < |a| && a[i] == b[0];
    var j :| 0 <= j < |b| && b[j] == a[0];
    assert RealLe(a[0], a[i]) || i == 0;
    assert RealLe(b[0], b[j]) || j == 0;
  }

  lemma DropHead<T>(a: seq<T>, b: seq<T>)
    requires |a| > 0 && |b| > 0 && a[0] == b[0] && multiset(a) == multiset(b)
    ensures multiset(a[1..]) == multiset(b[1..])
  {
    assert a == [a[0]] + a[1..] && b == [b[0]] + b[1..];
    assert multiset(a) == multiset{a[0]} + multiset(a[1..]);
    assert multiset(b) == multiset{a[0]} + multiset(b[1..]);
    forall y ensures multiset(a[1..])[y] == multiset(b[1..])[y] {
      assert (multiset{a[0]} + multiset(a[1..]))[y] == (multiset{a[0]} + multiset(b[1..]))[y];
    }
  }

  /** The quartiles are read off the ascending copy at floor(n/4), the middle and floor(3n/4). */
  lemma StationStatQuartiles(station: string, values: seq<real>, sqrt: real -> real)
    requires |values| > 0
    ensures var sorted := Sort(values, RealLe); var st := StationStat(station, values, sqrt);
      st.q1 == ToFixed(sorted[|values| / 4], 4) && st.mediana == ToFixed(Median(sorted), 4) &&
      st.q3 == ToFixed(sorted[(3 * |values|) / 4], 4)
  {
  }

  /** Reordering a station's readings changes none of its order statistics. */
  lemma OrderStatisticsIgnoreOrder(station: string, a: seq<real>, b: seq<real>, sqrt: real -> real)
    requires |a| > 0 && multiset(a) == multiset(b)
    ensures |b| == |a|
    ensures var x, y := StationStat(station, a, sqrt), StationStat(station, b, sqrt);
      x.count == y.count && x.min == y.min && x.q1 == y.q1 && x.mediana == y.mediana && x.q3 == y.q3 && x.max == y.max
  {
    assert |a| == |multiset(a)| == |multiset(b)| == |b|;
    RealLeTotalPreorder();
    SortedUnique(Sort(a, RealLe), Sort(b, RealLe));
    SortedExtremes(a, Sort(a, RealLe));
    SortedExtremes(b, Sort(b, RealLe));
    StationStatQuartiles(station, a, sqrt);
    StationStatQuartiles(station, b, sqrt);
  }

  // ---------------------------------------------------------------------
  // Worked examples

  lemma SumSnoc(xs: seq<real>, x: real, m: real)
    ensures Sum(xs + [x]) == Sum(xs) + x
    ensures SquaredDeviations(xs + [x], m) == SquaredDeviations(xs, m) + (x - m) * (x - m)
  {
    assert (xs + [x])[..|xs|] == xs;
  }

  /** Readings 2, 4, 4, 4, 5, 5, 7, 9: mean 5 and population variance 4 (dividing by n, not n - 1). */
  lemma VarianceExample()
    ensures Mean([2.0, 4.0, 4.0, 4.0, 5.0, 5.0, 7.0, 9.0]) == 5.0
    ensures Variance([2.0, 4.0, 4.0, 4.0, 5.0, 5.0, 7.0, 9.0]) == 4.0
  {
    var s1 := [2.0];
    SumSnoc([], 2.0, 5.0);
    assert Sum(s1) == 2.0 && SquaredDeviations(s1, 5.0) == 9.0;
    var s2 := s1 + [4.0];
    SumSnoc(s1, 4.0, 5.0);
    assert Sum(s2) == 6.0 && SquaredDeviations(s2, 5.0) == 10.0;
    var s3 := s2 + [4.0];
    SumSnoc(s2, 4.0, 5.0);
    assert Sum(s3) == 10.0 && SquaredDeviations(s3, 5.0) == 11.0;
    var s4 := s3 + [4.0];
    SumSnoc(s3, 4.0, 5.0);
    assert Sum(s4) == 14.0 && SquaredDeviations(s4, 5.0) == 12.0;
    var s5 := s4 + [5.0];
    SumSnoc(s4, 5.0, 5.0);
    assert Sum(s5) == 19.0 && SquaredDeviations(s5, 5.0) == 12.0;
    var s6 := s5 + [5.0];
    SumSnoc(s5, 5.0, 5.0);
    assert Sum(s6) == 24.0 && SquaredDeviations(s6, 5.0) == 12.0;
    var s7 := s6 + [7.0];
    SumSnoc(s6, 7.0, 5.0);
    assert Sum(s7) == 31.0 && SquaredDeviations(s7, 5.0) == 16.0;
    var s8 := s7 + [9.0];
    SumSnoc(s7, 9.0, 5.0);
    assert Sum(s8) == 40.0 && SquaredDeviations(s8, 5.0) == 32.0;
    assert s8 == [2.0, 4.0, 4.0, 4.0, 5.0, 5.0, 7.0, 9.0];
  }

  lemma EightSorted()
    ensures SortedBy([1.0, 2.0, 3.0, 4.0, 5.0, 6.0, 7.0, 8.0], RealLe)
  {
  }

  /** Any arrangement of the readings 1 to 8 sorts to 1, 2, ..., 8. */
  lemma SortEight(values: seq<real>)
    requires multiset(values) == multiset([1.0, 2.0, 3.0, 4.0, 5.0, 6.0, 7.0, 8.0])
    ensures Sort(values, RealLe) == [1.0, 2.0, 3.0, 4.0, 5.0, 6.0, 7.0, 8.0]
  {
    RealLeTotalPreorder();
    EightSorted();
    SortedUnique(Sort(values, RealLe), [1.0, 2.0, 3.0, 4.0, 5.0, 6.0, 7.0, 8.0]);
  }

  /** A value with at most four decimals survives toFixed(4) unchanged. */
  lemma FourDecimals(k: nat)
    ensures ToFixed(k as real / 10000.0, 4) == k as real / 10000.0
  {
    var x := k as real / 10000.0;
    assert Pow10(4) == 10000.0;
    assert x * 10000.0 == k as real;
    FloorBounds(x * 10000.0 + 0.5);
    assert FixedUnits(x, 4) == k;
  }

  /**
   * The readings 1 to 8, in any order: minimum 1, first quartile 3 (index
   * floor(8 * 0.25) = 2, no interpolation), median 4.5 (mean of the two
   * middle readings), third quartile 7 (index 6), maximum 8.
   */
  lemma QuartileExample(station: string, values: seq<real>, sqrt: real -> real)
    requires |values| == 8 && multiset(values) == multiset([1.0, 2.0, 3.0, 4.0, 5.0, 6.0, 7.0, 8.0])
    ensures var st := StationStat(station, values, sqrt);
      st.min == 1.0 && st.q1 == 3.0 && st.mediana == 4.5 && st.q3 == 7.0 && st.max == 8.0
  {
    SortEight(values);
    SortedEightStat(station, values, sqrt);
  }

  lemma EightOrderStatistics(sorted: seq<real>)
    requires sorted == [1.0, 2.0, 3.0, 4.0, 5.0, 6.0, 7.0, 8.0]
    ensures sorted[0] == 1.0 && sorted[2] == 3.0 && Median(sorted) == 4.5 && sorted[6] == 7.0 && sorted[7] == 8.0
  {
  }

  lemma SortedEightStat(station: string, values: seq<real>, sqrt: real -> real)
    requires |values| == 8 && Sort(values, RealLe) == [1.0, 2.0, 3.0, 4.0, 5.0, 6.0, 7.0, 8.0]
    ensures var st := StationStat(station, values, sqrt);
      st.min == 1.0 && st.q1 == 3.0 && st.mediana == 4.5 && st.q3 == 7.0 && st.max == 8.0
  {
    RealLeTotalPreorder();
    var sorted := Sort(values, RealLe);
    assert |values| / 4 == 2 && (3 * |values|) / 4 == 6;
    EightOrderStatistics(sorted);
    SortedExtremes(values, sorted);
    StationStatQuartiles(station, values, sqrt);
    FourDecimals(10000);
    FourDecimals(30000);
    FourDecimals(45000);
    FourDecimals(70000);
    FourDecimals(80000);
  }
}
