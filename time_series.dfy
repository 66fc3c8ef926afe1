/**
 * Time-series validation, station by station over the station's rows in
 * time order: a run of more than three equal readings of a pollutant
 * becomes DS; an hour whose (NO + NO2) / NOX ratio leaves [0.85, 1.15]
 * has NO, NO2 and NOX set to IO; an hour whose PM2.5 / PM10 ratio exceeds
 * 1.15 has both set to IO. The ratio rules read the readings from before
 * the DS pass, so IO overrides DS.
 */
module TimeSeries {
  import opened Strings
  import opened Cells
  import opened Config

  /** Positions a (inclusive) to b (exclusive) all hold the same cell. */
  predicate ConstantRun(cs: seq<Cell>, a: int, b: int)
  {
    0 <= a < b <= |cs| && forall j :: a <= j < b ==> cs[j] == cs[a]
  }

  /** Position k holds a reading that lies in a run of more than three equal readings. */
  predicate InLongRun(cs: seq<Cell>, k: int)
  {
    0 <= k < |cs| && cs[k].Num? && exists a, b :: 0 <= a <= k < b <= |cs| && b - a > 3 && ConstantRun(cs, a, b)
  }

  /**
   * Inside a maximal group of consecutive equal readings (or a single
   * non-reading), a position is in a long run exactly when the group is a
   * group of readings longer than three. In particular a group of at most
   * three readings is never marked.
   */
  lemma RunDecides(cs: seq<Cell>, i: int, j: int, k: int)
    requires ConstantRun(cs, i, j) && i <= k < j
    requires i == 0 || !cs[i - 1].Num? || cs[i] != cs[i - 1]
    requires j == |cs| || !cs[i].Num? || cs[j] != cs[i]
    requires !cs[i].Num? ==> j == i + 1
    ensures InLongRun(cs, k) <==> cs[i].Num? && j - i > 3
  {
    if InLongRun(cs, k) {
      var a, b :| 0 <= a <= k < b <= |cs| && b - a > 3 && ConstantRun(cs, a, b);
      assert cs[k] == cs[i] && cs[k] == cs[a];
      assert i <= a;
      assert b <= j;
    }
    if cs[i].Num? && j - i > 3 {
      assert cs[k] == cs[i];
      assert ConstantRun(cs, i, j);
    }
  }

  /** A long run is marked as a whole: the equal neighbour of a marked reading is marked too. */
  lemma LongRunSpreads(cs: seq<Cell>, k: int, m: int)
    requires InLongRun(cs, k)
    requires 0 <= m < |cs| && (m == k + 1 || m == k - 1) && cs[m] == cs[k]
    ensures InLongRun(cs, m)
  {
    var a, b :| 0 <= a <= k < b <= |cs| && b - a > 3 && ConstantRun(cs, a, b);
    if m == b {
      assert ConstantRun(cs, a, b + 1);
    } else if m == a - 1 {
      assert ConstantRun(cs, a - 1, b);
    } else {
      assert a <= m < b;
    }
  }

  /** Four equal readings in a row are all marked; three are not. */
  lemma RunExamples()
    ensures forall k :: 0 <= k < 4 ==> InLongRun([Num(1.0), Num(1.0), Num(1.0), Num(1.0)], k)
    ensures forall k :: 0 <= k < 3 ==> !InLongRun([Num(1.0), Num(1.0), Num(1.0)], k)
  {
    var four := [Num(1.0), Num(1.0), Num(1.0), Num(1.0)];
    assert ConstantRun(four, 0, 4);
    forall k | 0 <= k < 3 ensures !InLongRun([Num(1.0), Num(1.0), Num(1.0)], k) {
      RunDecides([Num(1.0), Num(1.0), Num(1.0)], 0, 3, k);
    }
  }

  /**
   * Splits the column into maximal groups of consecutive equal readings,
   * every non-reading a group of its own, and marks the groups longer
   * than three.
   */
  method LongRunMarks(cs: seq<Cell>) returns (marks: seq<bool>)
    ensures |marks| == |cs|
    ensures forall k :: 0 <= k < |cs| ==> (marks[k] <==> InLongRun(cs, k))
  {
    marks := [];
    var i := 0;
    while i < |cs|
      invariant 0 <= i <= |cs| && |marks| == i
      invariant forall k :: 0 <= k < i ==> (marks[k] <==> InLongRun(cs, k))
      invariant 0 < i < |cs| && cs[i - 1].Num? ==> cs[i] != cs[i - 1]
    {
      var j := i + 1;
      while j < |cs| && cs[i].Num? && cs[j] == cs[i]
        invariant i < j <= |cs|
        invariant forall m :: i <= m < j ==> cs[m] == cs[i]
        invariant !cs[i].Num? ==> j == i + 1
      {
        j := j + 1;
      }
      var mark := cs[i].Num? && j - i > 3;
      forall k | i <= k < j ensures InLongRun(cs, k) <==> mark {
        RunDecides(cs, i, j, k);
      }
      marks := marks + seq(j - i, _ => mark);
      i := j;
    }
  }

  /** The cells of parameter `p` down a station's rows. */
  function Column(recs: seq<Record>, p: string): (cs: seq<Cell>)
    ensures |cs| == |recs|
    ensures forall k :: 0 <= k < |recs| ==> cs[k] == Get(recs[k], p)
  {
    seq(|recs|, k requires 0 <= k < |recs| => Get(recs[k], p))
  }

  /** The two ratio checks. */
  datatype Ratio = NoxRatio | PmRatio

  function RatioParams(rule: Ratio): seq<string>
  {
    match rule
    case NoxRatio => ["NO", "NO2", "NOX"]
    case PmRatio => ["PM2.5", "PM10"]
  }

  /** The hour's readings are all present, the denominator is not zero, and the ratio is out of bounds. */
  predicate RatioBad(rule: Ratio, r: Record)
  {
    match rule
    case NoxRatio =>
      var no, no2, nox := Get(r, "NO"), Get(r, "NO2"), Get(r, "NOX");
      no.Num? && no2.Num? && nox.Num? && nox.r != 0.0 &&
      ((no.r + no2.r) / nox.r < 0.85 || (no.r + no2.r) / nox.r > 1.15)
    case PmRatio =>
      var pm25, pm10 := Get(r, "PM2.5"), Get(r, "PM10");
      pm25.Num? && pm10.Num? && pm10.r != 0.0 && pm25.r / pm10.r > 1.15
  }

  /** A ratio check only fires on hours where every parameter it invalidates holds a reading. */
  lemma RatioBadNumeric(rule: Ratio, r: Record, q: string)
    requires RatioBad(rule, r) && q in RatioParams(rule)
    ensures Get(r, q).Num?
  {
  }

  /** Division-free form of the NOX check for a positive NOX reading. */
  lemma NoxRatioBounds(no: real, no2: real, nox: real)
    requires nox > 0.0
    ensures ((no + no2) / nox < 0.85 || (no + no2) / nox > 1.15) <==> (no + no2 < 0.85 * nox || no + no2 > 1.15 * nox)
  {
    var q := (no + no2) / nox;
    assert q * nox == no + no2;
    if q < 0.85 {
      assert q * nox < 0.85 * nox;
    } else {
      assert q * nox >= 0.85 * nox;
    }
    if q > 1.15 {
      assert q * nox > 1.15 * nox;
    } else {
      assert q * nox <= 1.15 * nox;
    }
  }

  /** Division-free form of the PM check for a positive PM10 reading. */
  lemma PmRatioBounds(pm25: real, pm10: real)
    requires pm10 > 0.0
    ensures pm25 / pm10 > 1.15 <==> pm25 > 1.15 * pm10
  {
    var q := pm25 / pm10;
    assert q * pm10 == pm25;
    if q > 1.15 {
      assert q * pm10 > 1.15 * pm10;
    } else {
      assert q * pm10 <= 1.15 * pm10;
    }
  }

  /** The ratio check `rule` applies to `p` in this hour: all its columns exist and the hour is out of bounds. */
  predicate RatioApplies(cols: seq<string>, rule: Ratio, r: Record, p: string)
  {
    p in RatioParams(rule) && (forall q :: q in RatioParams(rule) ==> q in cols) && RatioBad(rule, r)
  }

  /** The cell of parameter `p` at position `k` of one station's rows after the time-series rules. */
  function StationCell(cols: seq<string>, recs: seq<Record>, k: int, p: string): (d: Cell)
    requires 0 <= k < |recs|
    ensures d != Get(recs[k], p) ==> Get(recs[k], p).Num? && (d == Text("IO") || d == Text("DS"))
    ensures d == Text("DS") && Get(recs[k], p).Num? ==> p in RunParams && InLongRun(Column(recs, p), k)
  {
    if RatioApplies(cols, NoxRatio, recs[k], p) then
      RatioBadNumeric(NoxRatio, recs[k], p);
      Text("IO")
    else if RatioApplies(cols, PmRatio, recs[k], p) then
      RatioBadNumeric(PmRatio, recs[k], p);
      Text("IO")
    else if p in RunParams && p in cols && InLongRun(Column(recs, p), k) then Text("DS")
    else Get(recs[k], p)
  }

  /** Writes `c` into the cell of `q` of every row `k` with `hit[k]`; those cells hold readings. */
  method Overwrite(recs: seq<Record>, out: seq<Record>, q: string, hit: seq<bool>, c: Cell) returns (res: seq<Record>)
    requires |out| == |recs| == |hit|
    requires forall k :: 0 <= k < |recs| ==> SameShape(out[k], recs[k])
    requires forall k :: 0 <= k < |recs| && hit[k] ==> Get(recs[k], q).Num?
    ensures |res| == |recs|
    ensures forall k :: 0 <= k < |recs| ==> SameShape(res[k], recs[k])
    ensures forall k, r :: 0 <= k < |recs| ==> Get(res[k], r) == if r == q && hit[k] then c else Get(out[k], r)
  {
    res := out;
    for k := 0 to |recs|
      invariant |res| == |recs|
      invariant forall j :: 0 <= j < |recs| ==> SameShape(res[j], recs[j])
      invariant forall j, r :: 0 <= j < k ==> Get(res[j], r) == if r == q && hit[j] then c else Get(out[j], r)
      invariant forall j :: k <= j < |recs| ==> res[j] == out[j]
    {
      if hit[k] {
        res := res[k := SetCell(out[k], q, c)];
      }
    }
  }

  /** Sets every parameter of ratio check `rule` to IO in the hours the check rejects. */
  method MarkRatio(cols: seq<string>, recs: seq<Record>, out: seq<Record>, rule: Ratio) returns (res: seq<Record>)
    requires |out| == |recs|
    requires forall k :: 0 <= k < |recs| ==> SameShape(out[k], recs[k])
    ensures |res| == |recs|
    ensures forall k :: 0 <= k < |recs| ==> SameShape(res[k], recs[k])
    ensures forall k, r :: 0 <= k < |recs| ==>
      Get(res[k], r) == if RatioApplies(cols, rule, recs[k], r) then Text("IO") else Get(out[k], r)
  {
    res := out;
    var ps := RatioParams(rule);
    if forall q :: q in ps ==> q in cols {
      var bad := seq(|recs|, k requires 0 <= k < |recs| => RatioBad(rule, recs[k]));
      for t := 0 to |ps|
        invariant |res| == |recs|
        invariant forall k :: 0 <= k < |recs| ==> SameShape(res[k], recs[k])
        invariant forall k, r :: 0 <= k < |recs| ==>
          Get(res[k], r) == if r in ps[..t] && bad[k] then Text("IO") else Get(out[k], r)
      {
        assert ps[..t + 1] == ps[..t] + [ps[t]];
        forall k | 0 <= k < |recs| && bad[k] ensures Get(recs[k], ps[t]).Num? {
          RatioBadNumeric(rule, recs[k], ps[t]);
        }
        var before := res;
        res := Overwrite(recs, res, ps[t], bad, Text("IO"));
        forall k, r | 0 <= k < |recs|
          ensures Get(res[k], r) == if r in ps[..t + 1] && bad[k] then Text("IO") else Get(out[k], r)
        {
          assert Get(res[k], r) == if r == ps[t] && bad[k] then Text("IO") else Get(before[k], r);
          assert r in ps[..t + 1] <==> r in ps[..t] || r == ps[t];
        }
      }
      assert ps[..|ps|] == ps;
      forall k, r | 0 <= k < |recs|
        ensures Get(res[k], r) == if RatioApplies(cols, rule, recs[k], r) then Text("IO") else Get(out[k], r)
      {
        assert bad[k] == RatioBad(rule, recs[k]);
        assert Get(res[k], r) == if r in ps[..|ps|] && bad[k] then Text("IO") else Get(out[k], r);
        assert RatioApplies(cols, rule, recs[k], r) <==> r in ps && bad[k];
      }
    }
  }

  /** The time-series rules over one station's rows in time order. */
  method ValidateStation(cols: seq<string>, recs: seq<Record>) returns (out: seq<Record>)
    ensures |out| == |recs|
    ensures forall k :: 0 <= k < |recs| ==> SameShape(out[k], recs[k])
    ensures forall k, p :: 0 <= k < |recs| ==> Get(out[k], p) == StationCell(cols, recs, k, p)
  {
    out := recs;
    for t := 0 to |RunParams|
      invariant |out| == |recs|
      invariant forall k :: 0 <= k < |recs| ==> SameShape(out[k], recs[k])
      invariant forall k, p :: 0 <= k < |recs| ==>
        Get(out[k], p) == if p in RunParams[..t] && p in cols && InLongRun(Column(recs, p), k) then Text("DS") else Get(recs[k], p)
    {
      var p := RunParams[t];
      assert RunParams[..t + 1] == RunParams[..t] + [p];
      if p in cols {
        var marks := LongRunMarks(Column(recs, p));
        out := Overwrite(recs, out, p, marks, Text("DS"));
      }
    }
    assert RunParams[..|RunParams|] == RunParams;
    out := MarkRatio(cols, recs, out, NoxRatio);
    out := MarkRatio(cols, recs, out, PmRatio);
  }

  /** The positions in `sts` that hold station `s`, in increasing order. */
  function IndicesOf(sts: seq<string>, s: string): (idx: seq<int>)
    ensures forall j :: 0 <= j < |idx| ==> 0 <= idx[j] < |sts| && sts[idx[j]] == s
    ensures forall a, b :: 0 <= a < b < |idx| ==> idx[a] < idx[b]
  {
    if sts == [] then []
    else
      var n := |sts| - 1;
      var front := IndicesOf(sts[..n], s);
      front + (if sts[n] == s then [n] else [])
  }

  /** The indices of a prefix are a prefix of the indices. */
  lemma {:induction false} IndicesPrefix(sts: seq<string>, s: string, m: int)
    requires 0 <= m <= |sts|
    ensures |IndicesOf(sts[..m], s)| <= |IndicesOf(sts, s)|
    ensures IndicesOf(sts, s)[..|IndicesOf(sts[..m], s)|] == IndicesOf(sts[..m], s)
    decreases |sts|
  {
    if m < |sts| {
      var n := |sts| - 1;
      assert sts[..n][..m] == sts[..m];
      IndicesPrefix(sts[..n], s, m);
    } else {
      assert sts[..m] == sts;
    }
  }

  /** The position of row `i` among the rows of its station. */
  function Rank(sts: seq<string>, i: int): int
    requires 0 <= i < |sts|
  {
    |IndicesOf(sts[..i], sts[i])|
  }

  lemma RankIndex(sts: seq<string>, i: int)
    requires 0 <= i < |sts|
    ensures Rank(sts, i) < |IndicesOf(sts, sts[i])|
    ensures IndicesOf(sts, sts[i])[Rank(sts, i)] == i
  {
    var s := sts[i];
    assert sts[..i + 1][..i] == sts[..i];
    assert IndicesOf(sts[..i + 1], s) == IndicesOf(sts[..i], s) + [i];
    IndicesPrefix(sts, s, i + 1);
  }

  /** The rows of station `s`, in frame order. */
  function StationRows(rows: seq<Record>, s: string): (recs: seq<Record>)
    ensures |recs| == |IndicesOf(StationsOf(rows), s)|
  {
    var idx := IndicesOf(StationsOf(rows), s);
    seq(|idx|, j requires 0 <= j < |idx| => rows[idx[j]])
  }

  /** The cell of parameter `p` in row `i` of the frame after the time-series rules. */
  function SeriesCell(f: Frame, i: int, p: string): Cell
    requires 0 <= i < |f.rows|
  {
    var sts := StationsOf(f.rows);
    RankIndex(sts, i);
    StationCell(f.columns, StationRows(f.rows, f.rows[i].station), Rank(sts, i), p)
  }

  /** The time-series rules only turn readings into IO or DS; flags and empty cells stay. */
  lemma SeriesCellRefines(f: Frame, i: int, p: string)
    requires 0 <= i < |f.rows|
    ensures SeriesCell(f, i, p) != Get(f.rows[i], p) ==>
      Get(f.rows[i], p).Num? && (SeriesCell(f, i, p) == Text("IO") || SeriesCell(f, i, p) == Text("DS"))
  {
    var sts := StationsOf(f.rows);
    RankIndex(sts, i);
    var recs := StationRows(f.rows, f.rows[i].station);
    assert recs[Rank(sts, i)] == f.rows[i];
  }

  /** The positions of station `s`, found by one pass over the rows. */
  method StationIndices(rows: seq<Record>, s: string) returns (idx: seq<int>)
    ensures idx == IndicesOf(StationsOf(rows), s)
  {
    var sts := StationsOf(rows);
    idx := [];
    for i := 0 to |rows|
      invariant idx == IndicesOf(sts[..i], s)
    {
      assert sts[..i + 1][..i] == sts[..i];
      if rows[i].station == s {
        idx := idx + [i];
      }
    }
    assert sts[..|rows|] == sts;
  }

  /** Writes `out[j]` back to row `idx[j]`; rows not listed in `idx` stay. */
  method Scatter(rows: seq<Record>, idx: seq<int>, out: seq<Record>) returns (res: seq<Record>)
    requires |idx| == |out|
    requires forall j :: 0 <= j < |idx| ==> 0 <= idx[j] < |rows|
    requires forall a, b :: 0 <= a < b < |idx| ==> idx[a] < idx[b]
    ensures |res| == |rows|
    ensures forall j :: 0 <= j < |idx| ==> res[idx[j]] == out[j]
    ensures forall i :: 0 <= i < |rows| && i !in idx ==> res[i] == rows[i]
  {
    res := rows;
    for t := 0 to |idx|
      invariant |res| == |rows|
      invariant forall j :: 0 <= j < t ==> res[idx[j]] == out[j]
      invariant forall i :: 0 <= i < |rows| && i !in idx[..t] ==> res[i] == rows[i]
    {
      assert idx[..t + 1] == idx[..t] + [idx[t]];
      res := res[idx[t] := out[t]];
    }
    assert idx[..|idx|] == idx;
  }

  /** After one more station, the processed stations include `s` and the other rows are still untouched. */
  lemma StationStep(f: Frame, before: seq<Record>, after: seq<Record>, done: seq<string>, s: string)
    requires |before| == |f.rows| && |after| == |f.rows|
    requires forall i :: 0 <= i < |f.rows| && f.rows[i].station !in done ==> before[i] == f.rows[i]
    requires forall i, p :: 0 <= i < |f.rows| && f.rows[i].station in done ==> Get(before[i], p) == SeriesCell(f, i, p)
    requires forall i :: 0 <= i < |f.rows| && f.rows[i].station != s ==> after[i] == before[i]
    requires forall i, p :: 0 <= i < |f.rows| && f.rows[i].station == s ==> Get(after[i], p) == SeriesCell(f, i, p)
    ensures forall i :: 0 <= i < |f.rows| && f.rows[i].station !in done + [s] ==> after[i] == f.rows[i]
    ensures forall i, p :: 0 <= i < |f.rows| && f.rows[i].station in done + [s] ==> Get(after[i], p) == SeriesCell(f, i, p)
  {
    forall i | 0 <= i < |f.rows|
      ensures f.rows[i].station !in done + [s] ==> after[i] == f.rows[i]
      ensures f.rows[i].station in done + [s] ==> forall p :: Get(after[i], p) == SeriesCell(f, i, p)
    {
      assert (f.rows[i].station in done + [s]) == (f.rows[i].station in done || f.rows[i].station == s);
    }
  }

  /**
   * Applies the time-series rules to each station in order of first
   * appearance, reading the station's rows as they stand before its own
   * pass; no cell outside the station's rows changes.
   */
  method ValidateSeries(f: Frame) returns (g: Frame)
    ensures g.columns == f.columns && |g.rows| == |f.rows|
    ensures forall i :: 0 <= i < |f.rows| ==> SameShape(g.rows[i], f.rows[i])
    ensures forall i, p :: 0 <= i < |f.rows| ==> Get(g.rows[i], p) == SeriesCell(f, i, p)
  {
    var stations := Unique(StationsOf(f.rows));
    var rows := f.rows;
    for t := 0 to |stations|
      invariant |rows| == |f.rows|
      invariant forall i :: 0 <= i < |f.rows| ==> SameShape(rows[i], f.rows[i])
      invariant forall i :: 0 <= i < |f.rows| && f.rows[i].station !in stations[..t] ==> rows[i] == f.rows[i]
      invariant forall i, p :: 0 <= i < |f.rows| && f.rows[i].station in stations[..t] ==>
        Get(rows[i], p) == SeriesCell(f, i, p)
    {
      var s := stations[t];
      assert stations[..t + 1] == stations[..t] + [s];
      assert s !in stations[..t];
      var before := rows;
      rows := ProcessStation(f, rows, s);
      StationStep(f, before, rows, stations[..t], s);
    }
    forall i | 0 <= i < |f.rows| ensures f.rows[i].station in stations {
      assert StationsOf(f.rows)[i] == f.rows[i].station;
    }
    assert stations[..|stations|] == stations;
    g := Frame(f.columns, rows);
  }

  /** One station's pass: gather its rows, apply the rules, write them back. */
  method ProcessStation(f: Frame, rows: seq<Record>, s: string) returns (res: seq<Record>)
    requires |rows| == |f.rows|
    requires forall i :: 0 <= i < |f.rows| ==> SameShape(rows[i], f.rows[i])
    requires forall i :: 0 <= i < |f.rows| && f.rows[i].station == s ==> rows[i] == f.rows[i]
    ensures |res| == |f.rows|
    ensures forall i :: 0 <= i < |f.rows| ==> SameShape(res[i], f.rows[i])
    ensures forall i :: 0 <= i < |f.rows| && f.rows[i].station != s ==> res[i] == rows[i]
    ensures forall i, p :: 0 <= i < |f.rows| && f.rows[i].station == s ==> Get(res[i], p) == SeriesCell(f, i, p)
  {
    assert StationsOf(rows) == StationsOf(f.rows);
    var idx := StationIndices(rows, s);
    var recs := seq(|idx|, j requires 0 <= j < |idx| => rows[idx[j]]);
    assert recs == StationRows(f.rows, s);
    var out := ValidateStation(f.columns, recs);
    res := Scatter(rows, idx, out);
    forall i | 0 <= i < |f.rows|
      ensures SameShape(res[i], f.rows[i])
      ensures f.rows[i].station != s ==> res[i] == rows[i]
      ensures f.rows[i].station == s ==> forall p :: Get(res[i], p) == SeriesCell(f, i, p)
    {
      var sts := StationsOf(f.rows);
      assert sts[i] == f.rows[i].station;
      if f.rows[i].station == s {
        RankIndex(sts, i);
        var j := Rank(sts, i);
        assert res[i] == out[j];
      } else {
        assert i !in idx;
      }
    }
  }
}
