/**
 * The flag part of the validation summary: how often each flag occurs in
 * the parameter columns, the summary table sorted by that count, and the
 * detailed table of counts per station, parameter and flag.
 */
module FlagSummary {
  import opened Strings
  import opened Cells
  import opened Sorting
  import ChartData

  /** The number of rows whose cell of `p` is `c`. */
  function CountIn(rows: seq<Record>, p: string, c: Cell): (n: nat)
    ensures n <= |rows|
  {
    if rows == [] then 0
    else CountIn(rows[..|rows| - 1], p, c) + (if Get(rows[|rows| - 1], p) == c then 1 else 0)
  }

  lemma {:induction false} CountInPositive(rows: seq<Record>, p: string, c: Cell)
    ensures CountIn(rows, p, c) > 0 <==> exists i :: 0 <= i < |rows| && Get(rows[i], p) == c
    decreases |rows|
  {
    if rows != [] {
      var front := rows[..|rows| - 1];
      CountInPositive(front, p, c);
      assert forall i :: 0 <= i < |front| ==> front[i] == rows[i];
    }
  }

  /** The occurrences of flag `code` over the columns `cols`. */
  function FlagTotal(rows: seq<Record>, cols: seq<string>, code: string): (n: nat)
    ensures n <= |rows| * |cols|
  {
    if cols == [] then 0
    else FlagTotal(rows, cols[..|cols| - 1], code) + CountIn(rows, cols[|cols| - 1], Text(code))
  }

  /** A flag is counted exactly when some parameter cell holds it. */
  lemma {:induction false} FlagTotalPositive(rows: seq<Record>, cols: seq<string>, code: string)
    ensures FlagTotal(rows, cols, code) > 0 <==>
      exists i, k :: 0 <= i < |rows| && 0 <= k < |cols| && Get(rows[i], cols[k]) == Text(code)
    decreases |cols|
  {
    if cols != [] {
      var front := cols[..|cols| - 1];
      FlagTotalPositive(rows, front, code);
      CountInPositive(rows, cols[|cols| - 1], Text(code));
      assert forall k :: 0 <= k < |front| ==> front[k] == cols[k];
    }
  }

  /** The count held for `code`, zero when it is not a key. */
  function Tally(counts: map<string, nat>, code: string): nat
  {
    if code in counts then counts[code] else 0
  }

  /**
   * Counts the flags column by column, adding each flag cell to its total;
   * only flags that occur become keys.
   */
  method CountFlags(f: Frame) returns (counts: map<string, nat>)
    ensures forall code :: code in counts <==> IsFlag(code) && FlagTotal(f.rows, f.columns, code) > 0
    ensures forall code :: code in counts ==> counts[code] == FlagTotal(f.rows, f.columns, code)
  {
    counts := map[];
    for k := 0 to |f.columns|
      invariant forall code :: IsFlag(code) ==> Tally(counts, code) == FlagTotal(f.rows, f.columns[..k], code)
      invariant forall code :: code in counts ==> IsFlag(code) && counts[code] > 0
    {
      assert f.columns[..k + 1][..k] == f.columns[..k];
      counts := CountColumn(f.rows, f.columns[k], counts);
    }
    assert f.columns[..|f.columns|] == f.columns;
  }

  /** Adds the flag cells of one column to the running totals. */
  method CountColumn(rows: seq<Record>, col: string, counts: map<string, nat>) returns (out: map<string, nat>)
    ensures forall code :: IsFlag(code) ==> Tally(out, code) == Tally(counts, code) + CountIn(rows, col, Text(code))
    ensures forall code :: code in out ==> code in counts || (IsFlag(code) && out[code] > 0)
    ensures forall code :: code in counts ==> code in out && out[code] >= counts[code]
  {
    out := counts;
    for i := 0 to |rows|
      invariant forall code :: IsFlag(code) ==> Tally(out, code) == Tally(counts, code) + CountIn(rows[..i], col, Text(code))
      invariant forall code :: code in out ==> code in counts || (IsFlag(code) && out[code] > 0)
      invariant forall code :: code in counts ==> code in out && out[code] >= counts[code]
    {
      CountInStep(rows, i, col);
      out := AddFlag(out, Get(rows[i], col));
    }
    assert rows[..|rows|] == rows;
  }

  /** Counts one cell: a flag adds one to its total, any other cell changes nothing. */
  function AddFlag(m: map<string, nat>, c: Cell): (r: map<string, nat>)
    ensures forall code :: IsFlag(code) ==> Tally(r, code) == Tally(m, code) + (if c == Text(code) then 1 else 0)
    ensures forall code :: code in r ==> code in m || (IsFlag(code) && r[code] > 0)
    ensures forall code :: code in m ==> code in r && r[code] >= m[code]
  {
    if c.Text? && IsFlag(c.s) then m[c.s := Tally(m, c.s) + 1] else m
  }

  lemma CountInStep(rows: seq<Record>, i: nat, p: string)
    requires i < |rows|
    ensures forall c :: CountIn(rows[..i + 1], p, c) == CountIn(rows[..i], p, c) + (if Get(rows[i], p) == c then 1 else 0)
  {
    assert rows[..i + 1][..i] == rows[..i];
  }

  /** A row of the summary: the flag (none for the "no flags" row), its count and its description. */
  datatype SummaryRow = SummaryRow(code: Option<string>, count: nat, description: string)

  const NoFlagsRow := SummaryRow(None, 0, "Sin banderas aplicadas")

  predicate CountGe(a: SummaryRow, b: SummaryRow)
  {
    a.count >= b.count
  }

  lemma CountGeTotalPreorder()
    ensures TotalPreorder(CountGe)
  {
  }

  /** The rows of the flags among `codes` that occur, in the order of `codes`. */
  function FoundRows(rows: seq<Record>, cols: seq<string>, codes: seq<string>): seq<SummaryRow>
  {
    if codes == [] then []
    else
      var code := codes[|codes| - 1];
      var n := FlagTotal(rows, cols, code);
      FoundRows(rows, cols, codes[..|codes| - 1]) + (if n > 0 then [SummaryRow(Some(code), n, FlagDescription(code))] else [])
  }

  lemma {:induction false} FoundRowsExact(rows: seq<Record>, cols: seq<string>, codes: seq<string>, e: SummaryRow)
    ensures e in FoundRows(rows, cols, codes) <==>
      e.code.Some? && e.code.value in codes && e.count == FlagTotal(rows, cols, e.code.value) > 0
      && e.description == FlagDescription(e.code.value)
    decreases |codes|
  {
    if codes != [] {
      var front := codes[..|codes| - 1];
      FoundRowsExact(rows, cols, front, e);
      assert codes == front + [codes[|codes| - 1]];
    }
  }

  /** The flags of the validator are listed once each. */
  lemma FlagCodesDistinct()
    ensures Distinct(FlagCodes)
  {
  }

  /** Over a duplicate-free flag list, each found flag has one row. */
  lemma {:induction false} FoundRowsDistinct(rows: seq<Record>, cols: seq<string>, codes: seq<string>)
    requires Distinct(codes)
    ensures Distinct(FoundRows(rows, cols, codes))
    decreases |codes|
  {
    if codes != [] {
      var front := codes[..|codes| - 1];
      var code := codes[|codes| - 1];
      DistinctFront(codes);
      FoundRowsDistinct(rows, cols, front);
      var n := FlagTotal(rows, cols, code);
      var last: seq<SummaryRow> := if n > 0 then [SummaryRow(Some(code), n, FlagDescription(code))] else [];
      forall x | x in FoundRows(rows, cols, front) ensures x !in last {
        FoundRowsExact(rows, cols, front, x);
      }
      DistinctAppend(FoundRows(rows, cols, front), last);
    }
  }

  /**
   * The summary table: one row per flag that occurs, with its count and
   * description, sorted by count from high to low; a frame without flags
   * gives the single "Sin banderas aplicadas" row with count 0.
   */
  function Summary(f: Frame): (r: seq<SummaryRow>)
    ensures SortedBy(r, CountGe)
    ensures r == [NoFlagsRow] <==> forall code :: IsFlag(code) ==> FlagTotal(f.rows, f.columns, code) == 0
    ensures r != [NoFlagsRow] ==> forall e :: e in r <==>
      e.code.Some? && IsFlag(e.code.value) && e.count == FlagTotal(f.rows, f.columns, e.code.value) > 0
      && e.description == FlagDescription(e.code.value)
    ensures Distinct(r)
  {
    var found := FoundRows(f.rows, f.columns, FlagCodes);
    CountGeTotalPreorder();
    if found == [] then
      forall code | IsFlag(code) ensures FlagTotal(f.rows, f.columns, code) == 0 {
        FoundRowsExact(f.rows, f.columns, FlagCodes, SummaryRow(Some(code), FlagTotal(f.rows, f.columns, code), FlagDescription(code)));
      }
      [NoFlagsRow]
    else
      var r := Sort(found, CountGe);
      forall e ensures e in r <==> e in found {
        SameElements(found, r, e);
      }
      forall e ensures e in found <==> (e.code.Some? && IsFlag(e.code.value) && e.count == FlagTotal(f.rows, f.columns, e.code.value) > 0
        && e.description == FlagDescription(e.code.value))
      {
        FoundRowsExact(f.rows, f.columns, FlagCodes, e);
      }
      assert found[0] in r;
      FlagCodesDistinct();
      FoundRowsDistinct(f.rows, f.columns, FlagCodes);
      ChartData.PermutationDistinct(found, r);
      r
  }

  /** Collects the occurring flags with their counts from the tallies, then sorts them by count. */
  method BuildSummary(f: Frame) returns (summary: seq<SummaryRow>)
    ensures summary == Summary(f)
  {
    var counts := CountFlags(f);
    var found: seq<SummaryRow> := [];
    for k := 0 to |FlagCodes|
      invariant found == FoundRows(f.rows, f.columns, FlagCodes[..k])
    {
      assert FlagCodes[..k + 1][..k] == FlagCodes[..k];
      var code := FlagCodes[k];
      if code in counts {
        found := found + [SummaryRow(Some(code), counts[code], FlagDescription(code))];
      }
    }
    assert FlagCodes[..|FlagCodes|] == FlagCodes;
    if found == [] {
      summary := [NoFlagsRow];
    } else {
      CountGeTotalPreorder();
      summary := Sort(found, CountGe);
    }
  }

  /** A row of the detailed table: station, parameter, flag, description and count. */
  datatype DetailRow = DetailRow(station: string, param: string, flag: string, description: string, count: nat)

  /** The rows of station `s` whose cell of `p` is `c`. */
  function StationCount(rows: seq<Record>, s: string, p: string, c: Cell): nat
  {
    if rows == [] then 0
    else
      var last := rows[|rows| - 1];
      StationCount(rows[..|rows| - 1], s, p, c) + (if last.station == s && Get(last, p) == c then 1 else 0)
  }

  lemma {:induction false} StationCountPositive(rows: seq<Record>, s: string, p: string, c: Cell)
    ensures StationCount(rows, s, p, c) > 0 <==> exists i :: 0 <= i < |rows| && rows[i].station == s && Get(rows[i], p) == c
    decreases |rows|
  {
    if rows != [] {
      var front := rows[..|rows| - 1];
      StationCountPositive(front, s, p, c);
      assert forall i :: 0 <= i < |front| ==> front[i] == rows[i];
    }
  }

  /** The detailed rows of station `s` and parameter `p`, for the flags `codes` that occur, in that order. */
  function DetailCodes(rows: seq<Record>, s: string, p: string, codes: seq<string>): seq<DetailRow>
  {
    if codes == [] then []
    else
      var code := codes[|codes| - 1];
      var n := StationCount(rows, s, p, Text(code));
      DetailCodes(rows, s, p, codes[..|codes| - 1]) + (if n > 0 then [DetailRow(s, p, code, FlagDescription(code), n)] else [])
  }

  function DetailParams(rows: seq<Record>, s: string, ps: seq<string>): seq<DetailRow>
  {
    if ps == [] then [] else DetailParams(rows, s, ps[..|ps| - 1]) + DetailCodes(rows, s, ps[|ps| - 1], FlagCodes)
  }

  function DetailStations(rows: seq<Record>, ss: seq<string>, ps: seq<string>): seq<DetailRow>
  {
    if ss == [] then [] else DetailStations(rows, ss[..|ss| - 1], ps) + DetailParams(rows, ss[|ss| - 1], ps)
  }

  /** Stations in order of first appearance, then parameter columns, then flags in declaration order. */
  function Detailed(f: Frame): seq<DetailRow>
  {
    DetailStations(f.rows, Unique(StationsOf(f.rows)), f.columns)
  }

  /** What a detailed row records about the frame. */
  predicate DetailFits(rows: seq<Record>, e: DetailRow)
  {
    IsFlag(e.flag) && e.description == FlagDescription(e.flag)
    && e.count == StationCount(rows, e.station, e.param, Text(e.flag)) > 0
  }

  lemma {:induction false} DetailCodesExact(rows: seq<Record>, s: string, p: string, codes: seq<string>, e: DetailRow)
    ensures e in DetailCodes(rows, s, p, codes) <==> (e.station == s && e.param == p && e.flag in codes
      && e.description == FlagDescription(e.flag) && e.count == StationCount(rows, s, p, Text(e.flag)) > 0)
    decreases |codes|
  {
    if codes != [] {
      var front := codes[..|codes| - 1];
      DetailCodesExact(rows, s, p, front, e);
      assert codes == front + [codes[|codes| - 1]];
    }
  }

  lemma {:induction false} DetailParamsExact(rows: seq<Record>, s: string, ps: seq<string>, e: DetailRow)
    ensures e in DetailParams(rows, s, ps) <==> e.station == s && e.param in ps && DetailFits(rows, e)
    decreases |ps|
  {
    if ps != [] {
      var front := ps[..|ps| - 1];
      DetailParamsExact(rows, s, front, e);
      DetailCodesExact(rows, s, ps[|ps| - 1], FlagCodes, e);
      assert ps == front + [ps[|ps| - 1]];
    }
  }

  lemma {:induction false} DetailStationsExact(rows: seq<Record>, ss: seq<string>, ps: seq<string>, e: DetailRow)
    ensures e in DetailStations(rows, ss, ps) <==> e.station in ss && e.param in ps && DetailFits(rows, e)
    decreases |ss|
  {
    if ss != [] {
      var front := ss[..|ss| - 1];
      DetailStationsExact(rows, front, ps, e);
      DetailParamsExact(rows, ss[|ss| - 1], ps, e);
      assert ss == front + [ss[|ss| - 1]];
    }
  }

  /**
   * A detailed row exists exactly for each station of the frame, parameter
   * column and flag that the station's rows hold at least once, with that
   * number of occurrences.
   */
  lemma DetailedExact(f: Frame, e: DetailRow)
    ensures e in Detailed(f) <==>
      e.param in f.columns && IsFlag(e.flag) && e.description == FlagDescription(e.flag)
      && e.count == StationCount(f.rows, e.station, e.param, Text(e.flag)) > 0
  {
    DetailStationsExact(f.rows, Unique(StationsOf(f.rows)), f.columns, e);
    StationCountPositive(f.rows, e.station, e.param, Text(e.flag));
    if StationCount(f.rows, e.station, e.param, Text(e.flag)) > 0 {
      var i :| 0 <= i < |f.rows| && f.rows[i].station == e.station && Get(f.rows[i], e.param) == Text(e.flag);
      assert StationsOf(f.rows)[i] == e.station;
    }
  }

  lemma {:induction false} DetailCodesDistinct(rows: seq<Record>, s: string, p: string, codes: seq<string>)
    requires Distinct(codes)
    ensures Distinct(DetailCodes(rows, s, p, codes))
    decreases |codes|
  {
    if codes != [] {
      var front := codes[..|codes| - 1];
      var code := codes[|codes| - 1];
      DistinctFront(codes);
      DetailCodesDistinct(rows, s, p, front);
      var n := StationCount(rows, s, p, Text(code));
      var last: seq<DetailRow> := if n > 0 then [DetailRow(s, p, code, FlagDescription(code), n)] else [];
      forall x | x in DetailCodes(rows, s, p, front) ensures x !in last {
        DetailCodesExact(rows, s, p, front, x);
      }
      DistinctAppend(DetailCodes(rows, s, p, front), last);
    }
  }

  lemma {:induction false} DetailParamsDistinct(rows: seq<Record>, s: string, ps: seq<string>)
    requires Distinct(ps)
    ensures Distinct(DetailParams(rows, s, ps))
    decreases |ps|
  {
    if ps != [] {
      var front := ps[..|ps| - 1];
      var p := ps[|ps| - 1];
      DistinctFront(ps);
      DetailParamsDistinct(rows, s, front);
      FlagCodesDistinct();
      DetailCodesDistinct(rows, s, p, FlagCodes);
      forall x | x in DetailParams(rows, s, front) ensures x !in DetailCodes(rows, s, p, FlagCodes) {
        DetailParamsExact(rows, s, front, x);
        DetailCodesExact(rows, s, p, FlagCodes, x);
      }
      DistinctAppend(DetailParams(rows, s, front), DetailCodes(rows, s, p, FlagCodes));
    }
  }

  lemma {:induction false} DetailStationsDistinct(rows: seq<Record>, ss: seq<string>, ps: seq<string>)
    requires Distinct(ss) && Distinct(ps)
    ensures Distinct(DetailStations(rows, ss, ps))
    decreases |ss|
  {
    if ss != [] {
      var front := ss[..|ss| - 1];
      var s := ss[|ss| - 1];
      DistinctFront(ss);
      DetailStationsDistinct(rows, front, ps);
      DetailParamsDistinct(rows, s, ps);
      forall x | x in DetailStations(rows, front, ps) ensures x !in DetailParams(rows, s, ps) {
        DetailStationsExact(rows, front, ps, x);
        DetailParamsExact(rows, s, ps, x);
      }
      DistinctAppend(DetailStations(rows, front, ps), DetailParams(rows, s, ps));
    }
  }

  /**
   * Over duplicate-free parameter columns, the detailed table has one row
   * per station, parameter and flag.
   */
  lemma DetailedDistinct(f: Frame)
    requires Distinct(f.columns)
    ensures Distinct(Detailed(f))
    ensures forall i, j :: 0 <= i < j < |Detailed(f)| ==>
      Detailed(f)[i].station != Detailed(f)[j].station || Detailed(f)[i].param != Detailed(f)[j].param
      || Detailed(f)[i].flag != Detailed(f)[j].flag
  {
    var r := Detailed(f);
    DetailStationsDistinct(f.rows, Unique(StationsOf(f.rows)), f.columns);
    forall i, j | 0 <= i < j < |r| ensures r[i].station != r[j].station || r[i].param != r[j].param || r[i].flag != r[j].flag {
      DetailStationsExact(f.rows, Unique(StationsOf(f.rows)), f.columns, r[i]);
      DetailStationsExact(f.rows, Unique(StationsOf(f.rows)), f.columns, r[j]);
    }
  }

  /** Counts the rows of station `s` whose cell of `p` is `c`. */
  method CountStation(rows: seq<Record>, s: string, p: string, c: Cell) returns (n: nat)
    ensures n == StationCount(rows, s, p, c)
  {
    n := 0;
    for i := 0 to |rows|
      invariant n == StationCount(rows[..i], s, p, c)
    {
      assert rows[..i + 1][..i] == rows[..i];
      if rows[i].station == s && Get(rows[i], p) == c {
        n := n + 1;
      }
    }
    assert rows[..|rows|] == rows;
  }

  /** The detailed rows of one station, parameter by parameter, flag by flag. */
  method StationDetails(rows: seq<Record>, s: string, cols: seq<string>) returns (entries: seq<DetailRow>)
    ensures entries == DetailParams(rows, s, cols)
  {
    entries := [];
    for k := 0 to |cols|
      invariant entries == DetailParams(rows, s, cols[..k])
    {
      assert cols[..k + 1][..k] == cols[..k];
      var p := cols[k];
      for m := 0 to |FlagCodes|
        invariant entries == DetailParams(rows, s, cols[..k]) + DetailCodes(rows, s, p, FlagCodes[..m])
      {
        assert FlagCodes[..m + 1][..m] == FlagCodes[..m];
        var code := FlagCodes[m];
        var n := CountStation(rows, s, p, Text(code));
        if n > 0 {
          entries := entries + [DetailRow(s, p, code, FlagDescription(code), n)];
        }
      }
      assert FlagCodes[..|FlagCodes|] == FlagCodes;
    }
    assert cols[..|cols|] == cols;
  }

  /** Appends the detailed rows station by station, in order of first appearance. */
  method BuildDetailed(f: Frame) returns (entries: seq<DetailRow>)
    ensures entries == Detailed(f)
  {
    var stations := Unique(StationsOf(f.rows));
    entries := [];
    for t := 0 to |stations|
      invariant entries == DetailStations(f.rows, stations[..t], f.columns)
    {
      assert stations[..t + 1][..t] == stations[..t];
      var more := StationDetails(f.rows, stations[t], f.columns);
      entries := entries + more;
    }
    assert stations[..|stations|] == stations;
  }
}
