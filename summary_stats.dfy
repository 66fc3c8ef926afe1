/**
 * The statistics part of the validation summary: the general counts of
 * records, stations, days and readings, and per station and parameter the
 * number of records and readings with their minimum, maximum and mean.
 */
module SummaryStats {
  import opened Strings
  import opened Cells
  import opened Numbers

  /** The DATE column. */
  function DatesOf(rows: seq<Record>): (r: seq<string>)
    ensures |r| == |rows|
    ensures forall i :: 0 <= i < |rows| ==> r[i] == rows[i].date
  {
    if rows == [] then [] else DatesOf(rows[..|rows| - 1]) + [rows[|rows| - 1].date]
  }

  /**
   * The number reported as days processed, as written: the distinct DATE
   * texts. The conversion writes DATE as 'YYYY-MM-DD HH:MM', so this counts
   * time stamps rather than days.
   */
  function DistinctDates(rows: seq<Record>): nat
  {
    |Unique(DatesOf(rows))|
  }

  /** The calendar day of a DATE text: its 'YYYY-MM-DD' prefix. */
  function DayOf(date: string): (d: string)
    ensures |d| <= 10
  {
    if |date| >= 10 then date[..10] else date
  }

  function DaysOf(rows: seq<Record>): (r: seq<string>)
    ensures |r| == |rows|
    ensures forall i :: 0 <= i < |rows| ==> r[i] == DayOf(rows[i].date)
  {
    if rows == [] then [] else DaysOf(rows[..|rows| - 1]) + [DayOf(rows[|rows| - 1].date)]
  }

  /** The number of days processed, counting calendar days. */
  function DistinctDays(rows: seq<Record>): nat
  {
    |Unique(DaysOf(rows))|
  }

  /** Hours of one single day count as one day. */
  lemma OneDay(rows: seq<Record>, day: string)
    requires |rows| > 0
    requires forall i :: 0 <= i < |rows| ==> DayOf(rows[i].date) == day
    ensures DistinctDays(rows) == 1
  {
    UniqueConstant(DaysOf(rows), day);
  }

  /** A non-empty sequence of equal elements has that element as its only distinct value. */
  lemma {:induction false} UniqueConstant(s: seq<string>, x: string)
    requires |s| > 0
    requires forall i :: 0 <= i < |s| ==> s[i] == x
    ensures Unique(s) == [x]
    decreases |s|
  {
    if |s| > 1 {
      UniqueConstant(s[..|s| - 1], x);
    }
  }

  const FirstHour := Record("ATM", "2024-01-01 00:00", 0, map[])
  const SecondHour := Record("ATM", "2024-01-01 01:00", 1, map[])

  /** Two hours of the same day: the count as written reports two days. */
  lemma TwoHoursCountAsTwoDays()
    ensures DistinctDates([FirstHour, SecondHour]) == 2
    ensures DistinctDays([FirstHour, SecondHour]) == 1
  {
    var rows := [FirstHour, SecondHour];
    assert FirstHour.date[12] != SecondHour.date[12];
    assert DatesOf(rows) == DatesOf(rows[..1]) + [SecondHour.date];
    assert DatesOf(rows[..1]) == [FirstHour.date];
    assert Unique(DatesOf(rows[..1])) == [FirstHour.date];
    forall i | 0 <= i < 2 ensures DayOf(rows[i].date) == "2024-01-01" {
      assert rows[i].date[..10] == "2024-01-01";
    }
    OneDay(rows, "2024-01-01");
  }

  /** The number of rows whose cell of `p` holds a reading. */
  function NumCount(rows: seq<Record>, p: string): (n: nat)
    ensures n <= |rows|
  {
    if rows == [] then 0 else NumCount(rows[..|rows| - 1], p) + (if Get(rows[|rows| - 1], p).Num? then 1 else 0)
  }

  /** The readings over the columns `cols`: at most one per cell. */
  function ReadingCount(rows: seq<Record>, cols: seq<string>): (n: nat)
    ensures n <= |rows| * |cols|
  {
    if cols == [] then 0 else ReadingCount(rows, cols[..|cols| - 1]) + NumCount(rows, cols[|cols| - 1])
  }

  /** The count is the number of row positions whose cell of `p` holds a reading. */
  lemma NumCountRows(rows: seq<Record>, p: string)
    ensures NumCount(rows, p) == |set i | 0 <= i < |rows| && Get(rows[i], p).Num?|
  {
    NumCountUpTo(rows, p, |rows|);
    assert rows[..|rows|] == rows;
  }

  /** The count over the first n rows is the number of positions below n holding a reading. */
  lemma {:induction false} NumCountUpTo(rows: seq<Record>, p: string, n: nat)
    requires n <= |rows|
    ensures NumCount(rows[..n], p) == |set i | 0 <= i < n && Get(rows[i], p).Num?|
  {
    if n > 0 {
      NumCountUpTo(rows, p, n - 1);
      assert rows[..n][..n - 1] == rows[..n - 1];
      var before := set i | 0 <= i < n - 1 && Get(rows[i], p).Num?;
      var now := set i | 0 <= i < n && Get(rows[i], p).Num?;
      if Get(rows[n - 1], p).Num? {
        assert now == before + {n - 1};
      } else {
        assert now == before;
      }
    }
  }

  /** No reading anywhere gives a count of zero, and each reading counts. */
  lemma {:induction false} NumCountZero(rows: seq<Record>, p: string)
    ensures NumCount(rows, p) == 0 <==> forall i :: 0 <= i < |rows| ==> !Get(rows[i], p).Num?
    decreases |rows|
  {
    if rows != [] {
      var front := rows[..|rows| - 1];
      NumCountZero(front, p);
      assert forall i :: 0 <= i < |front| ==> front[i] == rows[i];
    }
  }

  datatype GeneralStats = GeneralStats(records: nat, stations: nat, days: nat, readings: nat)

  /**
   * Total records, stations processed, days processed and valid readings:
   * the row count, the number of distinct station codes, the number of
   * distinct calendar days, and the readings summed column by column.
   */
  function General(f: Frame): (g: GeneralStats)
    ensures g.records == |f.rows|
    ensures g.stations == |set i | 0 <= i < |f.rows| :: f.rows[i].station|
    ensures g.days == |set i | 0 <= i < |f.rows| :: DayOf(f.rows[i].date)|
    ensures g.readings == ReadingCount(f.rows, f.columns)
    ensures g.stations <= g.records && g.days <= g.records
    ensures g.readings <= g.records * |f.columns|
    ensures g.records > 0 ==> g.stations > 0 && g.days > 0
  {
    var stations := Unique(StationsOf(f.rows));
    var days := Unique(DaysOf(f.rows));
    StationCountCard(f.rows);
    DayCount(f.rows);
    var g := GeneralStats(|f.rows|, |stations|, |days|, ReadingCount(f.rows, f.columns));
    if |f.rows| > 0 then
      assert StationsOf(f.rows)[0] in stations;
      assert DaysOf(f.rows)[0] in days;
      g
    else g
  }

  /** The distinct station codes of the STATION column. */
  lemma StationCountCard(rows: seq<Record>)
    ensures |Unique(StationsOf(rows))| == |set i | 0 <= i < |rows| :: rows[i].station|
  {
    UniqueCount(StationsOf(rows));
    assert (set x | x in StationsOf(rows)) == (set i | 0 <= i < |rows| :: rows[i].station) by {
      forall x | x in StationsOf(rows) ensures x in (set i | 0 <= i < |rows| :: rows[i].station) {
        var i :| 0 <= i < |rows| && StationsOf(rows)[i] == x;
      }
      forall i | 0 <= i < |rows| ensures rows[i].station in StationsOf(rows) {
        assert StationsOf(rows)[i] == rows[i].station;
      }
    }
  }

  /** The distinct calendar days of the DATE column. */
  lemma DayCount(rows: seq<Record>)
    ensures |Unique(DaysOf(rows))| == |set i | 0 <= i < |rows| :: DayOf(rows[i].date)|
  {
    UniqueCount(DaysOf(rows));
    assert (set x | x in DaysOf(rows)) == (set i | 0 <= i < |rows| :: DayOf(rows[i].date)) by {
      forall x | x in DaysOf(rows) ensures x in (set i | 0 <= i < |rows| :: DayOf(rows[i].date)) {
        var i :| 0 <= i < |rows| && DaysOf(rows)[i] == x;
      }
      forall i | 0 <= i < |rows| ensures DayOf(rows[i].date) in DaysOf(rows) {
        assert DaysOf(rows)[i] == DayOf(rows[i].date);
      }
    }
  }

  /** A row of the detailed statistics. */
  datatype StatRow = StatRow(station: string, param: string, records: nat, readings: nat, min: real, max: real, mean: real)

  /** The rows of station `s`. */
  function StationRowCount(rows: seq<Record>, s: string): nat
  {
    if rows == [] then 0 else StationRowCount(rows[..|rows| - 1], s) + (if rows[|rows| - 1].station == s then 1 else 0)
  }

  /** A station has at most one reading of a parameter per row. */
  lemma {:induction false} SamplesAtMostRows(rows: seq<Record>, s: string, p: string)
    ensures |Samples(rows, s, p)| <= StationRowCount(rows, s)
    decreases |rows|
  {
    if rows != [] {
      SamplesAtMostRows(rows[..|rows| - 1], s, p);
    }
  }

  /** The statistics of station `s` and parameter `p`, none when the station has no reading of it. */
  function StatFor(rows: seq<Record>, s: string, p: string): Option<StatRow>
  {
    var xs := Samples(rows, s, p);
    if |xs| == 0 then None
    else Some(StatRow(s, p, StationRowCount(rows, s), |xs|, SeqMin(xs), SeqMax(xs), Mean(xs)))
  }

  function StatParams(rows: seq<Record>, s: string, ps: seq<string>): seq<StatRow>
  {
    if ps == [] then []
    else
      var more := StatFor(rows, s, ps[|ps| - 1]);
      StatParams(rows, s, ps[..|ps| - 1]) + (if more.Some? then [more.value] else [])
  }

  function StatStations(rows: seq<Record>, ss: seq<string>, ps: seq<string>): seq<StatRow>
  {
    if ss == [] then [] else StatStations(rows, ss[..|ss| - 1], ps) + StatParams(rows, ss[|ss| - 1], ps)
  }

  /** Stations in order of first appearance, then parameter columns. */
  function DetailedStats(f: Frame): seq<StatRow>
  {
    StatStations(f.rows, Unique(StationsOf(f.rows)), f.columns)
  }

  lemma {:induction false} StatParamsExact(rows: seq<Record>, s: string, ps: seq<string>, e: StatRow)
    ensures e in StatParams(rows, s, ps) <==> e.station == s && e.param in ps && StatFor(rows, s, e.param) == Some(e)
    decreases |ps|
  {
    if ps != [] {
      var front := ps[..|ps| - 1];
      StatParamsExact(rows, s, front, e);
      assert ps == front + [ps[|ps| - 1]];
    }
  }

  lemma {:induction false} StatStationsExact(rows: seq<Record>, ss: seq<string>, ps: seq<string>, e: StatRow)
    ensures e in StatStations(rows, ss, ps) <==> e.station in ss && e.param in ps && StatFor(rows, e.station, e.param) == Some(e)
    decreases |ss|
  {
    if ss != [] {
      var front := ss[..|ss| - 1];
      StatStationsExact(rows, front, ps, e);
      StatParamsExact(rows, ss[|ss| - 1], ps, e);
      assert ss == front + [ss[|ss| - 1]];
    }
  }

  /**
   * A statistics row exists exactly for the station and parameter pairs
   * with at least one reading; its reading count is positive and at most the
   * station's record count, and its mean lies between its minimum and maximum.
   */
  lemma DetailedStatsExact(f: Frame, s: string, p: string)
    ensures (exists e :: e in DetailedStats(f) && e.station == s && e.param == p) <==>
      p in f.columns && exists i :: 0 <= i < |f.rows| && f.rows[i].station == s && Get(f.rows[i], p).Num?
    ensures forall e :: e in DetailedStats(f) ==>
      0 < e.readings <= e.records && e.min <= e.mean <= e.max
  {
    SamplesEmpty(f.rows, s, p);
    if p in f.columns && exists i :: 0 <= i < |f.rows| && f.rows[i].station == s && Get(f.rows[i], p).Num? {
      var i :| 0 <= i < |f.rows| && f.rows[i].station == s && Get(f.rows[i], p).Num?;
      assert StationsOf(f.rows)[i] == s;
      StatStationsExact(f.rows, Unique(StationsOf(f.rows)), f.columns, StatFor(f.rows, s, p).value);
    }
    forall e | e in DetailedStats(f) && e.station == s && e.param == p
      ensures p in f.columns && exists i :: 0 <= i < |f.rows| && f.rows[i].station == s && Get(f.rows[i], p).Num?
    {
      StatStationsExact(f.rows, Unique(StationsOf(f.rows)), f.columns, e);
    }
    forall e | e in DetailedStats(f) ensures 0 < e.readings <= e.records && e.min <= e.mean <= e.max {
      StatStationsExact(f.rows, Unique(StationsOf(f.rows)), f.columns, e);
      var xs := Samples(f.rows, e.station, e.param);
      SamplesAtMostRows(f.rows, e.station, e.param);
      MeanBetweenExtremes(xs);
    }
  }

  lemma {:induction false} StatParamsDistinct(rows: seq<Record>, s: string, ps: seq<string>)
    requires Distinct(ps)
    ensures Distinct(StatParams(rows, s, ps))
    decreases |ps|
  {
    if ps != [] {
      var front := ps[..|ps| - 1];
      var more := StatFor(rows, s, ps[|ps| - 1]);
      var last: seq<StatRow> := if more.Some? then [more.value] else [];
      DistinctFront(ps);
      StatParamsDistinct(rows, s, front);
      forall x | x in StatParams(rows, s, front) ensures x !in last {
        StatParamsExact(rows, s, front, x);
      }
      DistinctAppend(StatParams(rows, s, front), last);
    }
  }

  lemma {:induction false} StatStationsDistinct(rows: seq<Record>, ss: seq<string>, ps: seq<string>)
    requires Distinct(ss) && Distinct(ps)
    ensures Distinct(StatStations(rows, ss, ps))
    decreases |ss|
  {
    if ss != [] {
      var front := ss[..|ss| - 1];
      var s := ss[|ss| - 1];
      DistinctFront(ss);
      StatStationsDistinct(rows, front, ps);
      StatParamsDistinct(rows, s, ps);
      forall x | x in StatStations(rows, front, ps) ensures x !in StatParams(rows, s, ps) {
        StatStationsExact(rows, front, ps, x);
        StatParamsExact(rows, s, ps, x);
      }
      DistinctAppend(StatStations(rows, front, ps), StatParams(rows, s, ps));
    }
  }

  /**
   * Over duplicate-free parameter columns, the statistics table has one row
   * per station and parameter.
   */
  lemma DetailedStatsDistinct(f: Frame)
    requires Distinct(f.columns)
    ensures Distinct(DetailedStats(f))
    ensures forall i, j :: 0 <= i < j < |DetailedStats(f)| ==>
      DetailedStats(f)[i].station != DetailedStats(f)[j].station || DetailedStats(f)[i].param != DetailedStats(f)[j].param
  {
    var r := DetailedStats(f);
    StatStationsDistinct(f.rows, Unique(StationsOf(f.rows)), f.columns);
    forall i, j | 0 <= i < j < |r| ensures r[i].station != r[j].station || r[i].param != r[j].param {
      StatStationsExact(f.rows, Unique(StationsOf(f.rows)), f.columns, r[i]);
      StatStationsExact(f.rows, Unique(StationsOf(f.rows)), f.columns, r[j]);
    }
  }

  /** The readings of station `s` and parameter `p`, gathered row by row. */
  method StationSamples(rows: seq<Record>, s: string, p: string) returns (xs: seq<real>)
    ensures xs == Samples(rows, s, p)
  {
    xs := [];
    for i := 0 to |rows|
      invariant xs == Samples(rows[..i], s, p)
    {
      assert rows[..i + 1][..i] == rows[..i];
      var c := Get(rows[i], p);
      if rows[i].station == s && c.Num? {
        xs := xs + [c.r];
      }
    }
    assert rows[..|rows|] == rows;
  }

  /** The statistics rows of one station, parameter by parameter. */
  method StationStats(rows: seq<Record>, s: string, cols: seq<string>) returns (stats: seq<StatRow>)
    ensures stats == StatParams(rows, s, cols)
  {
    stats := [];
    for k := 0 to |cols|
      invariant stats == StatParams(rows, s, cols[..k])
    {
      assert cols[..k + 1][..k] == cols[..k];
      var p := cols[k];
      var xs := StationSamples(rows, s, p);
      if |xs| > 0 {
        stats := stats + [StatRow(s, p, StationRowCount(rows, s), |xs|, SeqMin(xs), SeqMax(xs), Mean(xs))];
      }
    }
    assert cols[..|cols|] == cols;
  }

  /** Appends the statistics rows station by station, in order of first appearance. */
  method BuildDetailedStats(f: Frame) returns (stats: seq<StatRow>)
    ensures stats == DetailedStats(f)
  {
    var stations := Unique(StationsOf(f.rows));
    stats := [];
    for t := 0 to |stations|
      invariant stats == StatStations(f.rows, stations[..t], f.columns)
    {
      StatStationsStep(f.rows, stations, t, f.columns);
      var more := StationStats(f.rows, stations[t], f.columns);
      stats := stats + more;
    }
    assert stations[..|stations|] == stations;
  }

  lemma StatStationsStep(rows: seq<Record>, ss: seq<string>, t: nat, ps: seq<string>)
    requires t < |ss|
    ensures StatStations(rows, ss[..t + 1], ps) == StatStations(rows, ss[..t], ps) + StatParams(rows, ss[t], ps)
  {
    assert ss[..t + 1][..t] == ss[..t];
  }
}
