/**
 * Conversion of an ENVISTA export into the base format: one row per station
 * and time stamp, with the seventeen parameter columns. A row is kept only
 * when at least one of its parameters holds something, and the rows come
 * out ordered by station code, then date text, then hour.
 */
module Reshape {
  import opened Strings
  import opened Cells
  import opened Numbers
  import opened Config
  import opened EnvistaFlags
  import opened Sorting

  /** A parsed time stamp: its 'YYYY-MM-DD HH:MM' text and its hour. */
  datatype Stamp = Stamp(date: string, hour: int)

  /** One ENVISTA row: its time stamp (None when it did not parse) and its cells by column header. */
  datatype EnvistaRow = EnvistaRow(stamp: Option<Stamp>, cells: map<string, RawValue>)

  /** An ENVISTA sheet: the "<station>_<parameter>" column headers in order, and the rows. */
  datatype Envista = Envista(columns: seq<string>, rows: seq<EnvistaRow>)

  function Raw(row: EnvistaRow, col: string): RawValue
  {
    if col in row.cells then row.cells[col] else RawMissing
  }

  /** A raw value that the conversion writes: not missing and not the empty text. */
  predicate Usable(v: RawValue)
  {
    !v.RawMissing? && v != RawText("")
  }

  /**
   * The cell a raw value becomes: a status text becomes its flag, a number
   * stays a number, and text that reads as a number becomes that number.
   */
  function ConvertValue(v: RawValue): (c: Cell)
    ensures Usable(v) ==> c != Empty
    ensures c.Text? ==> IsFlag(c.s)
    ensures v.RawNum? ==> c == Num(v.x)
    ensures v.RawText? && c.Num? ==> ParseDecimal(Strip(v.s)) == Some(c.r)
  {
    MapEnvistaFlagIsFlag(v);
    match MapEnvistaFlag(v)
    case Some(code) => Text(code)
    case None =>
      match v
      case RawMissing => Empty
      case RawNum(x) => Num(x)
      case RawText(s) =>
        match ParseDecimal(Strip(s))
        case Some(x) => Num(x)
        case None => Text("IO")
  }

  predicate IsUnderscore(c: char)
  {
    c == '_'
  }

  /** The parameter part of a column header: the text after its first '_'. */
  function ColumnParam(col: string): string
  {
    var k := FirstIndex(col, IsUnderscore);
    if k < |col| then col[k + 1..] else ""
  }

  /** The parameter a column of station `name` fills, if it is one of the base columns. */
  predicate Fills(col: string, name: string, p: string)
  {
    StartsWith(col, name + "_") && MapParam(ColumnParam(col)) == p && p in ParamColumns
  }

  /** Every parameter column empty. */
  const EmptyParams: map<string, Cell> := map p | p in ParamColumns :: Empty

  /**
   * Reading one column of the row for station `name`: when it fills a
   * parameter with a usable value, that parameter's cell becomes the
   * converted value; every other cell stays.
   */
  function ReadColumn(m: map<string, Cell>, row: EnvistaRow, name: string, col: string): (r: map<string, Cell>)
    ensures var p := MapParam(ColumnParam(col));
      Fills(col, name, p) && Usable(Raw(row, col)) ==> p in r && r[p] == ConvertValue(Raw(row, col))
    ensures var p := MapParam(ColumnParam(col));
      forall q :: q != p ==> (q in r <==> q in m) && (q in m ==> r[q] == m[q])
    ensures var p := MapParam(ColumnParam(col));
      !(Fills(col, name, p) && Usable(Raw(row, col))) ==> r == m
  {
    var p := MapParam(ColumnParam(col));
    if Fills(col, name, p) && Usable(Raw(row, col)) then m[p := ConvertValue(Raw(row, col))] else m
  }

  /** The parameter cells of station `name` after reading columns `cols` of the row, in order. */
  function StationValues(row: EnvistaRow, name: string, cols: seq<string>): (m: map<string, Cell>)
    ensures m.Keys == EmptyParams.Keys
  {
    if cols == [] then EmptyParams
    else ReadColumn(StationValues(row, name, cols[..|cols| - 1]), row, name, cols[|cols| - 1])
  }

  /** Reading the columns up to position c + 1 is reading them up to c, then column c. */
  lemma StationValuesPrefix(row: EnvistaRow, name: string, cols: seq<string>, c: nat)
    requires c < |cols|
    ensures StationValues(row, name, cols[..c + 1]) == ReadColumn(StationValues(row, name, cols[..c]), row, name, cols[c])
  {
    assert cols[..c + 1][..c] == cols[..c];
  }

  /** A parameter stays empty exactly when no column of the station fills it with a usable value. */
  lemma {:induction false} StationValuesEmpty(row: EnvistaRow, name: string, cols: seq<string>, p: string)
    requires p in ParamColumns
    ensures StationValues(row, name, cols)[p] == Empty <==> NoneFills(row, name, cols, p)
    decreases |cols|
  {
    if cols != [] {
      StationValuesEmpty(row, name, cols[..|cols| - 1], p);
      NoneFillsSplit(row, name, cols, p);
    }
  }

  /** No column of station `name` fills `p` with a usable value. */
  predicate NoneFills(row: EnvistaRow, name: string, cols: seq<string>, p: string)
  {
    forall k :: 0 <= k < |cols| && Fills(cols[k], name, p) ==> !Usable(Raw(row, cols[k]))
  }

  lemma NoneFillsSplit(row: EnvistaRow, name: string, cols: seq<string>, p: string)
    requires cols != []
    ensures NoneFills(row, name, cols, p) <==>
      NoneFills(row, name, cols[..|cols| - 1], p) && (Fills(cols[|cols| - 1], name, p) ==> !Usable(Raw(row, cols[|cols| - 1])))
  {
    assert forall k :: 0 <= k < |cols| - 1 ==> cols[..|cols| - 1][k] == cols[k];
  }

  /** The last column that fills a parameter with a usable value decides its cell. */
  lemma {:induction false} StationValuesLastWins(row: EnvistaRow, name: string, cols: seq<string>, p: string, k: nat)
    requires p in ParamColumns && k < |cols|
    requires Fills(cols[k], name, p) && Usable(Raw(row, cols[k]))
    requires forall j :: k < j < |cols| && Fills(cols[j], name, p) ==> !Usable(Raw(row, cols[j]))
    ensures StationValues(row, name, cols)[p] == ConvertValue(Raw(row, cols[k]))
    decreases |cols|
  {
    var front := cols[..|cols| - 1];
    if k < |cols| - 1 {
      assert front[k] == cols[k];
      assert forall j :: k < j < |front| ==> front[j] == cols[j];
      StationValuesLastWins(row, name, front, p, k);
    }
  }

  /** Some parameter of the record holds a reading or a flag. */
  predicate HasReading(rec: Record)
  {
    exists k :: 0 <= k < |ParamColumns| && Get(rec, ParamColumns[k]) != Empty
  }

  /** The number of parameters in `ps` that hold something. */
  function CountFilled(rec: Record, ps: seq<string>): nat
  {
    if ps == [] then 0 else CountFilled(rec, ps[..|ps| - 1]) + (if Get(rec, ps[|ps| - 1]) != Empty then 1 else 0)
  }

  lemma {:induction false} CountFilledPositive(rec: Record, ps: seq<string>)
    ensures CountFilled(rec, ps) > 0 <==> exists k :: 0 <= k < |ps| && Get(rec, ps[k]) != Empty
    decreases |ps|
  {
    if ps != [] {
      var front := ps[..|ps| - 1];
      CountFilledPositive(rec, front);
      assert forall k :: 0 <= k < |front| ==> front[k] == ps[k];
    }
  }

  /** The base-format row of one station for one ENVISTA row. */
  function StationRecord(row: EnvistaRow, cols: seq<string>, station: (string, string)): Record
    requires row.stamp.Some?
  {
    Record(station.1, row.stamp.value.date, row.stamp.value.hour, StationValues(row, station.0, cols))
  }

  /** The kept rows of the stations `sts` for one ENVISTA row, in station order. */
  function StationRecords(row: EnvistaRow, cols: seq<string>, sts: seq<(string, string)>): seq<Record>
    requires row.stamp.Some?
  {
    if sts == [] then []
    else
      var rec := StationRecord(row, cols, sts[|sts| - 1]);
      StationRecords(row, cols, sts[..|sts| - 1]) + (if HasReading(rec) then [rec] else [])
  }

  /** The kept rows of all ENVISTA rows, before sorting; rows without a time stamp give none. */
  function BuiltRows(rows: seq<EnvistaRow>, cols: seq<string>): seq<Record>
  {
    if rows == [] then []
    else
      var row := rows[|rows| - 1];
      BuiltRows(rows[..|rows| - 1], cols) + (if row.stamp.Some? then StationRecords(row, cols, Stations) else [])
  }

  /** Every kept row holds something and belongs to one of the stations, under that station's code. */
  lemma {:induction false} StationRecordsKept(row: EnvistaRow, cols: seq<string>, sts: seq<(string, string)>)
    requires row.stamp.Some?
    ensures forall r :: r in StationRecords(row, cols, sts) ==>
      HasReading(r) && r.date == row.stamp.value.date && exists k :: 0 <= k < |sts| && r.station == sts[k].1
    decreases |sts|
  {
    if sts != [] {
      var front := sts[..|sts| - 1];
      StationRecordsKept(row, cols, front);
      assert forall k :: 0 <= k < |front| ==> front[k] == sts[k];
    }
  }

  lemma {:induction false} BuiltRowsKept(rows: seq<EnvistaRow>, cols: seq<string>)
    ensures forall r :: r in BuiltRows(rows, cols) ==>
      HasReading(r) && exists k :: 0 <= k < |Stations| && r.station == Stations[k].1
    decreases |rows|
  {
    if rows != [] {
      BuiltRowsKept(rows[..|rows| - 1], cols);
      var row := rows[|rows| - 1];
      if row.stamp.Some? {
        StationRecordsKept(row, cols, Stations);
      }
    }
  }

  /** A station's record with a reading is among the kept rows of its time stamp. */
  lemma {:induction false} StationRecordsHas(row: EnvistaRow, cols: seq<string>, sts: seq<(string, string)>, k: nat)
    requires row.stamp.Some? && k < |sts|
    requires HasReading(StationRecord(row, cols, sts[k]))
    ensures StationRecord(row, cols, sts[k]) in StationRecords(row, cols, sts)
    decreases |sts|
  {
    var front := sts[..|sts| - 1];
    if k < |sts| - 1 {
      assert front[k] == sts[k];
      StationRecordsHas(row, cols, front, k);
    }
  }

  /** Every kept row of one time stamp is the record of one of the stations. */
  lemma {:induction false} StationRecordsFrom(row: EnvistaRow, cols: seq<string>, sts: seq<(string, string)>)
    requires row.stamp.Some?
    ensures forall r :: r in StationRecords(row, cols, sts) ==>
      exists k :: 0 <= k < |sts| && r == StationRecord(row, cols, sts[k])
    decreases |sts|
  {
    if sts != [] {
      var front := sts[..|sts| - 1];
      StationRecordsFrom(row, cols, front);
      assert forall k :: 0 <= k < |front| ==> front[k] == sts[k];
    }
  }

  /** The record of a time-stamped row and a known station is built exactly when it has a reading. */
  lemma {:induction false} BuiltRowsHas(rows: seq<EnvistaRow>, cols: seq<string>, i: nat, k: nat)
    requires i < |rows| && rows[i].stamp.Some? && k < |Stations|
    requires HasReading(StationRecord(rows[i], cols, Stations[k]))
    ensures StationRecord(rows[i], cols, Stations[k]) in BuiltRows(rows, cols)
    decreases |rows|
  {
    var front := rows[..|rows| - 1];
    if i < |rows| - 1 {
      assert front[i] == rows[i];
      BuiltRowsHas(front, cols, i, k);
    } else {
      StationRecordsHas(rows[i], cols, Stations, k);
    }
  }

  /** Every built row is the record of some time-stamped row and some known station. */
  lemma {:induction false} BuiltRowsFrom(rows: seq<EnvistaRow>, cols: seq<string>)
    ensures forall r :: r in BuiltRows(rows, cols) ==>
      exists i, k :: 0 <= i < |rows| && rows[i].stamp.Some? && 0 <= k < |Stations| &&
        r == StationRecord(rows[i], cols, Stations[k])
    decreases |rows|
  {
    if rows != [] {
      var front := rows[..|rows| - 1];
      BuiltRowsFrom(front, cols);
      assert forall i :: 0 <= i < |front| ==> front[i] == rows[i];
      var row := rows[|rows| - 1];
      if row.stamp.Some? {
        StationRecordsFrom(row, cols, Stations);
      }
    }
  }

  /**
   * The converted frame is ordered by station, date and hour, is a
   * rearrangement of the built rows, every row of it holds some reading or
   * flag and carries a known station code, and it has the base-format
   * columns unless it is empty.
   */
  lemma ReshapedShape(env: Envista)
    ensures SortedBy(Reshaped(env).rows, RowLe)
    ensures multiset(Reshaped(env).rows) == multiset(BuiltRows(env.rows, env.columns))
    ensures Reshaped(env).rows != [] ==> Reshaped(env).columns == ParamColumns
    ensures forall r :: r in Reshaped(env).rows ==>
      HasReading(r) && exists k :: 0 <= k < |Stations| && r.station == Stations[k].1
  {
    var rows := BuiltRows(env.rows, env.columns);
    BuiltRowsKept(env.rows, env.columns);
    if rows != [] {
      RowLeTotalPreorder();
      forall r | r in Reshaped(env).rows
        ensures HasReading(r) && exists k :: 0 <= k < |Stations| && r.station == Stations[k].1
      {
        SameElements(rows, Sort(rows, RowLe), r);
      }
    }
  }

  /**
   * The filter of the conversion in both directions: the record of a
   * time-stamped row and a known station is in the result exactly when one
   * of its parameters holds something, and the result holds nothing else.
   */
  lemma ReshapedKeeps(env: Envista)
    ensures forall i, k :: 0 <= i < |env.rows| && env.rows[i].stamp.Some? && 0 <= k < |Stations| ==>
      (StationRecord(env.rows[i], env.columns, Stations[k]) in Reshaped(env).rows <==>
       HasReading(StationRecord(env.rows[i], env.columns, Stations[k])))
    ensures forall r :: r in Reshaped(env).rows ==>
      exists i, k :: 0 <= i < |env.rows| && env.rows[i].stamp.Some? && 0 <= k < |Stations| &&
        r == StationRecord(env.rows[i], env.columns, Stations[k])
  {
    BuiltRowsKept(env.rows, env.columns);
    BuiltRowsFrom(env.rows, env.columns);
    forall i, k | 0 <= i < |env.rows| && env.rows[i].stamp.Some? && 0 <= k < |Stations|
      ensures StationRecord(env.rows[i], env.columns, Stations[k]) in Reshaped(env).rows <==>
        HasReading(StationRecord(env.rows[i], env.columns, Stations[k]))
    {
      var rec := StationRecord(env.rows[i], env.columns, Stations[k]);
      ReshapedMembers(env, rec);
      if HasReading(rec) {
        BuiltRowsHas(env.rows, env.columns, i, k);
      }
    }
    forall r | r in Reshaped(env).rows
      ensures exists i, k :: 0 <= i < |env.rows| && env.rows[i].stamp.Some? && 0 <= k < |Stations| &&
                            r == StationRecord(env.rows[i], env.columns, Stations[k])
    {
      ReshapedMembers(env, r);
    }
  }

  /** The sort keeps the built rows: a record is in the result exactly when it was built. */
  lemma ReshapedMembers(env: Envista, r: Record)
    ensures r in Reshaped(env).rows <==> r in BuiltRows(env.rows, env.columns)
  {
    var rows := BuiltRows(env.rows, env.columns);
    if rows != [] {
      RowLeTotalPreorder();
      SameElements(rows, Sort(rows, RowLe), r);
    }
  }

  /** Order of the base format: station code, then date text, then hour. */
  predicate RowLe(a: Record, b: Record)
  {
    Below(a.station, b.station)
    || (a.station == b.station && (Below(a.date, b.date) || (a.date == b.date && a.hour <= b.hour)))
  }

  lemma RowLeTotalPreorder()
    ensures TotalPreorder(RowLe)
  {
    forall a: Record, b: Record ensures RowLe(a, b) || RowLe(b, a) {
      if a.station != b.station {
        BelowTotal(a.station, b.station);
      } else if a.date != b.date {
        BelowTotal(a.date, b.date);
      }
    }
    forall a: Record, b: Record, c: Record | RowLe(a, b) && RowLe(b, c) ensures RowLe(a, c) {
      if Below(a.station, b.station) && Below(b.station, c.station) {
        BelowTransitive(a.station, b.station, c.station);
      } else if a.station == b.station == c.station && Below(a.date, b.date) && Below(b.date, c.date) {
        BelowTransitive(a.date, b.date, c.date);
      }
    }
  }

  /** The result of the conversion: the kept rows sorted, or an empty table when none is kept. */
  function Reshaped(env: Envista): Frame
  {
    var rows := BuiltRows(env.rows, env.columns);
    if rows == [] then Frame([], [])
    else
      RowLeTotalPreorder();
      Frame(ParamColumns, Sort(rows, RowLe))
  }

  /** Fills the parameter cells of station `name` from the row, column by column; a later column overwrites. */
  method ReadStation(row: EnvistaRow, name: string, cols: seq<string>) returns (values: map<string, Cell>)
    ensures values == StationValues(row, name, cols)
  {
    values := EmptyParams;
    for c := 0 to |cols|
      invariant values == StationValues(row, name, cols[..c])
    {
      StationValuesPrefix(row, name, cols, c);
      var col := cols[c];
      ghost var next := ReadColumn(values, row, name, col);
      if StartsWith(col, name + "_") {
        var p := MapParam(ColumnParam(col));
        if p in ParamColumns {
          var v := Raw(row, col);
          if Usable(v) {
            assert Fills(col, name, p);
            values := values[p := ConvertValue(v)];
          }
        }
      }
      assert values == next;
    }
    assert cols[..|cols|] == cols;
  }

  /** Counts the parameters of the record that hold something. */
  method CountParams(rec: Record) returns (filled: nat)
    ensures filled == CountFilled(rec, ParamColumns)
    ensures filled > 0 <==> HasReading(rec)
  {
    filled := 0;
    for k := 0 to |ParamColumns|
      invariant filled == CountFilled(rec, ParamColumns[..k])
    {
      assert ParamColumns[..k + 1][..k] == ParamColumns[..k];
      if Get(rec, ParamColumns[k]) != Empty {
        filled := filled + 1;
      }
    }
    assert ParamColumns[..|ParamColumns|] == ParamColumns;
    CountFilledPositive(rec, ParamColumns);
  }

  /** Appends the kept rows of the stations `sts` for one time-stamped ENVISTA row. */
  method ConvertRow(row: EnvistaRow, cols: seq<string>, sts: seq<(string, string)>, converted: seq<Record>)
    returns (out: seq<Record>)
    requires row.stamp.Some?
    ensures out == converted + StationRecords(row, cols, sts)
  {
    out := converted;
    for s := 0 to |sts|
      invariant out == converted + StationRecords(row, cols, sts[..s])
    {
      assert sts[..s + 1][..s] == sts[..s];
      var values := ReadStation(row, sts[s].0, cols);
      var rec := Record(sts[s].1, row.stamp.value.date, row.stamp.value.hour, values);
      var filled := CountParams(rec);
      if filled > 0 {
        out := out + [rec];
      }
    }
    assert sts[..|sts|] == sts;
  }

  /** Builds the kept rows one station at a time, then sorts them. */
  method ConvertToBase(env: Envista) returns (f: Frame)
    ensures f == Reshaped(env)
  {
    var converted: seq<Record> := [];
    for i := 0 to |env.rows|
      invariant converted == BuiltRows(env.rows[..i], env.columns)
    {
      assert env.rows[..i + 1][..i] == env.rows[..i];
      if env.rows[i].stamp.Some? {
        converted := ConvertRow(env.rows[i], env.columns, Stations, converted);
      }
    }
    assert env.rows[..|env.rows|] == env.rows;
    if converted == [] {
      f := Frame([], []);
    } else {
      RowLeTotalPreorder();
      f := Frame(ParamColumns, Sort(converted, RowLe));
    }
  }
}
