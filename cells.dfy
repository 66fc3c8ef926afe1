/**
 * The data model shared by the validation backend and the chart and table
 * components: a cell is a reading, a text (one of the validation flags, or
 * any other string) or nothing (Python's None and NaN, JavaScript's null).
 * A record is one station's row for one hour; a parameter that the row does
 * not carry reads as an empty cell. A frame is the backend's table: its
 * parameter columns and its rows.
 */
module Cells {
  import opened Strings

  datatype Option<T> = None | Some(value: T)

  datatype Cell = Num(r: real) | Text(s: string) | Empty

  datatype Record = Record(station: string, date: string, hour: int, values: map<string, Cell>)

  /** The parameter columns of a frame; STATION, DATE and HOUR are the record's own fields. */
  datatype Frame = Frame(columns: seq<string>, rows: seq<Record>)

  /** The cell of parameter `p`, empty when the row does not carry it. */
  function Get(r: Record, p: string): Cell
  {
    if p in r.values then r.values[p] else Empty
  }

  /** Overwrites the cell of `p`; every other cell and the key fields stay. */
  function SetCell(r: Record, p: string, c: Cell): (r': Record)
    ensures r'.station == r.station && r'.date == r.date && r'.hour == r.hour
    ensures Get(r', p) == c
    ensures forall q :: q != p ==> Get(r', q) == Get(r, q)
    ensures r'.values.Keys == r.values.Keys + {p}
  {
    r.(values := r.values[p := c])
  }

  /** The record keeps its key fields and its parameter keys. */
  predicate SameShape(a: Record, b: Record)
  {
    a.station == b.station && a.date == b.date && a.hour == b.hour && a.values.Keys == b.values.Keys
  }

  /** The ten validation flag codes, in the order the backend declares them. */
  const FlagCodes: seq<string> := ["IF", "IO", "IR", "ND", "VE", "SE", "NE", "IC", "VZ", "DS"]

  predicate IsFlag(s: string)
  {
    s in FlagCodes
  }

  /** The description the backend attaches to each flag code. */
  function FlagDescription(code: string): string
  {
    match code
    case "IF" => "Inválido por falla en el equipo"
    case "IO" => "Inválido por operador"
    case "IR" => "Inválido por rango de operación"
    case "ND" => "Sin dato (No Data)"
    case "VE" => "Valor Extraordinario"
    case "SE" => "Sin Equipo"
    case "NE" => "No existía la estación de monitoreo"
    case "IC" => "Inválido por calibración"
    case "VZ" => "Válido igualado al límite de detección"
    case "DS" => "Dato sospechoso"
    case _ => ""
  }

  /** The elements of `s` in order of first appearance (pandas `unique()`, JavaScript `new Set`). */
  function Unique<T(==,!new)>(s: seq<T>): (r: seq<T>)
    ensures Distinct(r)
    ensures forall x :: x in r <==> x in s
    ensures |r| <= |s|
  {
    if s == [] then []
    else
      var u := Unique(s[..|s| - 1]);
      assert s == s[..|s| - 1] + [s[|s| - 1]];
      if s[|s| - 1] in u then u else u + [s[|s| - 1]]
  }

  /** A duplicate-free list has as many elements as it has members. */
  lemma {:induction false} DistinctCard<T>(s: seq<T>)
    requires Distinct(s)
    ensures |set x | x in s| == |s|
    decreases |s|
  {
    if s != [] {
      var front := s[..|s| - 1];
      assert Distinct(front) by {
        assert forall i :: 0 <= i < |front| ==> front[i] == s[i];
      }
      DistinctCard(front);
      assert s == front + [s[|s| - 1]];
      assert s[|s| - 1] !in front;
      assert (set x | x in s) == (set x | x in front) + {s[|s| - 1]};
    }
  }

  /** `unique()` yields one element per distinct value of its input. */
  lemma UniqueCount<T(!new)>(s: seq<T>)
    ensures |Unique(s)| == |set x | x in s|
  {
    DistinctCard(Unique(s));
    assert (set x | x in Unique(s)) == (set x | x in s);
  }

  /** The station column of a list of records. */
  function StationsOf(rows: seq<Record>): (r: seq<string>)
    ensures |r| == |rows|
    ensures forall i :: 0 <= i < |rows| ==> r[i] == rows[i].station
  {
    if rows == [] then [] else StationsOf(rows[..|rows| - 1]) + [rows[|rows| - 1].station]
  }

  /**
   * The readings of parameter `p` in the rows of station `s`, in row order:
   * flags, other texts and empty cells are left out, never read as 0.
   */
  function Samples(rows: seq<Record>, s: string, p: string): seq<real>
  {
    if rows == [] then []
    else
      var last := rows[|rows| - 1];
      Samples(rows[..|rows| - 1], s, p) + (if last.station == s && Get(last, p).Num? then [Get(last, p).r] else [])
  }

  /** Samples gives exactly the readings, nothing for rows of other stations or non-numeric cells. */
  lemma {:induction false} SamplesExact(rows: seq<Record>, s: string, p: string, x: real)
    ensures x in Samples(rows, s, p) <==> exists i :: 0 <= i < |rows| && rows[i].station == s && Get(rows[i], p) == Num(x)
    decreases |rows|
  {
    if rows != [] {
      var front := rows[..|rows| - 1];
      SamplesExact(front, s, p, x);
      assert forall i :: 0 <= i < |front| ==> front[i] == rows[i];
      if exists i :: 0 <= i < |rows| && rows[i].station == s && Get(rows[i], p) == Num(x) {
        var i :| 0 <= i < |rows| && rows[i].station == s && Get(rows[i], p) == Num(x);
        if i < |front| {
          assert front[i] == rows[i];
        }
      }
    }
  }

  /** A station has a reading exactly when one of its rows holds a number for the parameter. */
  lemma {:induction false} SamplesEmpty(rows: seq<Record>, s: string, p: string)
    ensures |Samples(rows, s, p)| == 0 <==> forall i :: 0 <= i < |rows| && rows[i].station == s ==> !Get(rows[i], p).Num?
    decreases |rows|
  {
    if rows != [] {
      var front := rows[..|rows| - 1];
      SamplesEmpty(front, s, p);
      assert forall i :: 0 <= i < |front| ==> front[i] == rows[i];
    }
  }
}
