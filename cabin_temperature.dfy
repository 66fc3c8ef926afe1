/**
 * Cabin temperature validation: when the interior temperature IT of an hour
 * is a reading below 20 °C or above 30 °C, every pollutant reading of that
 * hour becomes the flag IO. A frame without an IT column is returned as it is.
 */
module CabinTemperature {
  import opened Cells
  import opened Config

  /** The hour's interior temperature is a reading outside 20-30 °C; a flag or an empty IT is not. */
  predicate CabinOut(r: Record)
  {
    Get(r, "IT").Num? && (Get(r, "IT").r < 20.0 || Get(r, "IT").r > 30.0)
  }

  /** The cell of parameter `p` in row `r` after the cabin check of a frame with parameter columns `cols`. */
  function CabinChecked(cols: seq<string>, r: Record, p: string): (d: Cell)
    ensures d != Get(r, p) <==> "IT" in cols && p in cols && p in CabinPollutants && CabinOut(r) && Get(r, p).Num?
    ensures d != Get(r, p) ==> d == Text("IO")
    ensures !Get(r, p).Num? ==> d == Get(r, p)
  {
    if "IT" in cols && p in cols && p in CabinPollutants && CabinOut(r) && Get(r, p).Num? then Text("IO") else Get(r, p)
  }

  /** The check never touches IT itself, so it decides each row the same way when run again. */
  lemma {:induction false} CabinCheckedIdempotent(cols: seq<string>, r: Record, r': Record, p: string)
    requires forall q :: Get(r', q) == CabinChecked(cols, r, q)
    ensures CabinChecked(cols, r', p) == Get(r', p)
  {
    assert "IT" !in CabinPollutants;
    assert Get(r', "IT") == Get(r, "IT");
    assert Get(r', p) == CabinChecked(cols, r, p);
  }

  /** Writes IO into the numeric cells of pollutant `p` in the rows whose cabin was out of range. */
  method CheckPollutant(cols: seq<string>, rows: seq<Record>, p: string) returns (out: seq<Record>)
    requires "IT" in cols && p in cols && p in CabinPollutants
    ensures |out| == |rows|
    ensures forall i :: 0 <= i < |rows| ==> SameShape(out[i], rows[i])
    ensures forall i, q :: 0 <= i < |rows| ==>
      Get(out[i], q) == if q == p then CabinChecked(cols, rows[i], p) else Get(rows[i], q)
  {
    out := rows;
    for i := 0 to |rows|
      invariant |out| == |rows|
      invariant forall j :: 0 <= j < |rows| ==> SameShape(out[j], rows[j])
      invariant forall j, q :: 0 <= j < i ==>
        Get(out[j], q) == if q == p then CabinChecked(cols, rows[j], p) else Get(rows[j], q)
      invariant forall j :: i <= j < |rows| ==> out[j] == rows[j]
    {
      if CabinOut(rows[i]) && Get(rows[i], p).Num? {
        out := out[i := SetCell(rows[i], p, Text("IO"))];
      }
    }
  }

  /** After one more pollutant pass, the pollutants checked so far include `p`, and IT is still untouched. */
  lemma PollutantStep(cols: seq<string>, orig: seq<Record>, before: seq<Record>, after: seq<Record>, done: seq<string>, p: string)
    requires |before| == |orig| && |after| == |orig| && p != "IT"
    requires forall i :: 0 <= i < |orig| ==> Get(before[i], "IT") == Get(orig[i], "IT")
    requires forall i, q :: 0 <= i < |orig| ==>
      Get(before[i], q) == if q in done then CabinChecked(cols, orig[i], q) else Get(orig[i], q)
    requires forall i, q :: 0 <= i < |orig| ==>
      Get(after[i], q) == if q == p then CabinChecked(cols, before[i], p) else Get(before[i], q)
    ensures forall i :: 0 <= i < |orig| ==> Get(after[i], "IT") == Get(orig[i], "IT")
    ensures forall i, q :: 0 <= i < |orig| ==>
      Get(after[i], q) == if q in done + [p] then CabinChecked(cols, orig[i], q) else Get(orig[i], q)
  {
    forall i, q | 0 <= i < |orig|
      ensures Get(after[i], q) == if q in done + [p] then CabinChecked(cols, orig[i], q) else Get(orig[i], q)
    {
      var c := Get(orig[i], q);
      assert (q in done + [p]) == (q in done || q == p);
      if q == p {
        assert Get(before[i], "IT") == Get(orig[i], "IT");
        assert CabinOut(before[i]) == CabinOut(orig[i]);
        assert Get(before[i], p) == if p in done then CabinChecked(cols, orig[i], p) else c;
      } else {
        assert Get(after[i], q) == Get(before[i], q);
      }
    }
  }

  /** Applies the cabin check to every pollutant column of the frame; nothing else changes. */
  method ValidateCabin(f: Frame) returns (g: Frame)
    ensures g.columns == f.columns && |g.rows| == |f.rows|
    ensures forall i :: 0 <= i < |f.rows| ==> SameShape(g.rows[i], f.rows[i])
    ensures forall i, p :: 0 <= i < |f.rows| ==> Get(g.rows[i], p) == CabinChecked(f.columns, f.rows[i], p)
    ensures "IT" !in f.columns ==> g == f
  {
    if "IT" !in f.columns {
      return f;
    }
    var rows := f.rows;
    assert "IT" !in CabinPollutants;
    for k := 0 to |CabinPollutants|
      invariant |rows| == |f.rows|
      invariant forall i :: 0 <= i < |f.rows| ==> SameShape(rows[i], f.rows[i])
      invariant forall i :: 0 <= i < |f.rows| ==> Get(rows[i], "IT") == Get(f.rows[i], "IT")
      invariant forall i, p :: 0 <= i < |f.rows| ==>
        Get(rows[i], p) == if p in CabinPollutants[..k] then CabinChecked(f.columns, f.rows[i], p) else Get(f.rows[i], p)
    {
      var p := CabinPollutants[k];
      assert CabinPollutants[..k + 1] == CabinPollutants[..k] + [p];
      var before := rows;
      if p in f.columns {
        rows := CheckPollutant(f.columns, rows, p);
      }
      PollutantStep(f.columns, f.rows, before, rows, CabinPollutants[..k], p);
    }
    assert CabinPollutants[..|CabinPollutants|] == CabinPollutants;
    g := Frame(f.columns, rows);
    forall i, p | 0 <= i < |f.rows|
      ensures Get(g.rows[i], p) == CabinChecked(f.columns, f.rows[i], p)
    {
      assert Get(rows[i], p) == if p in CabinPollutants then CabinChecked(f.columns, f.rows[i], p) else Get(f.rows[i], p);
    }
  }
}
