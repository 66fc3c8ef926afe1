/**
 * Range validation: for every parameter with an operating range, a reading
 * outside the range becomes the flag IR, and a reading inside the range but
 * below the detection limit is raised to the limit. Flags and empty cells
 * are not readings and stay as they are.
 */
module RangeValidation {
  import opened Cells
  import opened Config

  /** The cell a range check leaves behind. */
  function RangedCell(c: Cell, rg: Range): (d: Cell)
    requires rg.limit.Some? ==> rg.lo <= rg.limit.value <= rg.hi
    ensures c.Num? ==> (d == Text("IR") <==> c.r < rg.lo || c.r > rg.hi)
    ensures d.Num? ==> c.Num? && rg.lo <= d.r <= rg.hi
    ensures d.Num? && rg.limit.Some? ==> rg.limit.value <= d.r
    ensures d.Num? && d != c ==> rg.limit.Some? && d.r == rg.limit.value && c.r < d.r
    ensures !c.Num? ==> d == c
  {
    if !c.Num? then c
    else if c.r < rg.lo || c.r > rg.hi then Text("IR")
    else if rg.limit.Some? && c.r < rg.limit.value then Num(rg.limit.value)
    else c
  }

  /** A second range check changes nothing. */
  lemma RangedCellIdempotent(c: Cell, rg: Range)
    requires rg.limit.Some? ==> rg.lo <= rg.limit.value <= rg.hi
    ensures RangedCell(RangedCell(c, rg), rg) == RangedCell(c, rg)
  {
  }

  /** The cell of parameter `p` after range validation of a frame with parameter columns `cols`. */
  function RangeChecked(cols: seq<string>, p: string, c: Cell): (d: Cell)
    ensures p !in cols || p !in RangeParams ==> d == c
    ensures !c.Num? ==> d == c
  {
    var rg := RangeOf(p);
    if p in cols && rg.Some? then RangedCell(c, rg.value) else c
  }

  lemma RangeCheckedIdempotent(cols: seq<string>, p: string, c: Cell)
    ensures RangeChecked(cols, p, RangeChecked(cols, p, c)) == RangeChecked(cols, p, c)
  {
    var rg := RangeOf(p);
    if p in cols && rg.Some? {
      RangedCellIdempotent(c, rg.value);
    }
  }

  /** Overwrites, in every row, the cell of parameter `p` with its range-checked value. */
  method CheckColumn(cols: seq<string>, rows: seq<Record>, p: string) returns (out: seq<Record>)
    requires p in cols && p in RangeParams
    ensures |out| == |rows|
    ensures forall i :: 0 <= i < |rows| ==> SameShape(out[i], rows[i])
    ensures forall i, q :: 0 <= i < |rows| ==>
      Get(out[i], q) == if q == p then RangeChecked(cols, p, Get(rows[i], p)) else Get(rows[i], q)
  {
    var rg := RangeOf(p).value;
    out := rows;
    for i := 0 to |rows|
      invariant |out| == |rows|
      invariant forall j :: 0 <= j < |rows| ==> SameShape(out[j], rows[j])
      invariant forall j, q :: 0 <= j < i ==>
        Get(out[j], q) == if q == p then RangeChecked(cols, p, Get(rows[j], p)) else Get(rows[j], q)
      invariant forall j :: i <= j < |rows| ==> out[j] == rows[j]
    {
      var c := Get(rows[i], p);
      if c.Num? {
        out := out[i := SetCell(rows[i], p, RangedCell(c, rg))];
      }
    }
  }

  /** After one more column pass, the parameters checked so far include `p`. */
  lemma ColumnStep(cols: seq<string>, orig: seq<Record>, before: seq<Record>, after: seq<Record>, done: seq<string>, p: string)
    requires |before| == |orig| && |after| == |orig|
    requires forall i, q :: 0 <= i < |orig| ==>
      Get(before[i], q) == if q in done then RangeChecked(cols, q, Get(orig[i], q)) else Get(orig[i], q)
    requires forall i, q :: 0 <= i < |orig| ==>
      Get(after[i], q) == if q == p then RangeChecked(cols, p, Get(before[i], p)) else Get(before[i], q)
    ensures forall i, q :: 0 <= i < |orig| ==>
      Get(after[i], q) == if q in done + [p] then RangeChecked(cols, q, Get(orig[i], q)) else Get(orig[i], q)
  {
    forall i, q | 0 <= i < |orig|
      ensures Get(after[i], q) == if q in done + [p] then RangeChecked(cols, q, Get(orig[i], q)) else Get(orig[i], q)
    {
      var c := Get(orig[i], q);
      assert (q in done + [p]) == (q in done || q == p);
      if q == p {
        assert Get(before[i], p) == if p in done then RangeChecked(cols, p, c) else c;
        RangeCheckedIdempotent(cols, p, c);
      } else {
        assert Get(after[i], q) == Get(before[i], q);
      }
    }
  }

  /**
   * Checks every parameter that has a range and is a column of the frame,
   * one column at a time; no other cell changes.
   */
  method ValidateRanges(f: Frame) returns (g: Frame)
    ensures g.columns == f.columns && |g.rows| == |f.rows|
    ensures forall i :: 0 <= i < |f.rows| ==> SameShape(g.rows[i], f.rows[i])
    ensures forall i, p :: 0 <= i < |f.rows| ==> Get(g.rows[i], p) == RangeChecked(f.columns, p, Get(f.rows[i], p))
  {
    var rows := f.rows;
    for k := 0 to |RangeParams|
      invariant |rows| == |f.rows|
      invariant forall i :: 0 <= i < |f.rows| ==> SameShape(rows[i], f.rows[i])
      invariant forall i, p :: 0 <= i < |f.rows| ==>
        Get(rows[i], p) == if p in RangeParams[..k] then RangeChecked(f.columns, p, Get(f.rows[i], p)) else Get(f.rows[i], p)
    {
      var p := RangeParams[k];
      assert RangeParams[..k + 1] == RangeParams[..k] + [p];
      var before := rows;
      if p in f.columns {
        rows := CheckColumn(f.columns, rows, p);
      }
      ColumnStep(f.columns, f.rows, before, rows, RangeParams[..k], p);
    }
    assert RangeParams[..|RangeParams|] == RangeParams;
    g := Frame(f.columns, rows);
    forall i, p | 0 <= i < |f.rows|
      ensures Get(g.rows[i], p) == RangeChecked(f.columns, p, Get(f.rows[i], p))
    {
      assert Get(rows[i], p) == if p in RangeParams then RangeChecked(f.columns, p, Get(f.rows[i], p)) else Get(f.rows[i], p);
    }
  }
}
