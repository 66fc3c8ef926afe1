/**
 * The complete validation: range check, then cabin temperature, then the
 * time-series rules, each on the frame the previous one left.
 */
module FullValidation {
  import opened Cells
  import opened Config
  import opened RangeValidation
  import opened CabinTemperature
  import opened TimeSeries

  /** The flags a validation rule writes over a reading. */
  predicate RuleFlag(c: Cell)
  {
    c == Text("IR") || c == Text("IO") || c == Text("DS")
  }

  /**
   * Only readings change: a flag or an empty cell of the input is kept, a
   * reading becomes IR, IO or DS or stays a reading, and a reading of a
   * parameter with an operating range that survives lies inside the range
   * and at or above the detection limit.
   */
  method ValidateAll(f: Frame) returns (g: Frame)
    ensures g.columns == f.columns && |g.rows| == |f.rows|
    ensures forall i :: 0 <= i < |f.rows| ==> SameShape(g.rows[i], f.rows[i])
    ensures forall i, p :: 0 <= i < |f.rows| && !Get(f.rows[i], p).Num? ==> Get(g.rows[i], p) == Get(f.rows[i], p)
    ensures forall i, p :: 0 <= i < |f.rows| && Get(f.rows[i], p).Num? ==> Get(g.rows[i], p).Num? || RuleFlag(Get(g.rows[i], p))
    ensures forall i, p :: 0 <= i < |f.rows| && Get(g.rows[i], p).Num? && p in f.columns && RangeOf(p).Some? ==>
      InRange(Get(g.rows[i], p).r, RangeOf(p).value)
  {
    var ranged := ValidateRanges(f);
    var cabin := ValidateCabin(ranged);
    g := ValidateSeries(cabin);
    StagesCompose(f, ranged, cabin, g);
  }

  /** The cell-by-cell promises of the three stages give the promises of the whole run. */
  lemma StagesCompose(f: Frame, ranged: Frame, cabin: Frame, g: Frame)
    requires ranged.columns == f.columns && |ranged.rows| == |f.rows|
    requires forall i, p :: 0 <= i < |f.rows| ==> Get(ranged.rows[i], p) == RangeChecked(f.columns, p, Get(f.rows[i], p))
    requires |cabin.rows| == |ranged.rows|
    requires forall i, p :: 0 <= i < |ranged.rows| ==> Get(cabin.rows[i], p) == CabinChecked(ranged.columns, ranged.rows[i], p)
    requires |g.rows| == |cabin.rows|
    requires forall i, p :: 0 <= i < |cabin.rows| ==> Get(g.rows[i], p) == SeriesCell(cabin, i, p)
    ensures forall i, p :: 0 <= i < |f.rows| && !Get(f.rows[i], p).Num? ==> Get(g.rows[i], p) == Get(f.rows[i], p)
    ensures forall i, p :: 0 <= i < |f.rows| && Get(f.rows[i], p).Num? ==> Get(g.rows[i], p).Num? || RuleFlag(Get(g.rows[i], p))
    ensures forall i, p :: 0 <= i < |f.rows| && Get(g.rows[i], p).Num? && p in f.columns && RangeOf(p).Some? ==>
      InRange(Get(g.rows[i], p).r, RangeOf(p).value)
  {
    forall i, p | 0 <= i < |f.rows|
      ensures !Get(f.rows[i], p).Num? ==> Get(g.rows[i], p) == Get(f.rows[i], p)
      ensures Get(f.rows[i], p).Num? ==> Get(g.rows[i], p).Num? || RuleFlag(Get(g.rows[i], p))
      ensures Get(g.rows[i], p).Num? && p in f.columns && RangeOf(p).Some? ==> InRange(Get(g.rows[i], p).r, RangeOf(p).value)
    {
      CellStages(f.columns, p, Get(f.rows[i], p), ranged.rows[i], cabin, i, Get(g.rows[i], p));
    }
  }

  /** One cell through the three stages. */
  lemma CellStages(cols: seq<string>, p: string, c0: Cell, r1: Record, cabin: Frame, i: int, c3: Cell)
    requires Get(r1, p) == RangeChecked(cols, p, c0)
    requires 0 <= i < |cabin.rows| && Get(cabin.rows[i], p) == CabinChecked(cols, r1, p)
    requires c3 == SeriesCell(cabin, i, p)
    ensures !c0.Num? ==> c3 == c0
    ensures c0.Num? ==> c3.Num? || RuleFlag(c3)
    ensures c3.Num? && p in cols && RangeOf(p).Some? ==> InRange(c3.r, RangeOf(p).value)
  {
    var c1, c2 := Get(r1, p), Get(cabin.rows[i], p);
    RangeStep(cols, p, c0, c1);
    CabinStep(cols, r1, p, c2);
    SeriesCellRefines(cabin, i, p);
    ChainRefines(c0, c1, c2, c3);
  }

  lemma RangeStep(cols: seq<string>, p: string, c0: Cell, c1: Cell)
    requires c1 == RangeChecked(cols, p, c0)
    ensures c1 != c0 ==> c0.Num? && (c1.Num? || c1 == Text("IR"))
    ensures c1.Num? && p in cols && RangeOf(p).Some? ==> InRange(c1.r, RangeOf(p).value)
  {
  }

  lemma CabinStep(cols: seq<string>, r: Record, p: string, c2: Cell)
    requires c2 == CabinChecked(cols, r, p)
    ensures c2 != Get(r, p) ==> Get(r, p).Num? && c2 == Text("IO")
  {
  }

  /** Three steps that each only turn readings into rule flags or other readings compose. */
  lemma ChainRefines(c0: Cell, c1: Cell, c2: Cell, c3: Cell)
    requires c1 != c0 ==> c0.Num? && (c1.Num? || c1 == Text("IR"))
    requires c2 != c1 ==> c1.Num? && c2 == Text("IO")
    requires c3 != c2 ==> c2.Num? && (c3 == Text("IO") || c3 == Text("DS"))
    ensures !c0.Num? ==> c3 == c0
    ensures c0.Num? ==> c3.Num? || RuleFlag(c3)
    ensures c3.Num? ==> c3 == c2 && c2 == c1
  {
  }

  /** A surviving reading respects the operating range and the detection limit. */
  predicate InRange(x: real, rg: Range)
  {
    rg.lo <= x <= rg.hi && (rg.limit.Some? ==> rg.limit.value <= x)
  }
}
