/**
 * What the chart components share: the two parameter groups they offer and
 * the station list, the distinct STATION values of the records sorted with
 * JavaScript's default `sort()`.
 */
module ChartData {
  import opened Strings
  import opened Sorting
  import opened Cells

  /** The pollutant group, in the order the charts list it. */
  const Contaminantes: seq<string> := ["O3", "NO", "NO2", "NOX", "SO2", "CO", "PM10", "PM2.5"]

  /** The meteorological group, in the order the charts list it. */
  const Meteorologicos: seq<string> := ["IT", "ET", "RH", "WS", "WD", "PP", "ATM", "RS", "UVI"]

  lemma AtMostTotalPreorder()
    ensures TotalPreorder(AtMost)
  {
    forall a: string, b: string ensures AtMost(a, b) || AtMost(b, a) {
      AtMostTotal(a, b);
    }
    forall a: string, b: string, c: string | AtMost(a, b) && AtMost(b, c) ensures AtMost(a, c) {
      AtMostTransitive(a, b, c);
    }
  }

  /** A duplicate-free sequence holds each value at most once. */
  lemma {:induction false} DistinctCount<T>(s: seq<T>, x: T)
    requires Distinct(s)
    ensures multiset(s)[x] <= 1
    decreases |s|
  {
    if s != [] {
      var front := s[..|s| - 1];
      assert s == front + [s[|s| - 1]];
      assert Distinct(front);
      DistinctCount(front, x);
      if x == s[|s| - 1] {
        assert x !in front;
      }
    }
  }

  /** Rearranging a duplicate-free sequence leaves it duplicate-free. */
  lemma PermutationDistinct<T>(u: seq<T>, r: seq<T>)
    requires Distinct(u)
    requires multiset(r) == multiset(u)
    ensures Distinct(r)
  {
    forall i, j | 0 <= i < j < |r| ensures r[i] != r[j] {
      if r[i] == r[j] {
        var x := r[i];
        assert r == r[..j] + r[j..];
        assert x in r[..j];
        assert x in r[j..];
        assert multiset(r)[x] == multiset(r[..j])[x] + multiset(r[j..])[x];
        DistinctCount(u, x);
        assert false;
      }
    }
  }

  /** The de-duplicated STATION values, sorted in code-point order. */
  function SortedStations(rows: seq<Record>): (r: seq<string>)
    ensures StrictlySorted(r)
    ensures forall s :: s in r <==> exists i :: 0 <= i < |rows| && rows[i].station == s
  {
    AtMostTotalPreorder();
    var u := Unique(StationsOf(rows));
    var r := Sort(u, AtMost);
    SortedDistinctStrict(u, r);
    forall s ensures s in r <==> s in StationsOf(rows) {
      SameElements(u, r, s);
    }
    StationMembership(rows, r);
    r
  }

  /** A sorted rearrangement of a duplicate-free list is strictly increasing. */
  lemma SortedDistinctStrict(u: seq<string>, r: seq<string>)
    requires Distinct(u)
    requires multiset(r) == multiset(u) && SortedBy(r, AtMost)
    ensures StrictlySorted(r)
  {
    PermutationDistinct(u, r);
    forall i, j | 0 <= i < j < |r| ensures Below(r[i], r[j]) {
      assert AtMost(r[i], r[j]) && r[i] != r[j];
    }
  }

  lemma StationMembership(rows: seq<Record>, r: seq<string>)
    requires forall s :: s in r <==> s in StationsOf(rows)
    ensures forall s :: s in r <==> exists i :: 0 <= i < |rows| && rows[i].station == s
  {
    forall s | exists i :: 0 <= i < |rows| && rows[i].station == s ensures s in r {
      var i :| 0 <= i < |rows| && rows[i].station == s;
      assert StationsOf(rows)[i] == s;
    }
  }

  /** Two duplicate-free lists of the same entries are rearrangements of each other. */
  lemma DistinctSameElements(s: seq<string>, t: seq<string>)
    requires Distinct(s) && Distinct(t)
    requires forall c :: c in s <==> c in t
    ensures multiset(s) == multiset(t)
  {
    forall c ensures multiset(s)[c] == multiset(t)[c] {
      DistinctCount(s, c);
      DistinctCount(t, c);
      assert c in s <==> c in multiset(s);
      assert c in t <==> c in multiset(t);
    }
  }

  /** A strictly increasing list holding exactly two values, the first below the second, is those two in order. */
  lemma SortedPair(r: seq<string>, x: string, y: string)
    requires StrictlySorted(r) && Below(x, y)
    requires forall s :: s in r <==> s == x || s == y
    ensures r == [x, y]
  {
    BelowIrreflexive(x);
    BelowAsymmetric(x, y);
    StrictlySortedDistinct(r);
    DistinctSameElements(r, [x, y]);
    assert |r| == |multiset(r)| == 2;
    assert r[0] in r && r[1] in r;
    assert Below(r[0], r[1]);
    assert r[0] == x;
  }

  /** Records of stations ZAR, ABC, ABC list the stations as ABC, ZAR. */
  lemma StationsExample(rows: seq<Record>)
    requires |rows| == 3 && rows[0].station == "ZAR" && rows[1].station == "ABC" && rows[2].station == "ABC"
    ensures SortedStations(rows) == ["ABC", "ZAR"]
  {
    var r := SortedStations(rows);
    forall s ensures s in r <==> s == "ABC" || s == "ZAR" {
      assert rows[0].station == "ZAR" && rows[1].station == "ABC";
    }
    assert Below("ABC", "ZAR");
    SortedPair(r, "ABC", "ZAR");
  }
}
