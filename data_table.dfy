/**
 * The data table: the order of its columns, the page it shows, the page
 * navigation, and how a cell is printed and coloured.
 */
module DataTable {
  import opened Strings
  import opened Cells
  import opened Numbers
  import opened ChartData

  // ---------------------------------------------------------------------
  // Column order

  /** The column order of the base workbook. */
  const ColumnOrder: seq<string> := ["STATION", "DATE", "HOUR", "O3", "NO", "NO2", "NOX", "SO2", "CO",
                                     "PM10", "PM2.5", "IT", "ET", "RH", "WS", "WD", "PP", "ATM", "RS", "UVI"]

  /** The entries of `order` that are keys of the record, in the order of `order`. */
  function Known(order: seq<string>, keys: seq<string>): (r: seq<string>)
    ensures forall c :: c in r <==> c in order && c in keys
  {
    if order == [] then []
    else Known(order[..|order| - 1], keys) + (if order[|order| - 1] in keys then [order[|order| - 1]] else [])
  }

  /** `acc` followed by the entries of `cols` it does not hold yet, each added once. */
  function AddMissing(acc: seq<string>, cols: seq<string>): (r: seq<string>)
    ensures forall c :: c in r <==> c in acc || c in cols
  {
    if cols == [] then acc
    else
      var a := AddMissing(acc, cols[..|cols| - 1]);
      var c := cols[|cols| - 1];
      if c in a then a else a + [c]
  }

  /** The displayed columns: the given list if there is one, else the known keys in order and then the others. */
  function OrderedColumns(columns: Option<seq<string>>, keys: seq<string>): seq<string>
  {
    match columns
    case Some(cs) => cs
    case None => AddMissing(Known(ColumnOrder, keys), keys)
  }

  /** Builds the column list with the two passes of pushes. */
  method GetOrderedColumns(columns: Option<seq<string>>, keys: seq<string>) returns (ordered: seq<string>)
    ensures ordered == OrderedColumns(columns, keys)
  {
    if columns.Some? {
      return columns.value;
    }
    var known := KnownPass(ColumnOrder, keys);
    ordered := MissingPass(known, keys);
  }

  /** The first pass: push each entry of `order` that is a key of the record. */
  method KnownPass(order: seq<string>, keys: seq<string>) returns (ordered: seq<string>)
    ensures ordered == Known(order, keys)
  {
    ordered := [];
    for k := 0 to |order|
      invariant ordered == Known(order[..k], keys)
    {
      assert order[..k + 1][..k] == order[..k];
      if order[k] in keys {
        ordered := ordered + [order[k]];
      }
    }
    assert order[..|order|] == order;
  }

  /** The second pass: push each key not listed yet. */
  method MissingPass(known: seq<string>, keys: seq<string>) returns (ordered: seq<string>)
    ensures ordered == AddMissing(known, keys)
  {
    ordered := known;
    for k := 0 to |keys|
      invariant ordered == AddMissing(known, keys[..k])
    {
      assert keys[..k + 1][..k] == keys[..k];
      if keys[k] !in ordered {
        ordered := ordered + [keys[k]];
      }
    }
    assert keys[..|keys|] == keys;
  }

  /** The entries of `cols` outside `acc`, in order. */
  function Outside(cols: seq<string>, acc: seq<string>): (r: seq<string>)
    ensures forall c :: c in r <==> c in cols && c !in acc
  {
    if cols == [] then []
    else Outside(cols[..|cols| - 1], acc) + (if cols[|cols| - 1] in acc then [] else [cols[|cols| - 1]])
  }

  /** With duplicate-free columns, the second pass appends exactly the columns not yet listed, in their order. */
  lemma {:induction false} AddMissingAppends(acc: seq<string>, cols: seq<string>)
    requires Distinct(cols)
    ensures AddMissing(acc, cols) == acc + Outside(cols, acc)
    decreases |cols|
  {
    if cols != [] {
      var front, c := cols[..|cols| - 1], cols[|cols| - 1];
      assert Distinct(front);
      AddMissingAppends(acc, front);
      assert c !in front;
    }
  }

  /** Two filters that agree on every entry of `cols` select the same entries. */
  lemma {:induction false} OutsideAgrees(cols: seq<string>, a: seq<string>, b: seq<string>)
    requires forall c :: c in cols ==> (c in a <==> c in b)
    ensures Outside(cols, a) == Outside(cols, b)
    decreases |cols|
  {
    if cols != [] {
      OutsideAgrees(cols[..|cols| - 1], a, b);
    }
  }

  lemma {:induction false} KnownDistinct(order: seq<string>, keys: seq<string>)
    requires Distinct(order)
    ensures Distinct(Known(order, keys))
    decreases |order|
  {
    if order != [] {
      var front := order[..|order| - 1];
      assert Distinct(front);
      KnownDistinct(front, keys);
      assert order[|order| - 1] !in front;
    }
  }

  lemma {:induction false} OutsideDistinct(cols: seq<string>, acc: seq<string>)
    requires Distinct(cols)
    ensures Distinct(Outside(cols, acc))
    decreases |cols|
  {
    if cols != [] {
      var front := cols[..|cols| - 1];
      assert Distinct(front);
      OutsideDistinct(front, acc);
      assert cols[|cols| - 1] !in front;
    }
  }

  /** The workbook column order names each column once. */
  lemma ColumnOrderDistinct()
    ensures Distinct(ColumnOrder)
  {
    NamesDistinct(ColumnOrder);
  }

  lemma NamesDistinct(s: seq<string>)
    requires s == ["STATION", "DATE", "HOUR", "O3", "NO", "NO2", "NOX", "SO2", "CO",
                   "PM10", "PM2.5", "IT", "ET", "RH", "WS", "WD", "PP", "ATM", "RS", "UVI"]
    ensures Distinct(s)
  {
  }

  /**
   * Without a given list, the columns are the record's keys rearranged: the
   * keys named in the workbook order come first, in that order, and the
   * others follow in the record's own order.
   */
  lemma OrderedColumnsPermutation(keys: seq<string>)
    requires Distinct(keys)
    ensures OrderedColumns(None, keys) == Known(ColumnOrder, keys) + Outside(keys, ColumnOrder)
    ensures Distinct(OrderedColumns(None, keys))
    ensures multiset(OrderedColumns(None, keys)) == multiset(keys)
  {
    var known := Known(ColumnOrder, keys);
    AddMissingAppends(known, keys);
    OutsideAgrees(keys, known, ColumnOrder);
    var r := OrderedColumns(None, keys);
    ColumnOrderDistinct();
    KnownDistinct(ColumnOrder, keys);
    OutsideDistinct(keys, ColumnOrder);
    assert forall i :: 0 <= i < |known| ==> known[i] in ColumnOrder;
    DistinctSameElements(r, keys);
  }

  // ---------------------------------------------------------------------
  // Pagination

  /** Rows per page: 100 when the whole table is asked for, else the `maxRows` setting (50 by default). */
  function RowsPerPage(showAll: bool, maxRows: nat): nat
  {
    if showAll then 100 else maxRows
  }

  /** `Math.ceil(total / perPage)`. */
  function TotalPages(total: nat, perPage: nat): (n: nat)
    requires perPage > 0
    ensures (n - 1) * perPage < total <= n * perPage || (total == 0 && n == 0)
  {
    (total + perPage - 1) / perPage
  }

  /** The index of the first row of the page. */
  function StartIndex(page: nat, perPage: nat): nat
  {
    page * perPage
  }

  /** One past the last row of the page. */
  function EndIndex(page: nat, perPage: nat, total: nat): (e: nat)
    ensures e <= total
  {
    if StartIndex(page, perPage) + perPage < total then StartIndex(page, perPage) + perPage else total
  }

  /** `Array.prototype.slice` from `start` to `end`, clamped to the array. */
  function Slice<T>(data: seq<T>, start: nat, end: nat): (r: seq<T>)
  {
    var e := if end < |data| then end else |data|;
    if start < e then data[start..e] else []
  }

  /** The rows of the page. */
  function PageRows<T>(data: seq<T>, page: nat, perPage: nat): seq<T>
  {
    Slice(data, StartIndex(page, perPage), EndIndex(page, perPage, |data|))
  }

  /**
   * A page holds at most `perPage` rows, and every page before the last is full;
   * a page of the table starts inside it.
   */
  lemma PageBounds<T>(data: seq<T>, page: nat, perPage: nat)
    requires perPage > 0
    ensures |PageRows(data, page, perPage)| <= perPage
    ensures page < TotalPages(|data|, perPage) ==> StartIndex(page, perPage) < |data|
    ensures page + 1 < TotalPages(|data|, perPage) ==> |PageRows(data, page, perPage)| == perPage
  {
    var n := TotalPages(|data|, perPage);
    if page < n {
      assert page <= n - 1;
      MulMonotone(page, n - 1, perPage);
    }
    if page + 1 < n {
      MulMonotone(page + 1, n - 1, perPage);
      assert (page + 1) * perPage == page * perPage + perPage;
    }
  }

  lemma MulMonotone(a: nat, b: nat, k: nat)
    requires a <= b
    ensures a * k <= b * k
  {
  }

  /** The rows of pages 0 to n - 1, in order. */
  function Pages<T>(data: seq<T>, n: nat, perPage: nat): seq<T>
  {
    if n == 0 then [] else Pages(data, n - 1, perPage) + PageRows(data, n - 1, perPage)
  }

  /** Reading the pages in turn shows every row once, in order. */
  lemma PagesCover<T>(data: seq<T>, perPage: nat)
    requires perPage > 0
    ensures Pages(data, TotalPages(|data|, perPage), perPage) == data
  {
    var n := TotalPages(|data|, perPage);
    PagesPrefix(data, n, perPage);
    if n > 0 {
      assert EndIndex(n - 1, perPage, |data|) == |data| by {
        assert (n - 1) * perPage + perPage == n * perPage;
      }
    }
    assert data[..|data|] == data;
  }

  /** The first n pages are the rows up to the end of page n - 1. */
  lemma {:induction false} PagesPrefix<T>(data: seq<T>, n: nat, perPage: nat)
    requires perPage > 0
    requires n <= TotalPages(|data|, perPage)
    ensures Pages(data, n, perPage) == data[..if n == 0 then 0 else EndIndex(n - 1, perPage, |data|)]
    decreases n
  {
    if n > 0 {
      PagesPrefix(data, n - 1, perPage);
      PageJoins(data, n - 1, perPage);
      var s := StartIndex(n - 1, perPage);
      var e := EndIndex(n - 1, perPage, |data|);
      assert data[..e] == data[..s] + data[s..e];
    }
  }

  /** Page m starts where page m - 1 ends and holds the rows in between. */
  lemma PageJoins<T>(data: seq<T>, m: nat, perPage: nat)
    requires perPage > 0 && m < TotalPages(|data|, perPage)
    ensures m > 0 ==> EndIndex(m - 1, perPage, |data|) == StartIndex(m, perPage)
    ensures m == 0 ==> StartIndex(m, perPage) == 0
    ensures StartIndex(m, perPage) < EndIndex(m, perPage, |data|)
    ensures PageRows(data, m, perPage) == data[StartIndex(m, perPage)..EndIndex(m, perPage, |data|)]
  {
    PageBounds(data, m, perPage);
    if m > 0 {
      assert (m - 1) * perPage + perPage == m * perPage;
    }
  }

  // ---------------------------------------------------------------------
  // Navigation

  /** The previous-page button. */
  function PrevPage(p: int): int
  {
    if p - 1 > 0 then p - 1 else 0
  }

  /** The next-page button. */
  function NextPage(p: int, totalPages: int): int
  {
    if totalPages - 1 < p + 1 then totalPages - 1 else p + 1
  }

  /** Typing a page: `typed` is what `parseInt` gave, None for NaN; only 1 to totalPages is taken. */
  function TypedPage(typed: Option<int>, p: int, totalPages: int): int
  {
    if typed.Some? && 1 <= typed.value <= totalPages then typed.value - 1 else p
  }

  /** Leaving the page field: NaN or below 1 goes to the first page, above the last to the last. */
  function BlurPage(typed: Option<int>, p: int, totalPages: int): int
  {
    if typed.None? || typed.value < 1 then 0
    else if typed.value > totalPages then totalPages - 1
    else p
  }

  /** Every navigation step keeps the page inside 0 to totalPages - 1. */
  lemma NavigationInRange(p: int, totalPages: int, typed: Option<int>)
    requires 0 <= p < totalPages
    ensures 0 <= PrevPage(p) < totalPages && 0 <= NextPage(p, totalPages) < totalPages
    ensures 0 <= TypedPage(typed, p, totalPages) < totalPages
    ensures 0 <= BlurPage(typed, p, totalPages) < totalPages
    ensures PrevPage(p) == (if p == 0 then 0 else p - 1)
    ensures NextPage(p, totalPages) == (if p == totalPages - 1 then p else p + 1)
    ensures typed.Some? && 1 <= typed.value <= totalPages ==> TypedPage(typed, p, totalPages) == typed.value - 1
  {
  }

  // ---------------------------------------------------------------------
  // Cells

  /** The decimals each known column is printed with. */
  const Decimals: map<string, nat> := map[
    "O3" := 3, "NO" := 3, "NO2" := 3, "NOX" := 3, "SO2" := 3, "CO" := 2,
    "PM10" := 0, "PM2.5" := 0, "IT" := 2, "ET" := 2, "RH" := 1,
    "WS" := 1, "WD" := 1, "PP" := 2, "ATM" := 1, "RS" := 1, "UVI" := 2, "HOUR" := 0]

  /**
   * The text of a cell: '-' for an empty cell, a text (a flag among them) as
   * it is, a number with its column's decimals, or with `show` (the
   * platform's number printing) in other columns.
   */
  function FormatValue(c: Cell, column: string, show: real -> string): (t: string)
    ensures c.Empty? ==> t == "-"
    ensures c.Text? ==> t == c.s
    ensures c.Num? && column in Decimals ==> ParseDecimal(t) == Some(ToFixed(c.r, Decimals[column]))
    ensures c.Num? && column in Decimals ==> FixedShape(t, Decimals[column])
  {
    match c
    case Empty => "-"
    case Text(s) => s
    case Num(x) =>
      if column in Decimals then
        FixedTextRoundTrip(x, Decimals[column]);
        FixedTextShape(x, Decimals[column]);
        FixedText(x, Decimals[column])
      else show(x)
  }

  /** The class of each flag. */
  const FlagClasses: map<string, string> := map[
    "IR" := "bg-red-500 text-white font-bold", "IO" := "bg-orange-500 text-white font-bold",
    "IF" := "bg-red-600 text-white font-bold", "IC" := "bg-yellow-500 text-white font-bold",
    "ND" := "bg-slate-400 text-white font-bold", "DS" := "bg-purple-500 text-white font-bold",
    "VZ" := "bg-blue-500 text-white font-bold", "VE" := "bg-pink-500 text-white font-bold",
    "SE" := "bg-gray-500 text-white font-bold", "NE" := "bg-gray-600 text-white font-bold"]

  const PlainClass := "text-slate-700"

  /** The number styling of each parameter group; other columns get the plain class. */
  function NumberClass(column: string): string
  {
    if column in ["O3", "NO", "NO2", "NOX", "SO2", "CO"] then "text-green-700 bg-green-50"
    else if column in ["PM10", "PM2.5"] then "text-orange-700 bg-orange-50"
    else if column in ["IT", "ET"] then "text-red-700 bg-red-50"
    else if column in ["RH", "WS", "WD", "PP", "ATM", "RS", "UVI"] then "text-purple-700 bg-purple-50"
    else PlainClass
  }

  /**
   * The class of a cell. A flag text gets its flag's class first. A number,
   * an empty cell (`Number(null)` is 0) and a text that `numberLike` says
   * `Number()` reads as a number get their column's number styling.
   */
  function CellClass(c: Cell, column: string, numberLike: string -> bool): string
  {
    if c.Text? && c.s in FlagClasses then FlagClasses[c.s]
    else if c.Num? || c.Empty? || (c.Text? && numberLike(c.s)) then NumberClass(column)
    else PlainClass
  }

  /**
   * The flag classes are exactly those of the ten flag codes, a flag's class
   * wins over any number styling of its column, and no flag class is a
   * number or plain class.
   */
  lemma FlagClassFirst(code: string, column: string, numberLike: string -> bool)
    ensures FlagClasses.Keys == set f | f in FlagCodes
    ensures IsFlag(code) ==> CellClass(Text(code), column, numberLike) == FlagClasses[code]
    ensures IsFlag(code) ==> CellClass(Text(code), column, numberLike) != NumberClass(column)
    ensures !IsFlag(code) ==> CellClass(Text(code), column, numberLike) in {NumberClass(column), PlainClass}
  {
    FlagClassKeys();
    if IsFlag(code) {
      FlagClassNotNumber(code, column);
    }
  }

  lemma FlagClassKeys()
    ensures forall f :: f in FlagClasses <==> f in FlagCodes
    ensures FlagClasses.Keys == set f | f in FlagCodes
  {
    assert forall f :: f in FlagCodes <==> f in FlagClasses;
  }

  lemma FlagClassNotNumber(f: string, column: string)
    requires f in FlagClasses
    ensures FlagClasses[f] != NumberClass(column) && FlagClasses[f] != PlainClass
  {
  }
}
