/**
 * Arithmetic on readings: sums, extremes and means of samples, JavaScript's
 * `toFixed` rounding both as a value and as the text it prints, the decimal
 * rendering of whole numbers, and the decimal-literal grammar that Python's
 * `float()` accepts for finite values.
 */
module Numbers {
  import opened Cells

  function Sum(s: seq<real>): real
  {
    if s == [] then 0.0 else Sum(s[..|s| - 1]) + s[|s| - 1]
  }

  function SeqMin(s: seq<real>): (m: real)
    requires |s| > 0
    ensures m in s
    ensures forall i :: 0 <= i < |s| ==> m <= s[i]
  {
    if |s| == 1 then s[0]
    else
      var m := SeqMin(s[..|s| - 1]);
      assert forall i :: 0 <= i < |s| - 1 ==> s[..|s| - 1][i] == s[i];
      if s[|s| - 1] < m then s[|s| - 1] else m
  }

  function SeqMax(s: seq<real>): (m: real)
    requires |s| > 0
    ensures m in s
    ensures forall i :: 0 <= i < |s| ==> s[i] <= m
  {
    if |s| == 1 then s[0]
    else
      var m := SeqMax(s[..|s| - 1]);
      assert forall i :: 0 <= i < |s| - 1 ==> s[..|s| - 1][i] == s[i];
      if s[|s| - 1] > m then s[|s| - 1] else m
  }

  function Mean(s: seq<real>): real
    requires |s| > 0
  {
    Sum(s) / |s| as real
  }

  /** A sum lies between the count times the smallest and the count times the largest element. */
  lemma {:induction false} SumBounds(s: seq<real>, lo: real, hi: real)
    requires forall i :: 0 <= i < |s| ==> lo <= s[i] <= hi
    ensures |s| as real * lo <= Sum(s) <= |s| as real * hi
    decreases |s|
  {
    if s != [] {
      var front := s[..|s| - 1];
      assert forall i :: 0 <= i < |front| ==> front[i] == s[i];
      SumBounds(front, lo, hi);
      assert |s| as real * lo == |front| as real * lo + lo;
      assert |s| as real * hi == |front| as real * hi + hi;
    }
  }

  /** A mean lies within any bounds that hold for every element. */
  lemma MeanWithin(s: seq<real>, lo: real, hi: real)
    requires |s| > 0
    requires forall i :: 0 <= i < |s| ==> lo <= s[i] <= hi
    ensures lo <= Mean(s) <= hi
  {
    SumBounds(s, lo, hi);
    DivideBounds(Sum(s), |s| as real, lo, hi);
  }

  /** The mean of a sample lies between its minimum and its maximum. */
  lemma MeanBetweenExtremes(s: seq<real>)
    requires |s| > 0
    ensures SeqMin(s) <= Mean(s) <= SeqMax(s)
  {
    MeanWithin(s, SeqMin(s), SeqMax(s));
  }

  /** n·lo <= x <= n·hi gives lo <= x/n <= hi for a positive n. */
  lemma DivideBounds(x: real, n: real, lo: real, hi: real)
    requires n > 0.0
    requires n * lo <= x <= n * hi
    ensures lo <= x / n <= hi
  {
    var q := x / n;
    assert (q - lo) * n == x - n * lo;
    assert (hi - q) * n == n * hi - x;
  }

  /** Dividing by a positive number keeps the order. */
  lemma DivideMonotone(a: real, b: real, p: real)
    requires p > 0.0 && a <= b
    ensures a / p <= b / p
  {
    assert (b / p - a / p) * p == b - a;
  }

  /** Sum of squared deviations from `m`, in sample order. */
  function SquaredDeviations(s: seq<real>, m: real): real
  {
    if s == [] then 0.0 else SquaredDeviations(s[..|s| - 1], m) + (s[|s| - 1] - m) * (s[|s| - 1] - m)
  }

  lemma {:induction false} SquaredDeviationsNonNegative(s: seq<real>, m: real)
    ensures SquaredDeviations(s, m) >= 0.0
    decreases |s|
  {
    if s != [] {
      SquaredDeviationsNonNegative(s[..|s| - 1], m);
      var d := s[|s| - 1] - m;
      assert d * d >= 0.0;
    }
  }

  // ---------------------------------------------------------------------
  // toFixed

  /** 10^k as a whole number. */
  function Ten(k: nat): (t: nat)
    ensures t >= 1
  {
    if k == 0 then 1 else 10 * Ten(k - 1)
  }

  function Pow10(d: nat): (p: real)
    ensures p >= 1.0
  {
    Ten(d) as real
  }

  /** The whole number of units of 10^-d that JavaScript's toFixed(d) prints for |x|. */
  function FixedUnits(x: real, d: nat): nat
  {
    var a := if x < 0.0 then -x else x;
    (a * Pow10(d) + 0.5).Floor
  }

  /**
   * The value of `Number(x.toFixed(d))`: |x| rounded to d decimals with
   * halves going up, then the sign of x put back.
   */
  function ToFixed(x: real, d: nat): real
  {
    var v := FixedUnits(x, d) as real / Pow10(d);
    if x < 0.0 then -v else v
  }

  lemma FloorBounds(y: real)
    ensures y - 1.0 < y.Floor as real <= y
  {
  }

  /** n within half a unit of a·p gives n/p within half of 1/p of a. */
  lemma UnitsBracket(a: real, p: real, n: real)
    requires p > 0.0
    requires a * p - 0.5 < n <= a * p + 0.5
    ensures a - 0.5 / p <= n / p <= a + 0.5 / p
  {
    DivideMonotone(a * p - 0.5, n, p);
    DivideMonotone(n, a * p + 0.5, p);
    assert (a * p - 0.5) / p == a - 0.5 / p;
    assert (a * p + 0.5) / p == a + 0.5 / p;
  }

  /** The rounded value is within half a unit of the last printed decimal. */
  lemma ToFixedClose(x: real, d: nat)
    ensures -(0.5 / Pow10(d)) <= ToFixed(x, d) - x <= 0.5 / Pow10(d)
  {
    var p := Pow10(d);
    var a := if x < 0.0 then -x else x;
    var n := FixedUnits(x, d) as real;
    FloorBounds(a * p + 0.5);
    UnitsBracket(a, p, n);
  }

  lemma {:induction false} FixedUnitsMonotone(a: real, b: real, d: nat)
    requires 0.0 <= a <= b
    ensures FixedUnits(a, d) <= FixedUnits(b, d)
  {
    var p := Pow10(d);
    assert a * p <= b * p by {
      assert (b - a) * p >= 0.0;
    }
    FloorMonotone(a * p + 0.5, b * p + 0.5);
  }

  lemma FloorMonotone(x: real, y: real)
    requires x <= y
    ensures x.Floor <= y.Floor
  {
    FloorBounds(x);
    FloorBounds(y);
  }

  /** Rounding never reverses the order of two readings. */
  lemma ToFixedMonotone(x: real, y: real, d: nat)
    requires x <= y
    ensures ToFixed(x, d) <= ToFixed(y, d)
  {
    var p := Pow10(d);
    if 0.0 <= x {
      FixedUnitsMonotone(x, y, d);
      DivideMonotone(FixedUnits(x, d) as real, FixedUnits(y, d) as real, p);
    } else if y < 0.0 {
      FixedUnitsMonotone(-y, -x, d);
      assert FixedUnits(y, d) == FixedUnits(-y, d) && FixedUnits(x, d) == FixedUnits(-x, d);
      DivideMonotone(FixedUnits(y, d) as real, FixedUnits(x, d) as real, p);
    } else {
      assert ToFixed(x, d) <= 0.0;
      assert 0.0 <= ToFixed(y, d);
    }
  }

  // ---------------------------------------------------------------------
  // Decimal text

  predicate IsDigit(c: char)
  {
    '0' <= c <= '9'
  }

  predicate AllDigits(s: string)
  {
    forall i :: 0 <= i < |s| ==> IsDigit(s[i])
  }

  function DigitValue(c: char): nat
    requires IsDigit(c)
  {
    c as int - '0' as int
  }

  function DigitChar(k: nat): (c: char)
    requires k < 10
    ensures IsDigit(c) && DigitValue(c) == k
  {
    ('0' as int + k) as char
  }

  /** The whole number a string of decimal digits denotes. */
  function DigitsValue(s: string): nat
    requires AllDigits(s)
  {
    if s == [] then 0 else 10 * DigitsValue(s[..|s| - 1]) + DigitValue(s[|s| - 1])
  }

  /** The decimal text of a whole number, without leading zeros ("0" for zero). */
  function NatText(n: nat): (s: string)
    ensures AllDigits(s) && |s| > 0
    ensures DigitsValue(s) == n
    ensures |s| > 1 ==> s[0] != '0'
  {
    if n < 10 then [DigitChar(n)]
    else
      var front := NatText(n / 10);
      var s := front + [DigitChar(n % 10)];
      assert s[..|s| - 1] == front;
      s
  }

  /** Appending digits shifts the value of the front by one place per digit. */
  lemma {:induction false} DigitsValueAppend(a: string, b: string)
    requires AllDigits(a) && AllDigits(b)
    ensures AllDigits(a + b)
    ensures DigitsValue(a + b) == DigitsValue(a) * Ten(|b|) + DigitsValue(b)
    decreases |b|
  {
    if b == [] {
      assert a + b == a;
    } else {
      var b' := b[..|b| - 1];
      var last := b[|b| - 1];
      assert b == b' + [last];
      assert a + b == (a + b') + [last];
      DigitsValueAppend(a, b');
      var va, vb, t := DigitsValue(a), DigitsValue(b'), Ten(|b'|);
      assert DigitsValue(a + b) == 10 * DigitsValue(a + b') + DigitValue(last) by {
        assert ((a + b') + [last])[..|a + b| - 1] == a + b';
      }
      assert DigitsValue(b) == 10 * vb + DigitValue(last) by {
        assert (b' + [last])[..|b| - 1] == b';
      }
      ShiftDigit(va, vb, t);
    }
  }

  /** One more digit multiplies the place value by ten. */
  lemma ShiftDigit(va: int, vb: int, t: int)
    ensures 10 * (va * t + vb) == va * (10 * t) + 10 * vb
  {
  }

  lemma {:induction false} LeadingZerosValue(k: nat, s: string)
    requires AllDigits(s)
    ensures AllDigits(Zeros(k) + s)
    ensures DigitsValue(Zeros(k) + s) == DigitsValue(s)
  {
    DigitsValueAppend(Zeros(k), s);
    ZerosValue(k);
    assert DigitsValue(Zeros(k)) * Ten(|s|) == 0;
  }

  function Zeros(k: nat): (z: string)
    ensures |z| == k && AllDigits(z)
    ensures forall i :: 0 <= i < k ==> z[i] == '0'
  {
    if k == 0 then [] else Zeros(k - 1) + ['0']
  }

  lemma {:induction false} ZerosValue(k: nat)
    ensures DigitsValue(Zeros(k)) == 0
  {
    if k > 0 {
      assert Zeros(k)[..k - 1] == Zeros(k - 1);
      ZerosValue(k - 1);
    }
  }

  /**
   * The text of `x.toFixed(d)`: an optional minus sign (for any negative x,
   * even when it rounds to zero), the whole part, and for d > 0 a point
   * followed by exactly d decimals.
   */
  function FixedText(x: real, d: nat): (t: string)
    ensures |t| > 0
  {
    if x < 0.0 then "-" + FixedBody(x, d) else FixedBody(x, d)
  }

  /** The `toFixed(d)` text has a minus sign exactly for negative x, and d digits after a single point. */
  lemma FixedTextShape(x: real, d: nat)
    ensures FixedShape(FixedText(x, d), d)
    ensures FixedText(x, d)[0] == '-' <==> x < 0.0
  {
    var padded := PaddedUnits(x, d);
    PointedShape(padded, d);
    assert FixedBody(x, d) == Pointed(padded, d);
    assert x < 0.0 ==> FixedText(x, d)[1..] == FixedBody(x, d);
  }

  /**
   * The unsigned shape of a `toFixed(d)` text: a digit run when d is 0,
   * otherwise a non-empty digit run, one point and exactly d digits.
   */
  predicate DecimalsShape(u: string, d: nat)
  {
    if d == 0 then |u| > 0 && AllDigits(u)
    else |u| >= d + 2 && AllDigits(u[..|u| - d - 1]) && u[|u| - d - 1] == '.' && AllDigits(u[|u| - d..])
  }

  /** The shape of a `toFixed(d)` text: an optional minus sign, then the unsigned shape. */
  predicate FixedShape(t: string, d: nat)
  {
    |t| > 0 && (if t[0] == '-' then DecimalsShape(t[1..], d) else DecimalsShape(t, d))
  }

  /** The unsigned part of `x.toFixed(d)`: digits, with a point before the last d of them when d > 0. */
  function FixedBody(x: real, d: nat): (body: string)
    ensures |body| > 0 && IsDigit(body[0])
    ensures forall i :: 0 <= i < |body| ==> body[i] == '.' || IsDigit(body[i])
  {
    var padded := PaddedUnits(x, d);
    Pointed(padded, d)
  }

  /** Putting the point before the last d digits gives the unsigned `toFixed(d)` shape. */
  lemma PointedShape(padded: string, d: nat)
    requires AllDigits(padded) && d < |padded|
    ensures DecimalsShape(Pointed(padded, d), d)
  {
    if d > 0 {
      var u := Pointed(padded, d);
      var n := |padded| - d;
      assert u[..|u| - d - 1] == padded[..n];
      assert u[|u| - d..] == padded[n..];
    }
  }

  /** The padded digit run of `FixedText`: at least d + 1 digits worth the rounded units. */
  function PaddedUnits(x: real, d: nat): (padded: string)
    ensures AllDigits(padded) && |padded| > d
    ensures DigitsValue(padded) == FixedUnits(x, d)
  {
    var digits := NatText(FixedUnits(x, d));
    if |digits| <= d then
      LeadingZerosValue(d + 1 - |digits|, digits);
      Zeros(d + 1 - |digits|) + digits
    else digits
  }

  // ---------------------------------------------------------------------
  // Python's float() on decimal literals

  /** Position of the first character satisfying the given test, or |s| when there is none. */
  function FirstIndex(s: string, isMark: char -> bool): (k: nat)
    ensures k <= |s|
    ensures k < |s| ==> isMark(s[k])
    ensures forall i :: 0 <= i < k ==> !isMark(s[i])
  {
    if s == [] then 0
    else if isMark(s[0]) then 0
    else 1 + FirstIndex(s[1..], isMark)
  }

  /** The first mark is at `k` when none comes before it and `s[k]` is one (or k == |s|). */
  lemma FirstIndexIs(s: string, isMark: char -> bool, k: nat)
    requires k <= |s|
    requires forall i :: 0 <= i < k ==> !isMark(s[i])
    requires k < |s| ==> isMark(s[k])
    ensures FirstIndex(s, isMark) == k
  {
  }

  predicate IsPoint(c: char)
  {
    c == '.'
  }

  predicate IsExponentMark(c: char)
  {
    c == 'e' || c == 'E'
  }

  function PowerOfTen(k: int): (p: real)
    ensures p > 0.0
  {
    if k >= 0 then Pow10(k) else 1.0 / Pow10(-k)
  }

  /**
   * `digits[.digits]` or `.digits`, at least one digit in all: every digit
   * read as one whole number, scaled down by one place per decimal.
   */
  function ParseMantissa(m: string): Option<real>
  {
    var dot := FirstIndex(m, IsPoint);
    var frac := if dot < |m| then m[dot + 1..] else "";
    var digits := m[..dot] + frac;
    if AllDigits(digits) && |digits| > 0 then Some(DigitsValue(digits) as real / Pow10(|frac|))
    else None
  }

  /** `[+|-]digits` */
  function ParseExponent(e: string): Option<int>
  {
    var neg := |e| > 0 && e[0] == '-';
    var digits := if |e| > 0 && (e[0] == '+' || e[0] == '-') then e[1..] else e;
    if |digits| > 0 && AllDigits(digits) then
      Some(if neg then -(DigitsValue(digits) as int) else DigitsValue(digits))
    else None
  }

  /**
   * The value of a finite decimal literal `[+|-]mantissa[(e|E)[+|-]digits]`,
   * None for any other text.
   */
  function ParseDecimal(t: string): Option<real>
  {
    var negative := |t| > 0 && t[0] == '-';
    var body := if |t| > 0 && (t[0] == '+' || t[0] == '-') then t[1..] else t;
    match ParseUnsigned(body)
    case None => None
    case Some(v) => Some(if negative then -v else v)
  }

  /** `mantissa[(e|E)[+|-]digits]` */
  function ParseUnsigned(body: string): Option<real>
  {
    var e := FirstIndex(body, IsExponentMark);
    match ParseMantissa(body[..e])
    case None => None
    case Some(m) =>
      if e == |body| then Some(m)
      else match ParseExponent(body[e + 1..])
           case None => None
           case Some(k) => Some(m * PowerOfTen(k))
  }

  predicate IsDecimalText(t: string)
  {
    ParseDecimal(t).Some?
  }

  /** Whole numbers printed in decimal read back as themselves. */
  lemma NatTextRoundTrip(n: nat)
    ensures ParseDecimal(NatText(n)) == Some(n as real)
  {
    var t := NatText(n);
    DigitsMantissa(t);
    PlainUnsigned(t, n as real);
    SignedDecimal(t, n as real, false);
  }

  /** A run of digits without a point reads as its value. */
  lemma DigitsMantissa(t: string)
    requires AllDigits(t) && |t| > 0
    ensures ParseMantissa(t) == Some(DigitsValue(t) as real)
    ensures forall i :: 0 <= i < |t| ==> t[i] == '.' || IsDigit(t[i])
  {
    assert forall i :: 0 <= i < |t| ==> IsDigit(t[i]);
    FirstIndexIs(t, IsPoint, |t|);
    var dot := FirstIndex(t, IsPoint);
    assert dot == |t|;
    assert t[..dot] + "" == t;
    var v := DigitsValue(t) as real;
    assert v / Pow10(0) == v;
  }

  /** A run of digits with a point before its last `d` of them reads back as their value over 10^d. */
  lemma PointedDigitsValue(padded: string, d: nat)
    requires AllDigits(padded) && d < |padded|
    ensures ParseMantissa(padded[..|padded| - d] + "." + padded[|padded| - d..])
            == Some(DigitsValue(padded) as real / Pow10(d))
  {
    var whole, frac := padded[..|padded| - d], padded[|padded| - d..];
    var m := whole + "." + frac;
    assert padded == whole + frac;
    assert forall i :: 0 <= i < |whole| ==> m[i] == whole[i];
    FirstIndexIs(m, IsPoint, |whole|);
    assert m[..|whole|] == whole && m[|whole| + 1..] == frac;
  }

  /** An unsigned text that starts with a digit reads the same with or without a leading minus sign. */
  lemma SignedDecimal(body: string, v: real, negative: bool)
    requires |body| > 0 && IsDigit(body[0])
    requires ParseUnsigned(body) == Some(v)
    ensures ParseDecimal(if negative then "-" + body else body) == Some(if negative then -v else v)
  {
    if negative {
      var t := "-" + body;
      assert t[0] == '-' && t[1..] == body;
      MinusDecimal(t, body, v);
    } else {
      assert body[0] != '+' && body[0] != '-';
    }
  }

  lemma MinusDecimal(t: string, body: string, v: real)
    requires |t| > 0 && t[0] == '-' && t[1..] == body && ParseUnsigned(body) == Some(v)
    ensures ParseDecimal(t) == Some(-v)
  {
  }

  /** Digits and points alone carry no exponent part. */
  lemma PlainUnsigned(body: string, v: real)
    requires forall i :: 0 <= i < |body| ==> body[i] == '.' || IsDigit(body[i])
    requires ParseMantissa(body) == Some(v)
    ensures ParseUnsigned(body) == Some(v)
  {
    FirstIndexIs(body, IsExponentMark, |body|);
    assert body[..|body|] == body;
  }

  lemma FixedBodyMantissa(x: real, d: nat)
    ensures ParseMantissa(FixedBody(x, d)) == Some(FixedUnits(x, d) as real / Pow10(d))
  {
    var padded := PaddedUnits(x, d);
    PaddedMantissa(padded, d);
    assert FixedBody(x, d) == Pointed(padded, d);
  }

  /** A digit run with a point before its last d digits, none when d is 0. */
  function Pointed(padded: string, d: nat): string
    requires d < |padded|
  {
    if d == 0 then padded else padded[..|padded| - d] + "." + padded[|padded| - d..]
  }

  lemma PaddedMantissa(padded: string, d: nat)
    requires AllDigits(padded) && d < |padded|
    ensures ParseMantissa(Pointed(padded, d)) == Some(DigitsValue(padded) as real / Pow10(d))
  {
    if d == 0 {
      DigitsMantissa(padded);
      var v := DigitsValue(padded) as real;
      assert v / Pow10(0) == v;
    } else {
      PointedDigitsValue(padded, d);
    }
  }

  /** The printed `toFixed` text reads back as the rounded value: `Number(x.toFixed(d)) == ToFixed(x, d)`. */
  lemma FixedTextRoundTrip(x: real, d: nat)
    ensures ParseDecimal(FixedText(x, d)) == Some(ToFixed(x, d))
  {
    var v := FixedUnits(x, d) as real / Pow10(d);
    FixedBodyMantissa(x, d);
    PlainUnsigned(FixedBody(x, d), v);
    SignedDecimal(FixedBody(x, d), v, x < 0.0);
    FixedParts(x, d, v);
  }

  lemma FixedParts(x: real, d: nat, v: real)
    requires v == FixedUnits(x, d) as real / Pow10(d)
    ensures FixedText(x, d) == if x < 0.0 then "-" + FixedBody(x, d) else FixedBody(x, d)
    ensures ToFixed(x, d) == if x < 0.0 then -v else v
  {
  }
}
