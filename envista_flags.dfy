/**
 * Translation of the status texts an ENVISTA export writes in place of a
 * reading ("NoData", "Calm", "<Samp", ...) into the validator's flag codes.
 */
module EnvistaFlags {
  import opened Strings
  import opened Cells
  import opened Numbers

  /** A spreadsheet cell as read: missing (None or NaN), a number, or text. */
  datatype RawValue = RawMissing | RawNum(x: real) | RawText(s: string)

  /** ENVISTA status texts and their flag codes, in the order the table is searched. */
  const EnvistaTable: seq<(string, string)> := [
    ("NoData", "ND"), ("InvId", "IO"), ("Zero", "IC"), ("Span", "IC"),
    ("OutCal", "IC"), ("Alarm", "IF"), ("WarmUp", "IF"), ("Maintain", "IF"),
    ("Above R", "IR"), ("Below R", "IR"), ("Calm", "IO"), ("<Samp", "IO"),
    ("OffScan", "IO"), ("NoData ", "ND"), ("OffScan ", "IO"),
    ("Above_R", "IR"), ("Below_R", "IR"), ("", "ND"), (" ", "ND"),
    ("nan", "ND"), ("NaN", "ND"), ("NULL", "ND"), ("null", "ND")
  ]

  /** Every code of the table is one of the validator's flags. */
  lemma TableCodesAreFlags()
    ensures forall i :: 0 <= i < |EnvistaTable| ==> IsFlag(EnvistaTable[i].1)
  {
  }

  /** Position of the entry whose status text is exactly `t`. */
  function ExactEntry(t: string, from: nat): (r: Option<nat>)
    requires from <= |EnvistaTable|
    ensures r.Some? ==> from <= r.value < |EnvistaTable| && EnvistaTable[r.value].0 == t
    ensures r.Some? ==> forall j :: from <= j < r.value ==> EnvistaTable[j].0 != t
    ensures r.None? ==> forall j :: from <= j < |EnvistaTable| ==> EnvistaTable[j].0 != t
    decreases |EnvistaTable| - from
  {
    if from == |EnvistaTable| then None
    else if EnvistaTable[from].0 == t then Some(from)
    else ExactEntry(t, from + 1)
  }

  /** The entry at `i` is a non-empty status text occurring in `t`, ignoring case. */
  predicate OccursIn(i: nat, t: string)
    requires i < |EnvistaTable|
  {
    EnvistaTable[i].0 != "" && IsSubstring(Lower(EnvistaTable[i].0), Lower(t))
  }

  /** Position of the first entry that occurs in `t`. */
  function FirstOccurring(t: string, from: nat): (r: Option<nat>)
    requires from <= |EnvistaTable|
    ensures r.Some? ==> from <= r.value < |EnvistaTable| && OccursIn(r.value, t)
    ensures r.Some? ==> forall j :: from <= j < r.value ==> !OccursIn(j, t)
    ensures r.None? ==> forall j :: from <= j < |EnvistaTable| ==> !OccursIn(j, t)
    decreases |EnvistaTable| - from
  {
    if from == |EnvistaTable| then None
    else if OccursIn(from, t) then Some(from)
    else FirstOccurring(t, from + 1)
  }

  /**
   * The flag for one raw cell, or None when the cell is to be read as a
   * reading. A number is never a status text: the decimal text of a finite
   * number contains none of the table's texts.
   */
  function MapEnvistaFlag(v: RawValue): Option<string>
  {
    match v
    case RawMissing => None
    case RawNum(_) => None
    case RawText(s) =>
      var t := Strip(s);
      match ExactEntry(t, 0)
      case Some(i) => Some(EnvistaTable[i].1)
      case None =>
        match FirstOccurring(t, 0)
        case Some(i) => Some(EnvistaTable[i].1)
        case None => if IsDecimalText(t) then None else Some("IO")
  }

  /** Whatever the input, the result is no flag or one of the validator's ten flags. */
  lemma MapEnvistaFlagIsFlag(v: RawValue)
    ensures MapEnvistaFlag(v).Some? ==> IsFlag(MapEnvistaFlag(v).value)
  {
    TableCodesAreFlags();
  }

  /** No two entries of the table have the same status text. */
  lemma TableKeysDistinct()
    ensures forall i, j :: 0 <= i < j < |EnvistaTable| ==> EnvistaTable[i].0 != EnvistaTable[j].0
  {
  }

  /** First test: a stripped text equal to an entry's status text gets that entry's code. */
  lemma ExactMatchWins(s: string, i: nat)
    requires i < |EnvistaTable| && EnvistaTable[i].0 == Strip(s)
    ensures MapEnvistaFlag(RawText(s)) == Some(EnvistaTable[i].1)
  {
    var e := ExactEntry(Strip(s), 0);
    TableKeysDistinct();
    assert e.Some? && EnvistaTable[e.value].0 == EnvistaTable[i].0;
  }

  /**
   * Second test: with no exact match, the first entry whose status text
   * occurs in the stripped text, ignoring case, gives the code.
   */
  lemma FirstOccurrenceWins(s: string, i: nat)
    requires i < |EnvistaTable| && OccursIn(i, Strip(s))
    requires forall j :: 0 <= j < |EnvistaTable| ==> EnvistaTable[j].0 != Strip(s)
    requires forall j :: 0 <= j < i ==> !OccursIn(j, Strip(s))
    ensures MapEnvistaFlag(RawText(s)) == Some(EnvistaTable[i].1)
  {
    var t := Strip(s);
    NoExactEntry(t);
    FirstOccurrenceAt(t, i);
  }

  lemma FirstOccurrenceAt(t: string, i: nat)
    requires i < |EnvistaTable| && OccursIn(i, t)
    requires forall j :: 0 <= j < i ==> !OccursIn(j, t)
    ensures FirstOccurring(t, 0) == Some(i)
  {
    var f := FirstOccurring(t, 0);
  }

  /** Last tests: text that matches no entry is no flag when it reads as a decimal number and "IO" otherwise. */
  lemma UnmatchedText(s: string)
    requires forall j :: 0 <= j < |EnvistaTable| ==> EnvistaTable[j].0 != Strip(s) && !OccursIn(j, Strip(s))
    ensures MapEnvistaFlag(RawText(s)) == if IsDecimalText(Strip(s)) then None else Some("IO")
  {
    var t := Strip(s);
    NoExactEntry(t);
    NoOccurrence(t);
  }

  lemma NoExactEntry(t: string)
    requires forall j :: 0 <= j < |EnvistaTable| ==> EnvistaTable[j].0 != t
    ensures ExactEntry(t, 0).None?
  {
    var e := ExactEntry(t, 0);
  }

  lemma NoOccurrence(t: string)
    requires forall j :: 0 <= j < |EnvistaTable| ==> !OccursIn(j, t)
    ensures FirstOccurring(t, 0).None?
  {
    var e := FirstOccurring(t, 0);
  }

  /** Text comes back without a flag only when, once stripped, it reads as a decimal number. */
  lemma UnflaggedTextIsNumber(s: string)
    requires MapEnvistaFlag(RawText(s)).None?
    ensures ParseDecimal(Strip(s)).Some?
  {
  }

  /** Entry 18 is a single space: text with a blank inside is always flagged, never read as a number. */
  lemma BlankInsideIsFlagged(s: string)
    requires ' ' in Strip(s)
    ensures MapEnvistaFlag(RawText(s)).Some?
  {
    BlankOccurs(Strip(s));
    FlaggedWhenOccurs(s, 18);
  }

  /** Text in which some entry occurs is always flagged. */
  lemma FlaggedWhenOccurs(s: string, i: nat)
    requires i < |EnvistaTable| && OccursIn(i, Strip(s))
    ensures MapEnvistaFlag(RawText(s)).Some?
  {
    var t := Strip(s);
    if ExactEntry(t, 0).None? {
      assert FirstOccurring(t, 0).Some?;
    }
  }

  lemma BlankOccurs(t: string)
    requires ' ' in t
    ensures OccursIn(18, t)
  {
    var k :| 0 <= k < |t| && t[k] == ' ';
    var l := Lower(t);
    assert l[k] == ' ';
    assert l[k..k + 1] == " ";
    assert OccursAt(l, " ", k);
    assert Lower(" ") == " " by {
      assert Lower(" ")[0] == ' ';
    }
    assert EnvistaTable[18].0 == " ";
  }
}
