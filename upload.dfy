/**
 * The upload check: a file is accepted when its name has an extension and
 * that extension, in lower case, is one the validator reads.
 */
module Upload {
  import opened Strings
  import Config
  import opened Cells

  /** Position of the last '.' in `s`, if any. */
  function LastDot(s: string): (r: Option<nat>)
    ensures r.Some? ==> r.value < |s| && s[r.value] == '.' && '.' !in s[r.value + 1..]
    ensures r.None? ==> '.' !in s
  {
    if s == [] then None
    else if s[|s| - 1] == '.' then Some(|s| - 1)
    else
      var r := LastDot(s[..|s| - 1]);
      assert s == s[..|s| - 1] + [s[|s| - 1]];
      if r.Some? then
        assert s[r.value + 1..] == s[..|s| - 1][r.value + 1..] + [s[|s| - 1]];
        r
      else r
  }

  /**
   * Whether an uploaded file name is accepted. Upper-case letters are folded
   * to ASCII lower case; no other character lowers to a letter of "xls".
   */
  function AllowedFile(filename: string): bool
  {
    match LastDot(filename)
    case None => false
    case Some(i) => Lower(filename[i + 1..]) in Config.AllowedExtensions
  }

  /**
   * A name is accepted exactly when it contains a '.', and the text after
   * the last '.' lowers to "xlsx" or "xls".
   */
  lemma AllowedFileIff(filename: string)
    ensures AllowedFile(filename) <==>
      exists i :: 0 <= i < |filename| && filename[i] == '.' && '.' !in filename[i + 1..]
        && Lower(filename[i + 1..]) in ["xlsx", "xls"]
  {
    var r := LastDot(filename);
    forall i | 0 <= i < |filename| && filename[i] == '.' && '.' !in filename[i + 1..]
      ensures r == Some(i)
    {
      LastDotUnique(filename, i);
    }
  }

  /** A '.' with no '.' after it is the last one. */
  lemma LastDotUnique(s: string, i: nat)
    requires i < |s| && s[i] == '.' && '.' !in s[i + 1..]
    ensures LastDot(s) == Some(i)
  {
    assert '.' in s;
    var k := LastDot(s).value;
    assert forall j :: i < j < |s| ==> s[i + 1..][j - i - 1] == s[j];
    assert forall j :: k < j < |s| ==> s[k + 1..][j - k - 1] == s[j];
  }

  /** The check ignores letter case: renaming "A.XLSX" to "a.xlsx" changes nothing. */
  lemma AllowedFileCaseInsensitive(filename: string)
    ensures AllowedFile(filename) == AllowedFile(Lower(filename))
  {
    LastDotLower(filename);
    var l := Lower(filename);
    if LastDot(filename).Some? {
      var k := LastDot(filename).value + 1;
      LowerSuffix(filename, k);
      LowerIdempotent(filename[k..]);
    }
  }

  lemma LowerSuffix(s: string, k: nat)
    requires k <= |s|
    ensures Lower(s)[k..] == Lower(s[k..])
  {
  }

  lemma {:induction false} LastDotLower(s: string)
    ensures LastDot(Lower(s)) == LastDot(s)
    decreases |s|
  {
    if s != [] {
      assert Lower(s)[..|s| - 1] == Lower(s[..|s| - 1]);
      LastDotLower(s[..|s| - 1]);
    }
  }

  lemma LowerIdempotent(s: string)
    ensures Lower(Lower(s)) == Lower(s)
  {
  }

  /** Spreadsheet names pass whatever their case. */
  lemma AcceptedNames()
    ensures AllowedFile("a.XLSX") && AllowedFile("b.xls")
  {
    assert LastDot("a.XLSX") == Some(1);
    assert "a.XLSX"[2..] == "XLSX";
    assert Lower("XLSX") == "xlsx" by {
      assert Lower("XLSX")[0] == 'x' && Lower("XLSX")[1] == 'l' && Lower("XLSX")[2] == 's' && Lower("XLSX")[3] == 'x';
    }
    assert LastDot("b.xls") == Some(1);
    assert "b.xls"[2..] == "xls";
    assert Lower("xls") == "xls" by {
      assert Lower("xls")[0] == 'x' && Lower("xls")[1] == 'l' && Lower("xls")[2] == 's';
    }
    assert Config.AllowedExtensions == ["xlsx", "xls"];
  }

  /** A name without a dot, or whose last extension is another one, is refused. */
  lemma RefusedNames()
    ensures !AllowedFile("xlsx") && !AllowedFile("a.csv") && !AllowedFile("a.xls.b")
  {
    assert LastDot("xlsx") == None;
    assert LastDot("a.csv") == Some(1);
    assert LastDot("a.xls.b") == Some(5);
    assert "a.xls.b"[6..] == "b";
  }
}
