/**
 The little of `pathlib` the converter relies on: a path as its list of
 components, `name`, `parent`, `suffix` and `with_suffix`, and the test
 `name.lower().endswith(".txt")` that picks the fragments to convert.
 */
module Paths {
  import opened PyText

  /** A path as its components: `root / "a" / "b.txt"` is `root + ["a", "b.txt"]`. */
  type Path = seq<string>

  /** `p.name`: the last component, "" for a path without components. */
  function Name(p: Path): string
  {
    if p == [] then "" else p[|p| - 1]
  }

  /** `p.parent.name`: the name of the folder holding `p`. */
  function ParentName(p: Path): string
  {
    if |p| < 2 then "" else p[|p| - 2]
  }

  /** `s.rfind(c)`: the last index of `c` in `s`, or -1. */
  function RFind(s: string, c: char): (i: int)
    ensures -1 <= i < |s|
    ensures i >= 0 ==> s[i] == c
    ensures forall j :: i < j < |s| ==> s[j] != c
  {
    if s == [] then -1
    else if s[|s| - 1] == c then |s| - 1
    else RFind(s[..|s| - 1], c)
  }

  /**
   `PurePath.suffix` of a name: from its last dot on, unless that dot is
   the first or the last character, in which case there is none.
   */
  function Suffix(name: string): (suffix: string)
    ensures |suffix| <= |name|
    ensures suffix != [] ==> suffix[0] == '.' && suffix == name[|name| - |suffix|..]
    ensures suffix != [] ==> '.' !in suffix[1..]
    ensures suffix != [] <==>
              exists i :: 0 < i < |name| - 1 && name[i] == '.' && forall j :: i < j < |name| ==> name[j] != '.'
  {
    var i := RFind(name, '.');
    if 0 < i < |name| - 1 then name[i..] else ""
  }

  /** `PurePath.with_suffix(suffix)` applied to a name: the old suffix, if any, is replaced. */
  function WithSuffix(name: string, suffix: string): (r: string)
    ensures |r| == |name| - |Suffix(name)| + |suffix|
  {
    var previous := Suffix(name);
    if previous == "" then name + suffix else name[..|name| - |previous|] + suffix
  }

  /** `with_suffix` keeps the stem, the name without its old suffix, and puts the new suffix after it. */
  lemma WithSuffixParts(name: string, suffix: string)
    ensures var r := WithSuffix(name, suffix);
            r[..|r| - |suffix|] + Suffix(name) == name && r[|r| - |suffix|..] == suffix
  {
  }

  /** `name.lower().endswith(".txt")`: the files the converter picks up. */
  predicate IsTxtName(name: string)
    ensures IsTxtName(name) <==>
              |name| >= 4 && name[|name| - 4] == '.' && name[|name| - 3] in "tT" &&
              name[|name| - 2] in "xX" && name[|name| - 1] in "tT"
  {
    TxtTail(name);
    EndsWithIgnoringCase(name, ".txt")
  }

  /** Lowering the last four characters gives ".txt" exactly when they are '.', 't' or 'T', 'x' or 'X', 't' or 'T'. */
  lemma TxtTail(name: string)
    ensures EndsWithIgnoringCase(name, ".txt") <==>
              |name| >= 4 && name[|name| - 4] == '.' && name[|name| - 3] in "tT" &&
              name[|name| - 2] in "xX" && name[|name| - 1] in "tT"
  {
    if |name| >= 4 {
      var n := |name|;
      assert LowerAscii(name[n - 4]) == '.' <==> name[n - 4] == '.';
      assert LowerAscii(name[n - 3]) == 't' <==> name[n - 3] in "tT";
      assert LowerAscii(name[n - 2]) == 'x' <==> name[n - 2] in "xX";
      assert LowerAscii(name[n - 1]) == 't' <==> name[n - 1] in "tT";
      if EndsWithIgnoringCase(name, ".txt") {
        assert LowerAscii(name[n - 4 + 0]) == ".txt"[0];
        assert LowerAscii(name[n - 4 + 1]) == ".txt"[1];
        assert LowerAscii(name[n - 4 + 2]) == ".txt"[2];
        assert LowerAscii(name[n - 4 + 3]) == ".txt"[3];
      }
    }
  }

  /** The name of the PDF a fragment is rendered to. */
  function PdfName(name: string): (r: string)
    ensures |r| >= 4 && r[|r| - 4..] == ".pdf"
  {
    WithSuffix(name, ".pdf")
  }

  /** Before its ".pdf" the PDF name is the stem: followed by the old suffix it gives back the name. */
  lemma PdfNameStem(name: string)
    ensures var r := PdfName(name); r[..|r| - 4] + Suffix(name) == name
  {
    WithSuffixParts(name, ".pdf");
  }

  /**
   For a fragment name the PDF name swaps the last four characters for
   ".pdf"; a name that is only ".txt" (in any case) has no suffix in
   `pathlib`'s sense and gets ".pdf" appended instead.
   */
  lemma PdfNameOfTxt(name: string)
    requires IsTxtName(name)
    ensures PdfName(name) == (if |name| > 4 then name[..|name| - 4] else name) + ".pdf"
  {
    var n := |name|;
    assert LowerAscii(name[n - 4 + 0]) == ".txt"[0];
    assert LowerAscii(name[n - 4 + 1]) == ".txt"[1];
    assert LowerAscii(name[n - 4 + 2]) == ".txt"[2];
    assert LowerAscii(name[n - 4 + 3]) == ".txt"[3];
    var i := RFind(name, '.');
    assert i == n - 4;
    if n > 4 {
      assert Suffix(name) == name[n - 4..];
    } else {
      assert Suffix(name) == "";
    }
  }

  /** A name ending in ".pdf" is never taken for a fragment. */
  lemma PdfNameNotTxt(stem: string)
    ensures !IsTxtName(stem + ".pdf")
  {
    var s := stem + ".pdf";
    assert s[|s| - 1] == 'f';
    assert LowerAscii(s[|s| - 4 + 3]) != ".txt"[3];
  }

  /** Every PDF name ends in ".pdf", so the converter never takes its own output for a fragment. */
  lemma {:induction false} PdfNameEnds(name: string)
    ensures PdfName(name)[|PdfName(name)| - 4..] == ".pdf"
    ensures !IsTxtName(PdfName(name))
  {
    var previous := Suffix(name);
    var stem := if previous == "" then name else name[..|name| - |previous|];
    assert PdfName(name) == stem + ".pdf";
    PdfNameNotTxt(stem);
  }
}
