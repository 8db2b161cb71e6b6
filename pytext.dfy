/**
 The parts of Python's `str` behaviour that the converter depends on:
 `"".join`, `s.split("_")` and `"_".join(...)`, `s.splitlines()`, the
 emptiness test `not s.strip()`, `s.lower().endswith(...)` on ASCII suffixes,
 and the code-point ordering that `sorted` uses to compare string keys.
 Strings are `seq<char>`; a `char` is a Unicode scalar value, as a Python
 `str` element is a code point.
 */
module PyText {

  // ---------------------------------------------------------------------------
  // Concatenation, `"".join(parts)`
  // ---------------------------------------------------------------------------

  /**
   The parts one after another: `"".join(parts)` for strings, and the
   concatenation of `groupby`'s runs for any element type.
   */
  function Concat<T>(parts: seq<seq<T>>): seq<T>
  {
    if parts == [] then [] else parts[0] + Concat(parts[1..])
  }

  /** Joining two lists of strings is joining each and concatenating. */
  lemma {:induction false} ConcatAppend(a: seq<string>, b: seq<string>)
    ensures Concat(a + b) == Concat(a) + Concat(b)
  {
    if a == [] {
      assert a + b == b;
    } else {
      assert (a + b)[1..] == a[1..] + b;
      ConcatAppend(a[1..], b);
    }
  }

  /** Joining one string more in front puts it in front. */
  lemma ConcatCons(head: string, tail: seq<string>)
    ensures Concat([head] + tail) == head + Concat(tail)
  {
    assert ([head] + tail)[1..] == tail;
  }

  /** Joining a single string gives that string. */
  lemma ConcatSingle(s: string)
    ensures Concat([s]) == s
  {
    ConcatCons(s, []);
  }

  // ---------------------------------------------------------------------------
  // Whitespace and line boundaries
  // ---------------------------------------------------------------------------

  /** The characters for which `c.isspace()` holds: what `str.strip()` removes by default. */
  const Spaces: set<char> := {
    '\t', '\n', '\U{B}', '\U{C}', '\r', '\U{1C}', '\U{1D}', '\U{1E}', '\U{1F}', ' ',
    '\U{85}', '\U{A0}', '\U{1680}',
    '\U{2000}', '\U{2001}', '\U{2002}', '\U{2003}', '\U{2004}', '\U{2005}',
    '\U{2006}', '\U{2007}', '\U{2008}', '\U{2009}', '\U{200A}',
    '\U{2028}', '\U{2029}', '\U{202F}', '\U{205F}', '\U{3000}'}

  /** The characters `str.splitlines()` treats as line boundaries. */
  const LineBreaks: set<char> := {
    '\n', '\r', '\U{B}', '\U{C}', '\U{1C}', '\U{1D}', '\U{1E}', '\U{85}', '\U{2028}', '\U{2029}'}

  predicate IsSpace(c: char)
  {
    c in Spaces
  }

  /** `not s.strip()`: the string is empty or holds only whitespace. */
  predicate IsBlank(s: string)
  {
    forall i :: 0 <= i < |s| ==> IsSpace(s[i])
  }

  predicate IsLineBreak(c: char)
  {
    c in LineBreaks
  }

  /** Every line boundary is also whitespace. */
  lemma LineBreakIsSpace(c: char)
    ensures IsLineBreak(c) ==> IsSpace(c)
  {
  }

  /** The string without the characters that `drop` selects. */
  function Without(s: string, drop: char -> bool): (r: string)
    ensures |r| <= |s|
    ensures forall i :: 0 <= i < |r| ==> !drop(r[i])
  {
    if s == [] then [] else (if drop(s[0]) then [] else [s[0]]) + Without(s[1..], drop)
  }

  /** Filtering distributes over concatenation. */
  lemma {:induction false} WithoutAppend(a: string, b: string, drop: char -> bool)
    ensures Without(a + b, drop) == Without(a, drop) + Without(b, drop)
  {
    if a == [] {
      assert a + b == b;
    } else {
      assert (a + b)[1..] == a[1..] + b;
      WithoutAppend(a[1..], b, drop);
    }
  }

  /** The visible text: everything `strip()` would not remove. */
  function Visible(s: string): string
  {
    Without(s, IsSpace)
  }

  /** A blank string has no visible characters, and only a blank one. */
  lemma {:induction false} VisibleBlank(s: string)
    ensures IsBlank(s) <==> Visible(s) == []
  {
    if s != [] {
      VisibleBlank(s[1..]);
      if !IsSpace(s[0]) {
        assert Visible(s)[0] == s[0];
      }
    }
  }

  /** Index of the first line boundary in `s`, or `|s|` when there is none. */
  function FirstBreak(s: string): (k: nat)
    ensures k <= |s|
    ensures k < |s| ==> IsLineBreak(s[k])
    ensures forall i :: 0 <= i < k ==> !IsLineBreak(s[i])
  {
    if s == [] then 0 else if IsLineBreak(s[0]) then 0 else 1 + FirstBreak(s[1..])
  }

  /**
   `s.splitlines()`: the lines between boundaries, where `"\r\n"` counts as one
   boundary. The empty string has no lines, and a boundary at the very end
   does not start an empty last line.
   */
  function SplitLines(s: string): (lines: seq<string>)
    ensures lines == [] <==> s == []
    ensures forall i, j :: 0 <= i < |lines| && 0 <= j < |lines[i]| ==> !IsLineBreak(lines[i][j])
    decreases |s|
  {
    if s == [] then []
    else
      var k := FirstBreak(s);
      if k == |s| then [s]
      else
        [s[..k]] + SplitLines(s[BreakEnd(s, k)..])
  }

  /** Where the next line starts after the boundary at `k`: `"\r\n"` is one boundary. */
  function BreakEnd(s: string, k: nat): (next: nat)
    requires k < |s| && IsLineBreak(s[k])
    ensures k < next <= |s|
    ensures forall i :: k <= i < next ==> IsLineBreak(s[i])
  {
    if s[k] == '\r' && k + 1 < |s| && s[k + 1] == '\n' then k + 2 else k + 1
  }

  /** The lines, concatenated, are the text with its line boundaries removed. */
  lemma {:induction false} SplitLinesContent(s: string)
    ensures Concat(SplitLines(s)) == Without(s, IsLineBreak)
    decreases |s|
  {
    if s != [] {
      var k := FirstBreak(s);
      if k == |s| {
        NoBreakUnchanged(s);
        ConcatSingle(s);
      } else {
        var next := BreakEnd(s, k);
        var line, gap, rest := s[..k], s[k..next], s[next..];
        assert line + gap == s[..next];
        assert s[..next] + rest == s;
        SplitLinesContent(rest);
        LineContent(line, gap, rest, SplitLines(rest));
        assert SplitLines(s) == [line] + SplitLines(rest);
      }
    }
  }

  /** One step of `SplitLinesContent`: a line, its boundary, and the lines after it. */
  lemma LineContent(line: string, gap: string, rest: string, lines: seq<string>)
    requires forall i :: 0 <= i < |line| ==> !IsLineBreak(line[i])
    requires forall i :: 0 <= i < |gap| ==> IsLineBreak(gap[i])
    requires Concat(lines) == Without(rest, IsLineBreak)
    ensures Concat([line] + lines) == Without(line + gap + rest, IsLineBreak)
  {
    NoBreakUnchanged(line);
    BreaksOnly(gap);
    WithoutAppend3(line, gap, rest, IsLineBreak);
    ConcatCons(line, lines);
  }

  /** Filtering three concatenated pieces filters each piece. */
  lemma WithoutAppend3(a: string, b: string, c: string, drop: char -> bool)
    ensures Without(a + b + c, drop) == Without(a, drop) + Without(b, drop) + Without(c, drop)
  {
    WithoutAppend(a + b, c, drop);
    WithoutAppend(a, b, drop);
  }

  /** A string without line boundaries is not changed by removing them. */
  lemma {:induction false} NoBreakUnchanged(s: string)
    requires forall i :: 0 <= i < |s| ==> !IsLineBreak(s[i])
    ensures Without(s, IsLineBreak) == s
  {
    if s != [] {
      NoBreakUnchanged(s[1..]);
    }
  }

  /** A string made only of line boundaries vanishes when they are removed. */
  lemma {:induction false} BreaksOnly(s: string)
    requires forall i :: 0 <= i < |s| ==> IsLineBreak(s[i])
    ensures Without(s, IsLineBreak) == []
  {
    if s != [] {
      BreaksOnly(s[1..]);
    }
  }

  /**
   The lines are cut exactly at the boundaries: a line free of boundaries,
   followed by one boundary, comes out as one line in front of the lines of
   the rest, even when that line is empty. One boundary is `"\r\n"` or a
   single boundary character, but not a `'\r'` that has a `'\n'` after it.
   */
  lemma SplitLinesCons(line: string, gap: string, rest: string)
    requires forall i :: 0 <= i < |line| ==> !IsLineBreak(line[i])
    requires gap == "\r\n" || (|gap| == 1 && IsLineBreak(gap[0]) && !(gap[0] == '\r' && rest != [] && rest[0] == '\n'))
    ensures SplitLines(line + gap + rest) == [line] + SplitLines(rest)
  {
    var s := line + gap + rest;
    var k := |line|;
    GapAt(line, gap, rest);
    assert s[..k] == line;
    assert s[k + |gap|..] == rest;
  }

  /** In `line + gap + rest`, the first boundary is `gap`, and it ends where `rest` begins. */
  lemma GapAt(line: string, gap: string, rest: string)
    requires forall i :: 0 <= i < |line| ==> !IsLineBreak(line[i])
    requires gap == "\r\n" || (|gap| == 1 && IsLineBreak(gap[0]) && !(gap[0] == '\r' && rest != [] && rest[0] == '\n'))
    ensures FirstBreak(line + gap + rest) == |line|
    ensures BreakEnd(line + gap + rest, |line|) == |line| + |gap|
  {
    var s := line + gap + rest;
    var k := |line|;
    Reassociate(line, gap, rest);
    FirstBreakAt(line, gap + rest);
    assert s[k] == gap[0];
    if gap == "\r\n" {
      assert s[k + 1] == '\n';
    } else if k + 1 < |s| {
      assert s[k + 1] == rest[0];
    }
  }

  /** A boundary right after a line free of boundaries is the first one. */
  lemma FirstBreakAt(line: string, t: string)
    requires forall i :: 0 <= i < |line| ==> !IsLineBreak(line[i])
    requires t != [] && IsLineBreak(t[0])
    ensures FirstBreak(line + t) == |line|
  {
    assert FirstBreak(line) == |line|;
    assert FirstBreak(t) == 0;
    FirstBreakExtend(line, t);
  }

  /** Text with no boundary at all, and not empty, is one line. */
  lemma SplitLinesSingle(line: string)
    requires line != []
    requires forall i :: 0 <= i < |line| ==> !IsLineBreak(line[i])
    ensures SplitLines(line) == [line]
  {
    assert FirstBreak(line) == |line|;
  }

  /** An empty string has no lines at all. */
  lemma SplitLinesEmpty()
    ensures SplitLines("") == []
  {
  }

  /**
   A newline appended after a last character that is not itself a line
   boundary does not produce an extra, empty last line.
   */
  lemma {:induction false} TrailingNewline(s: string)
    requires s != [] && !IsLineBreak(s[|s| - 1])
    ensures SplitLines(s + "\n") == SplitLines(s)
    decreases |s|
  {
    var t := s + "\n";
    var k := FirstBreak(s);
    FirstBreakExtend(s, "\n");
    if k < |s| {
      assert k < |s| - 1;
      assert t[k] == s[k] && t[k + 1] == s[k + 1];
      var next := BreakEnd(s, k);
      assert BreakEnd(t, k) == next;
      assert next < |s|;
      assert t[..k] == s[..k];
      assert t[next..] == s[next..] + "\n";
      TrailingNewline(s[next..]);
    } else {
      assert t[..k] == s;
      assert t[k + 1..] == [];
    }
  }

  /** Appending text does not move a boundary that is already there. */
  lemma {:induction false} FirstBreakExtend(s: string, t: string)
    ensures FirstBreak(s) < |s| ==> FirstBreak(s + t) == FirstBreak(s)
    ensures FirstBreak(s) == |s| ==> FirstBreak(s + t) == |s| + FirstBreak(t)
  {
    if s == [] {
      assert s + t == t;
    } else if !IsLineBreak(s[0]) {
      assert (s + t)[1..] == s[1..] + t;
      FirstBreakExtend(s[1..], t);
    }
  }

  // ---------------------------------------------------------------------------
  // Slicing, `s[:n]`
  // ---------------------------------------------------------------------------

  /** `s[:n]`: the first `n` elements, or all but the last `-n` when `n` is negative. */
  function Prefix<T>(s: seq<T>, n: int): (r: seq<T>)
    ensures r <= s
    ensures n >= 0 ==> |r| == if n <= |s| then n else |s|
  {
    if n >= 0 then (if n <= |s| then s[..n] else s)
    else (if |s| + n >= 0 then s[..|s| + n] else [])
  }

  /** Sequence concatenation associates (kept apart so the proofs using it stay small). */
  lemma Reassociate<T>(a: seq<T>, b: seq<T>, c: seq<T>)
    ensures a + (b + c) == (a + b) + c
  {
  }

  /** A non-empty sequence is its front followed by its last element. */
  lemma DropLast<T>(s: seq<T>)
    requires s != []
    ensures s == s[..|s| - 1] + [s[|s| - 1]]
  {
  }

  /** Slicing after dropping the first `m` elements is slicing `m` further on. */
  lemma SliceShift<T>(s: seq<T>, m: int, lo: int, hi: int)
    requires 0 <= m <= |s| && 0 <= lo <= hi <= |s| - m
    ensures s[m..][lo..hi] == s[lo + m .. hi + m]
  {
  }

  // ---------------------------------------------------------------------------
  // `split("_")` and `"_".join(...)`
  // ---------------------------------------------------------------------------

  /**
   `s.split(sep)` for a one-character separator, scanning left to right: a
   separator starts a new field and any other character joins the current
   one. Empty fields are kept, so the result has exactly one field more
   than `s` has separators.
   */
  function Split(s: string, sep: char): (fields: seq<string>)
    ensures |fields| >= 1
    decreases |s|
  {
    if s == [] then [[]]
    else
      var rest := Split(s[1..], sep);
      if s[0] == sep then [[]] + rest
      else [[s[0]] + rest[0]] + rest[1..]
  }

  /** No field of a split holds the separator. */
  lemma {:induction false} SplitFieldsFree(s: string, sep: char)
    ensures forall i :: 0 <= i < |Split(s, sep)| ==> sep !in Split(s, sep)[i]
    decreases |s|
  {
    if s != [] {
      var rest := Split(s[1..], sep);
      var fields := Split(s, sep);
      SplitFieldsFree(s[1..], sep);
      if s[0] == sep {
        assert forall i :: 1 <= i < |fields| ==> fields[i] == rest[i - 1];
      } else {
        assert forall i :: 1 <= i < |fields| ==> fields[i] == rest[i];
        assert fields[0] == [s[0]] + rest[0];
      }
    }
  }

  /** `sep.join(parts)`: the parts in order with one separator between neighbours. */
  function Join(parts: seq<string>, sep: char): (r: string)
    ensures parts != [] ==> parts[0] <= r
  {
    if parts == [] then []
    else if |parts| == 1 then parts[0]
    else parts[0] + [sep] + Join(parts[1..], sep)
  }

  /** Joining a field in front of at least one more. */
  lemma JoinCons(first: string, rest: seq<string>, sep: char)
    requires rest != []
    ensures Join([first] + rest, sep) == first + [sep] + Join(rest, sep)
  {
    assert ([first] + rest)[1..] == rest;
  }

  /** Putting a character in front of the first field puts it in front of the join. */
  lemma JoinPrepend(c: char, parts: seq<string>, sep: char)
    requires parts != []
    ensures Join([[c] + parts[0]] + parts[1..], sep) == [c] + Join(parts, sep)
  {
    if |parts| > 1 {
      JoinCons([c] + parts[0], parts[1..], sep);
      JoinCons(parts[0], parts[1..], sep);
      assert parts == [parts[0]] + parts[1..];
    }
  }

  /** Joining the fields of a split gives back the original string. */
  lemma {:induction false} JoinSplit(s: string, sep: char)
    ensures Join(Split(s, sep), sep) == s
    decreases |s|
  {
    if s != [] {
      var rest := Split(s[1..], sep);
      JoinSplit(s[1..], sep);
      if s[0] == sep {
        JoinCons([], rest, sep);
      } else {
        JoinPrepend(s[0], rest, sep);
      }
      assert s == [s[0]] + s[1..];
    }
  }

  /** A separator-free start stays in the first field. */
  lemma {:induction false} SplitFreeStart(a: string, t: string, sep: char)
    requires sep !in a
    ensures Split(a + t, sep) == [a + Split(t, sep)[0]] + Split(t, sep)[1..]
    decreases |a|
  {
    if a == [] {
      assert a + t == t && a + Split(t, sep)[0] == Split(t, sep)[0];
      assert Split(t, sep) == [Split(t, sep)[0]] + Split(t, sep)[1..];
    } else {
      var s := a + t;
      assert s[1..] == a[1..] + t;
      assert s[0] == a[0] != sep;
      SplitFreeStart(a[1..], t, sep);
      assert [a[0]] + (a[1..] + Split(t, sep)[0]) == a + Split(t, sep)[0];
    }
  }

  /** A string without the separator is a single field. */
  lemma SplitNoSeparator(s: string, sep: char)
    ensures sep !in s ==> Split(s, sep) == [s]
  {
    if sep !in s {
      SplitFreeStart(s, [], sep);
      assert s + [] == s;
    }
  }

  /** Splitting a join of separator-free fields gives back those fields. */
  lemma {:induction false} SplitJoin(parts: seq<string>, sep: char)
    requires parts != []
    requires forall i :: 0 <= i < |parts| ==> sep !in parts[i]
    ensures Split(Join(parts, sep), sep) == parts
  {
    var p0 := parts[0];
    if |parts| == 1 {
      SplitFreeStart(p0, [], sep);
      assert p0 + [] == p0;
    } else {
      var rest := Join(parts[1..], sep);
      SplitJoin(parts[1..], sep);
      assert Join(parts, sep) == p0 + ([sep] + rest);
      var after := [sep] + rest;
      assert after[1..] == rest;
      assert Split(after, sep) == [[]] + parts[1..];
      SplitFreeStart(p0, after, sep);
      assert p0 + [] == p0;
      assert parts == [p0] + parts[1..];
    }
  }

  /** Joining the first `k` fields of a split gives a prefix of the string. */
  lemma {:induction false} JoinFieldsPrefix(s: string, sep: char, k: nat)
    requires k <= |Split(s, sep)|
    ensures Join(Split(s, sep)[..k], sep) <= s
    decreases |s|
  {
    if k > 0 && s != [] {
      var rest := Split(s[1..], sep);
      var fields := Split(s, sep);
      if s[0] == sep {
        if k > 1 {
          assert fields[..k] == [[]] + rest[..k - 1];
          JoinFieldsPrefix(s[1..], sep, k - 1);
          JoinCons([], rest[..k - 1], sep);
          PrefixExtend([sep], Join(rest[..k - 1], sep), s[1..]);
        }
      } else {
        var kept := rest[..k];
        assert fields[..k] == [[s[0]] + kept[0]] + kept[1..];
        JoinFieldsPrefix(s[1..], sep, k);
        JoinPrepend(s[0], kept, sep);
        PrefixExtend([s[0]], Join(kept, sep), s[1..]);
      }
      assert s == [s[0]] + s[1..];
    }
  }

  /** Putting the same string in front keeps a prefix a prefix. */
  lemma PrefixExtend(head: string, a: string, b: string)
    requires a <= b
    ensures head + a <= head + b
  {
    assert head + a == (head + b)[..|head + a|];
  }

  // ---------------------------------------------------------------------------
  // `name.lower().endswith(suffix)` for an ASCII suffix
  // ---------------------------------------------------------------------------

  /** `c.lower()` for the characters whose lowering is an ASCII letter. */
  function LowerAscii(c: char): char
  {
    if 'A' <= c <= 'Z' then (c as int + 32) as char else c
  }

  /**
   `s.lower().endswith(suffix)` where `suffix` is lower-case ASCII: only
   `A`-`Z` lower to ASCII letters one-for-one, so comparing the last
   `|suffix|` characters after lowering each one is exact.
   */
  predicate EndsWithIgnoringCase(s: string, suffix: string)
  {
    |suffix| <= |s| && forall i :: 0 <= i < |suffix| ==> LowerAscii(s[|s| - |suffix| + i]) == suffix[i]
  }

  // ---------------------------------------------------------------------------
  // Ordering of strings, as `<` on Python `str`
  // ---------------------------------------------------------------------------

  /** `a < b` on Python strings: lexicographic by code point, a proper prefix first. */
  predicate Below(a: string, b: string)
    ensures a < b ==> Below(a, b)
    ensures b <= a ==> !Below(a, b)
  {
    if a == [] then b != []
    else if b == [] then false
    else if a[0] != b[0] then a[0] < b[0]
    else Below(a[1..], b[1..])
  }

  /**
   The lexicographic order written out: `a` is a proper prefix of `b`, or the
   two agree up to a first difference where `a` has the smaller character.
   */
  ghost predicate Lexicographic(a: string, b: string)
  {
    a < b || exists i :: 0 <= i < |a| && i < |b| && a[..i] == b[..i] && a[i] < b[i]
  }

  /** `Below` is the lexicographic order. */
  lemma {:induction false} BelowLexicographic(a: string, b: string)
    ensures Below(a, b) <==> Lexicographic(a, b)
  {
    if a != [] && b != [] {
      if a[0] == b[0] {
        BelowLexicographic(a[1..], b[1..]);
        if Lexicographic(a, b) {
          LexicographicTail(a, b);
        }
        if Lexicographic(a[1..], b[1..]) {
          LexicographicTailBack(a, b);
        }
      } else {
        assert a[..0] == b[..0];
      }
    }
  }

  /** With equal first characters, ordering the strings orders their tails. */
  lemma LexicographicTail(a: string, b: string)
    requires a != [] && b != [] && a[0] == b[0] && Lexicographic(a, b)
    ensures Lexicographic(a[1..], b[1..])
  {
    if !(a < b) {
      var i :| 0 <= i < |a| && i < |b| && a[..i] == b[..i] && a[i] < b[i];
      assert i > 0;
      assert a[1..][..i - 1] == a[..i][1..];
      assert b[1..][..i - 1] == b[..i][1..];
      assert a[1..][i - 1] < b[1..][i - 1];
    }
  }

  /** With equal first characters, ordered tails order the strings. */
  lemma LexicographicTailBack(a: string, b: string)
    requires a != [] && b != [] && a[0] == b[0] && Lexicographic(a[1..], b[1..])
    ensures Lexicographic(a, b)
  {
    if a[1..] < b[1..] {
      assert a == [a[0]] + a[1..] && b == [b[0]] + b[1..];
    } else {
      var i :| 0 <= i < |a| - 1 && i < |b| - 1 && a[1..][..i] == b[1..][..i] && a[1..][i] < b[1..][i];
      assert a[1..][..i] == a[1..i + 1] && b[1..][..i] == b[1..i + 1];
      assert a[..i + 1] == [a[0]] + a[1..i + 1];
      assert b[..i + 1] == [b[0]] + b[1..i + 1];
      assert a[..i + 1] == b[..i + 1];
      assert a[i + 1] < b[i + 1];
    }
  }

  /** No string is below itself. */
  lemma {:induction false} BelowIrreflexive(a: string)
    ensures !Below(a, a)
  {
    if a != [] {
      BelowIrreflexive(a[1..]);
    }
  }

  /** `<` on strings is transitive. */
  lemma {:induction false} BelowTransitive(a: string, b: string, c: string)
    requires Below(a, b) && Below(b, c)
    ensures Below(a, c)
  {
    if a != [] && b != [] && c != [] && a[0] == b[0] && b[0] == c[0] {
      BelowTransitive(a[1..], b[1..], c[1..]);
    }
  }

  /** Two different strings are ordered one way or the other, never both. */
  lemma {:induction false} BelowTotal(a: string, b: string)
    ensures a != b <==> (Below(a, b) || Below(b, a))
    ensures !(Below(a, b) && Below(b, a))
  {
    if a != [] && b != [] && a[0] == b[0] {
      BelowTotal(a[1..], b[1..]);
      if a[1..] == b[1..] {
        assert a == [a[0]] + a[1..] && b == [b[0]] + b[1..];
      }
    }
  }

  /** A string below `b` is below everything not below `b`. */
  lemma BelowNotBelow(a: string, b: string, c: string)
    requires Below(a, b) && !Below(c, b)
    ensures Below(a, c)
  {
    BelowTotal(b, c);
    if b != c {
      BelowTransitive(a, b, c);
    }
  }
}
