/**
 The merge plan of `convert_dmzj_txts_to_pdf` (dmzj_txt2pdf.py): the group
 key `_folder_key_of` derives from a fragment's folder name, the stable
 `sorted(..., key=...)` of the fragments, and `itertools.groupby` over the
 sorted list. Sorting and grouping are generic in the element type and the
 key function, as the library calls are.
 */
module Grouping {
  import opened PyText

  // ---------------------------------------------------------------------------
  // The group key
  // ---------------------------------------------------------------------------

  /** `"_".join(name.split("_")[:depth])` */
  function FolderKey(name: string, depth: int): (key: string)
    ensures '_' !in name ==> key == if depth >= 1 then name else ""
  {
    SplitNoSeparator(name, '_');
    Join(Prefix(Split(name, '_'), depth), '_')
  }

  /** Splitting a key again gives back `name.split("_")[:depth]`, for a depth of at least one. */
  lemma FolderKeyFields(name: string, depth: int)
    requires depth >= 1
    ensures Split(FolderKey(name, depth), '_') == Prefix(Split(name, '_'), depth)
  {
    var fields := Split(name, '_');
    var kept := Prefix(fields, depth);
    SplitFieldsFree(name, '_');
    assert forall i :: 0 <= i < |kept| ==> kept[i] == fields[i];
    SplitJoin(kept, '_');
  }

  /** The key is a prefix of the folder name. */
  lemma FolderKeyIsPrefix(name: string, depth: int)
    ensures FolderKey(name, depth) <= name
  {
    var fields := Split(name, '_');
    var kept := Prefix(fields, depth);
    assert kept == fields[..|kept|];
    JoinFieldsPrefix(name, '_', |kept|);
  }

  /** Taking `d2` elements and then `d1 <= d2` of those takes `d1`. */
  lemma PrefixOfPrefix<T>(s: seq<T>, d1: int, d2: int)
    requires 0 <= d1 <= d2
    ensures Prefix(Prefix(s, d2), d1) == Prefix(s, d1)
  {
  }

  /**
   Keys refine: folders that agree on their first `d2` fields agree on their
   first `d1 <= d2` fields. Going from group level 1 to level 2 can only
   split groups.
   */
  lemma KeyRefines(a: string, b: string, d1: int, d2: int)
    requires 0 <= d1 <= d2
    requires FolderKey(a, d2) == FolderKey(b, d2)
    ensures FolderKey(a, d1) == FolderKey(b, d1)
  {
    if d1 > 0 {
      var fa, fb := Split(a, '_'), Split(b, '_');
      var pa, pb := Prefix(fa, d2), Prefix(fb, d2);
      FolderKeyFields(a, d2);
      FolderKeyFields(b, d2);
      assert pa == pb;
      PrefixOfPrefix(fa, d1, d2);
      PrefixOfPrefix(fb, d1, d2);
      calc {
        FolderKey(a, d1);
        Join(Prefix(pa, d1), '_');
        Join(Prefix(pb, d1), '_');
        FolderKey(b, d1);
      }
    }
  }

  // ---------------------------------------------------------------------------
  // `sorted(xs, key=key)`: a stable sort
  // ---------------------------------------------------------------------------

  /** Keys never decrease along `s`. */
  predicate SortedBy<T>(s: seq<T>, key: T -> string)
  {
    forall i :: 0 < i < |s| ==> !Below(key(s[i]), key(s[i - 1]))
  }

  /** The elements of `s` with key `k`, in their order in `s`. */
  function Filter<T>(s: seq<T>, key: T -> string, k: string): (r: seq<T>)
    ensures |r| <= |s|
    ensures forall i :: 0 <= i < |r| ==> key(r[i]) == k
  {
    if s == [] then []
    else (if key(s[0]) == k then [s[0]] else []) + Filter(s[1..], key, k)
  }

  /** The filtered elements are exactly those of `s` with key `k`. */
  lemma {:induction false} InFilter<T>(s: seq<T>, key: T -> string, k: string, x: T)
    ensures x in Filter(s, key, k) <==> x in s && key(x) == k
  {
    if s != [] {
      InFilter(s[1..], key, k, x);
      assert x in s <==> x == s[0] || x in s[1..];
    }
  }

  lemma {:induction false} FilterAppend<T>(a: seq<T>, b: seq<T>, key: T -> string, k: string)
    ensures Filter(a + b, key, k) == Filter(a, key, k) + Filter(b, key, k)
  {
    if a == [] {
      assert a + b == b;
    } else {
      assert (a + b)[1..] == a[1..] + b;
      FilterAppend(a[1..], b, key, k);
    }
  }

  /** `x` placed after every element whose key is not above its own. */
  function Insert<T>(x: T, s: seq<T>, key: T -> string): (r: seq<T>)
    ensures multiset(r) == multiset(s) + multiset{x}
    ensures r[0] == x || (s != [] && r[0] == s[0])
  {
    if s == [] then [x]
    else if Below(key(x), key(s[0])) then [x] + s
    else
      assert s == [s[0]] + s[1..];
      [s[0]] + Insert(x, s[1..], key)
  }

  /** Insertion sort in input order: equal keys keep their relative order. */
  function SortByKey<T>(s: seq<T>, key: T -> string): (r: seq<T>)
    ensures multiset(r) == multiset(s)
  {
    if s == [] then []
    else
      assert s == s[..|s| - 1] + [s[|s| - 1]];
      Insert(s[|s| - 1], SortByKey(s[..|s| - 1], key), key)
  }

  lemma {:induction false} InsertSorted<T>(x: T, s: seq<T>, key: T -> string)
    requires SortedBy(s, key)
    ensures SortedBy(Insert(x, s, key), key)
  {
    if s != [] && !Below(key(x), key(s[0])) {
      InsertSorted(x, s[1..], key);
      var r := Insert(x, s, key);
      var tail := Insert(x, s[1..], key);
      assert r == [s[0]] + tail;
      if tail[0] != x {
        assert tail[0] == s[1];
      }
    } else if s != [] {
      BelowTotal(key(x), key(s[0]));
    }
  }

  /** The result of the sort is ordered by key. */
  lemma {:induction false} SortByKeySorted<T>(s: seq<T>, key: T -> string)
    ensures SortedBy(SortByKey(s, key), key)
  {
    if s != [] {
      SortByKeySorted(s[..|s| - 1], key);
      InsertSorted(s[|s| - 1], SortByKey(s[..|s| - 1], key), key);
    }
  }

  /** In a sorted sequence nothing has a key below the first element's. */
  lemma {:induction false} FilterBelowFirst<T>(s: seq<T>, key: T -> string, k: string)
    requires SortedBy(s, key) && s != [] && Below(k, key(s[0]))
    ensures Filter(s, key, k) == []
  {
    BelowIrreflexive(k);
    if |s| > 1 {
      BelowNotBelow(k, key(s[0]), key(s[1]));
      FilterBelowFirst(s[1..], key, k);
    }
  }

  lemma {:induction false} InsertFilter<T>(x: T, s: seq<T>, key: T -> string, k: string)
    requires SortedBy(s, key)
    ensures Filter(Insert(x, s, key), key, k) == Filter(s, key, k) + (if key(x) == k then [x] else [])
  {
    var mine := if key(x) == k then [x] else [];
    if s == [] {
      assert Filter([x], key, k) == mine + Filter([], key, k);
    } else if Below(key(x), key(s[0])) {
      assert Insert(x, s, key) == [x] + s;
      assert Filter([x] + s, key, k) == mine + Filter(s, key, k) by {
        FilterAppend([x], s, key, k);
        assert Filter([x], key, k) == mine + Filter([], key, k);
      }
      if key(x) == k {
        FilterBelowFirst(s, key, k);
      }
    } else {
      var head := if key(s[0]) == k then [s[0]] else [];
      var rest := Insert(x, s[1..], key);
      assert Insert(x, s, key) == [s[0]] + rest;
      assert Filter(s, key, k) == head + Filter(s[1..], key, k);
      assert Filter(rest, key, k) == Filter(s[1..], key, k) + mine by {
        assert SortedBy(s[1..], key);
        InsertFilter(x, s[1..], key, k);
      }
      assert Filter([s[0]] + rest, key, k) == head + Filter(rest, key, k) by {
        FilterAppend([s[0]], rest, key, k);
        assert Filter([s[0]], key, k) == head + Filter([], key, k);
      }
      Reassociate(head, Filter(s[1..], key, k), mine);
    }
  }

  /** Stability: the elements with any one key keep their input order. */
  lemma {:induction false} SortByKeyStable<T>(s: seq<T>, key: T -> string, k: string)
    ensures Filter(SortByKey(s, key), key, k) == Filter(s, key, k)
  {
    if s != [] {
      var init, last := s[..|s| - 1], s[|s| - 1];
      var sorted := SortByKey(init, key);
      var tail := if key(last) == k then [last] else [];
      assert SortByKey(s, key) == Insert(last, sorted, key);
      assert Filter(Insert(last, sorted, key), key, k) == Filter(sorted, key, k) + tail by {
        SortByKeySorted(init, key);
        InsertFilter(last, sorted, key, k);
      }
      assert Filter(s, key, k) == Filter(init, key, k) + tail by {
        DropLast(s);
        FilterAppend(init, [last], key, k);
        assert Filter([last], key, k) == tail + Filter([], key, k);
      }
      SortByKeyStable(init, key, k);
    }
  }

  // ---------------------------------------------------------------------------
  // `itertools.groupby(s, key=key)`: maximal runs of equal keys
  // ---------------------------------------------------------------------------

  function GroupBy<T>(s: seq<T>, key: T -> string): (runs: seq<seq<T>>)
    ensures forall i :: 0 <= i < |runs| ==> runs[i] != []
    ensures runs == [] <==> s == []
    decreases |s|
  {
    if s == [] then []
    else
      var rest := GroupBy(s[1..], key);
      if rest != [] && key(rest[0][0]) == key(s[0]) then [[s[0]] + rest[0]] + rest[1..]
      else [[s[0]]] + rest
  }

  /** The key shared by the elements of a run. */
  function RunKey<T>(run: seq<T>, key: T -> string): string
    requires run != []
  {
    key(run[0])
  }

  /**
   `groupby` splits `s` into consecutive runs: together they are `s`, every
   element of a run has the run's key, and the first run starts with `s[0]`.
   */
  lemma {:induction false} GroupByRuns<T>(s: seq<T>, key: T -> string)
    ensures Concat(GroupBy(s, key)) == s
    ensures forall i, j :: 0 <= i < |GroupBy(s, key)| && 0 <= j < |GroupBy(s, key)[i]| ==>
              key(GroupBy(s, key)[i][j]) == RunKey(GroupBy(s, key)[i], key)
    ensures s != [] ==> GroupBy(s, key)[0][0] == s[0]
    decreases |s|
  {
    if s != [] {
      var runs := GroupBy(s, key);
      var rest := GroupBy(s[1..], key);
      GroupByRuns(s[1..], key);
      assert s == [s[0]] + s[1..];
      if rest != [] && key(rest[0][0]) == key(s[0]) {
        ShapeJoined(s[0], key, s[1..], rest, runs);
      } else {
        ShapeApart(s[0], key, s[1..], rest, runs);
      }
    }
  }

  /** `GroupByRuns` when the first element joins the first run of the rest. */
  lemma ShapeJoined<T>(x: T, key: T -> string, t: seq<T>, rest: seq<seq<T>>, runs: seq<seq<T>>)
    requires rest != [] && rest[0] != [] && key(rest[0][0]) == key(x)
    requires runs == [[x] + rest[0]] + rest[1..] && Concat(rest) == t
    requires forall i, j :: 0 <= i < |rest| && 0 <= j < |rest[i]| ==> key(rest[i][j]) == RunKey(rest[i], key)
    ensures Concat(runs) == [x] + t && runs[0][0] == x
    ensures forall i, j :: 0 <= i < |runs| && 0 <= j < |runs[i]| ==> key(runs[i][j]) == RunKey(runs[i], key)
  {
    assert |runs| == |rest| && runs[1..] == rest[1..];
    assert Concat(runs) == [x] + t by {
      assert Concat(rest) == rest[0] + Concat(rest[1..]);
      assert Concat(runs) == ([x] + rest[0]) + Concat(rest[1..]);
      Reassociate([x], rest[0], Concat(rest[1..]));
    }
    forall i, j | 0 <= i < |runs| && 0 <= j < |runs[i]|
      ensures key(runs[i][j]) == RunKey(runs[i], key)
    {
      if i > 0 {
        assert runs[i] == rest[i];
      } else if j > 0 {
        assert runs[0][j] == rest[0][j - 1];
      }
    }
  }

  /** `GroupByRuns` when the first element starts a run of its own. */
  lemma ShapeApart<T>(x: T, key: T -> string, t: seq<T>, rest: seq<seq<T>>, runs: seq<seq<T>>)
    requires runs == [[x]] + rest && Concat(rest) == t
    requires forall i :: 0 <= i < |rest| ==> rest[i] != []
    requires forall i, j :: 0 <= i < |rest| && 0 <= j < |rest[i]| ==> key(rest[i][j]) == RunKey(rest[i], key)
    ensures Concat(runs) == [x] + t && runs[0][0] == x
    ensures forall i, j :: 0 <= i < |runs| && 0 <= j < |runs[i]| ==> key(runs[i][j]) == RunKey(runs[i], key)
  {
    assert |runs| == |rest| + 1 && runs[1..] == rest;
    forall i, j | 0 <= i < |runs| && 0 <= j < |runs[i]|
      ensures key(runs[i][j]) == RunKey(runs[i], key)
    {
      if i > 0 {
        assert runs[i] == rest[i - 1];
      }
    }
  }

  /** On sorted input, the run keys strictly increase. */
  lemma {:induction false} GroupByAscending<T>(s: seq<T>, key: T -> string)
    requires SortedBy(s, key)
    ensures forall i, j :: 0 <= i < j < |GroupBy(s, key)| ==>
              Below(RunKey(GroupBy(s, key)[i], key), RunKey(GroupBy(s, key)[j], key))
    decreases |s|
  {
    if s != [] {
      var runs := GroupBy(s, key);
      var t := s[1..];
      var rest := GroupBy(t, key);
      GroupByAscending(t, key);
      GroupByRuns(t, key);
      var k0 := key(s[0]);
      if rest != [] && key(rest[0][0]) == k0 {
        AscendingJoined(s[0], key, rest, runs);
      } else {
        if t != [] {
          assert Below(k0, key(t[0])) by {
            assert rest[0][0] == t[0];
            BelowTotal(k0, key(t[0]));
          }
          AboveEveryRun(t, key, k0);
        }
        AscendingApart(s[0], key, rest, runs);
      }
    }
  }

  /** `GroupByAscending` when the first element joins the first run of the rest. */
  lemma AscendingJoined<T>(x: T, key: T -> string, rest: seq<seq<T>>, runs: seq<seq<T>>)
    requires rest != [] && rest[0] != [] && key(rest[0][0]) == key(x)
    requires runs == [[x] + rest[0]] + rest[1..] && forall i :: 0 <= i < |rest| ==> rest[i] != []
    requires forall i, j :: 0 <= i < j < |rest| ==> Below(RunKey(rest[i], key), RunKey(rest[j], key))
    ensures forall i, j :: 0 <= i < j < |runs| ==> Below(RunKey(runs[i], key), RunKey(runs[j], key))
  {
    assert |runs| == |rest| && RunKey(runs[0], key) == RunKey(rest[0], key);
    forall i, j | 0 <= i < j < |runs|
      ensures Below(RunKey(runs[i], key), RunKey(runs[j], key))
    {
      assert runs[j] == rest[j];
      assert RunKey(runs[i], key) == RunKey(rest[i], key);
    }
  }

  /** `GroupByAscending` when the first element starts a run of its own. */
  lemma AscendingApart<T>(x: T, key: T -> string, rest: seq<seq<T>>, runs: seq<seq<T>>)
    requires runs == [[x]] + rest && forall i :: 0 <= i < |rest| ==> rest[i] != []
    requires forall i, j :: 0 <= i < j < |rest| ==> Below(RunKey(rest[i], key), RunKey(rest[j], key))
    requires forall i :: 0 <= i < |rest| ==> Below(key(x), RunKey(rest[i], key))
    ensures forall i, j :: 0 <= i < j < |runs| ==> Below(RunKey(runs[i], key), RunKey(runs[j], key))
  {
    assert |runs| == |rest| + 1 && RunKey(runs[0], key) == key(x);
    forall i, j | 0 <= i < j < |runs|
      ensures Below(RunKey(runs[i], key), RunKey(runs[j], key))
    {
      assert j - 1 < |rest| && runs[j] == rest[j - 1];
      if i > 0 {
        assert runs[i] == rest[i - 1];
      }
    }
  }

  /** A key below the first element of a sorted sequence is below every run key. */
  lemma AboveEveryRun<T>(t: seq<T>, key: T -> string, k0: string)
    requires SortedBy(t, key) && t != [] && Below(k0, key(t[0]))
    requires forall i, j :: 0 <= i < j < |GroupBy(t, key)| ==>
               Below(RunKey(GroupBy(t, key)[i], key), RunKey(GroupBy(t, key)[j], key))
    ensures forall i :: 0 <= i < |GroupBy(t, key)| ==> Below(k0, RunKey(GroupBy(t, key)[i], key))
  {
    var rest := GroupBy(t, key);
    GroupByRuns(t, key);
    forall i | 0 <= i < |rest|
      ensures Below(k0, RunKey(rest[i], key))
    {
      if i > 0 {
        BelowTransitive(k0, key(t[0]), RunKey(rest[i], key));
      }
    }
  }

  /** On sorted input, each run holds exactly the elements of `s` with its key. */
  lemma {:induction false} GroupByFilter<T>(s: seq<T>, key: T -> string)
    requires SortedBy(s, key)
    ensures forall i :: 0 <= i < |GroupBy(s, key)| ==>
              GroupBy(s, key)[i] == Filter(s, key, RunKey(GroupBy(s, key)[i], key))
    decreases |s|
  {
    if s != [] {
      var t := s[1..];
      var rest := GroupBy(t, key);
      var k0 := key(s[0]);
      assert SortedBy(t, key);
      assert forall i :: 0 <= i < |rest| ==> rest[i] == Filter(t, key, RunKey(rest[i], key)) by {
        GroupByFilter(t, key);
      }
      if rest != [] && key(rest[0][0]) == k0 {
        assert forall i :: 0 < i < |rest| ==> Below(RunKey(rest[0], key), RunKey(rest[i], key)) by {
          GroupByAscending(t, key);
        }
        RunsJoined(s, key, rest, GroupBy(s, key));
      } else {
        if t != [] {
          assert Below(k0, key(t[0])) by {
            GroupByRuns(t, key);
            BelowTotal(k0, key(t[0]));
          }
          FilterBelowFirst(t, key, k0);
          GroupByAscending(t, key);
          AboveEveryRun(t, key, k0);
        }
        RunsApart(s, key, rest, GroupBy(s, key));
      }
    }
  }

  /** `Filter` past an element whose key is not the one sought. */
  lemma FilterSkip<T>(s: seq<T>, key: T -> string, k: string)
    requires s != [] && key(s[0]) != k
    ensures Filter(s, key, k) == Filter(s[1..], key, k)
  {
    assert [] + Filter(s[1..], key, k) == Filter(s[1..], key, k);
  }

  /** A run of `s[1..]` whose key is above `s[0]`'s is also a run of `s`. */
  lemma RunOfTail<T>(s: seq<T>, key: T -> string, run: seq<T>)
    requires s != [] && run != [] && run == Filter(s[1..], key, RunKey(run, key))
    requires Below(key(s[0]), RunKey(run, key))
    ensures run == Filter(s, key, RunKey(run, key))
  {
    BelowIrreflexive(key(s[0]));
    FilterSkip(s, key, RunKey(run, key));
  }

  /** `GroupByFilter` when the first element joins the first run of the rest. */
  lemma RunsJoined<T>(s: seq<T>, key: T -> string, rest: seq<seq<T>>, runs: seq<seq<T>>)
    requires s != [] && rest != [] && rest[0] != [] && key(rest[0][0]) == key(s[0])
    requires runs == [[s[0]] + rest[0]] + rest[1..]
    requires forall i :: 0 <= i < |rest| ==> rest[i] != [] && rest[i] == Filter(s[1..], key, RunKey(rest[i], key))
    requires forall i :: 0 < i < |rest| ==> Below(RunKey(rest[0], key), RunKey(rest[i], key))
    ensures forall i :: 0 <= i < |runs| ==> runs[i] == Filter(s, key, RunKey(runs[i], key))
  {
    var k0 := key(s[0]);
    assert RunKey(rest[0], key) == k0;
    LaterRuns(s, key, rest);
    SameTail(runs, rest, [s[0]] + rest[0]);
    assert runs[0] == Filter(s, key, k0) by {
      assert Filter(s, key, k0) == [s[0]] + Filter(s[1..], key, k0);
    }
  }

  /** Replacing the first element keeps the length and every later element. */
  lemma SameTail<T>(runs: seq<T>, rest: seq<T>, x: T)
    requires rest != [] && runs == [x] + rest[1..]
    ensures |runs| == |rest| && runs[0] == x
    ensures forall i :: 0 < i < |rest| ==> runs[i] == rest[i]
  {
  }

  /** The runs of `s[1..]` after the first, whose keys are above `s[0]`'s, are runs of `s`. */
  lemma LaterRuns<T>(s: seq<T>, key: T -> string, rest: seq<seq<T>>)
    requires s != [] && rest != [] && rest[0] != [] && RunKey(rest[0], key) == key(s[0])
    requires forall i :: 0 <= i < |rest| ==> rest[i] != [] && rest[i] == Filter(s[1..], key, RunKey(rest[i], key))
    requires forall i :: 0 < i < |rest| ==> Below(RunKey(rest[0], key), RunKey(rest[i], key))
    ensures forall i :: 0 < i < |rest| ==> rest[i] == Filter(s, key, RunKey(rest[i], key))
  {
    forall i | 0 < i < |rest|
      ensures rest[i] == Filter(s, key, RunKey(rest[i], key))
    {
      RunOfTail(s, key, rest[i]);
    }
  }

  /** `GroupByFilter` when the first element starts a run of its own. */
  lemma RunsApart<T>(s: seq<T>, key: T -> string, rest: seq<seq<T>>, runs: seq<seq<T>>)
    requires s != [] && runs == [[s[0]]] + rest
    requires forall i :: 0 <= i < |rest| ==> rest[i] != [] && rest[i] == Filter(s[1..], key, RunKey(rest[i], key))
    requires forall i :: 0 <= i < |rest| ==> Below(key(s[0]), RunKey(rest[i], key))
    requires Filter(s[1..], key, key(s[0])) == []
    ensures forall i :: 0 <= i < |runs| ==> runs[i] == Filter(s, key, RunKey(runs[i], key))
  {
    var k0 := key(s[0]);
    assert |runs| == |rest| + 1 && runs[0] == [s[0]];
    assert Filter(s, key, k0) == [s[0]] + [];
    forall i | 1 <= i < |runs|
      ensures runs[i] == Filter(s, key, RunKey(runs[i], key))
    {
      assert i - 1 < |rest|;
      assert runs[i] == rest[i - 1];
      RunOfTail(s, key, rest[i - 1]);
    }
  }

  // ---------------------------------------------------------------------------
  // The merge plan
  // ---------------------------------------------------------------------------

  /** `groupby(sorted(xs, key=key), key=key)` as a list of groups. */
  function MergePlan<T>(xs: seq<T>, key: T -> string): (plan: seq<seq<T>>)
    ensures forall g :: 0 <= g < |plan| ==> plan[g] != []
    ensures plan == [] <==> xs == []
  {
    GroupBy(SortByKey(xs, key), key)
  }

  /** An element of a run is an element of the concatenation and back. */
  lemma {:induction false} InConcat<T>(runs: seq<seq<T>>, x: T)
    ensures x in Concat(runs) <==> exists i :: 0 <= i < |runs| && x in runs[i]
  {
    if runs != [] {
      InConcat(runs[1..], x);
      assert forall i :: 1 <= i < |runs| ==> runs[i] == runs[1..][i - 1];
    }
  }

  /**
   The groups partition the fragments: every group is non-empty and holds
   exactly the fragments with its key, in their original order; group keys
   strictly increase; every fragment lands in exactly one group.
   */
  lemma MergePlanSpec<T>(xs: seq<T>, key: T -> string)
    ensures forall g :: 0 <= g < |MergePlan(xs, key)| ==>
              MergePlan(xs, key)[g] != [] &&
              MergePlan(xs, key)[g] == Filter(xs, key, RunKey(MergePlan(xs, key)[g], key))
    ensures forall g, h :: 0 <= g < h < |MergePlan(xs, key)| ==>
              Below(RunKey(MergePlan(xs, key)[g], key), RunKey(MergePlan(xs, key)[h], key))
    ensures forall x :: x in xs ==> exists g :: 0 <= g < |MergePlan(xs, key)| && x in MergePlan(xs, key)[g]
    ensures forall g, h, x ::
              (0 <= g < |MergePlan(xs, key)| && 0 <= h < |MergePlan(xs, key)| &&
               x in MergePlan(xs, key)[g] && x in MergePlan(xs, key)[h]) ==> g == h
  {
    var sorted := SortByKey(xs, key);
    var plan := MergePlan(xs, key);
    SortByKeySorted(xs, key);
    GroupByAscending(sorted, key);
    GroupByFilter(sorted, key);
    GroupByRuns(sorted, key);
    forall g | 0 <= g < |plan|
      ensures plan[g] == Filter(xs, key, RunKey(plan[g], key))
    {
      SortByKeyStable(xs, key, RunKey(plan[g], key));
    }
    forall x | x in xs
      ensures exists g :: 0 <= g < |plan| && x in plan[g]
    {
      assert x in multiset(sorted);
      InConcat(plan, x);
    }
    forall g, h, x | 0 <= g < |plan| && 0 <= h < |plan| && x in plan[g] && x in plan[h]
      ensures g == h
    {
      InFilter(xs, key, RunKey(plan[g], key), x);
      InFilter(xs, key, RunKey(plan[h], key), x);
      if g < h {
        BelowIrreflexive(key(x));
      } else if h < g {
        BelowIrreflexive(key(x));
      }
    }
  }

  /** The key function of group level `depth`, for elements whose folder name is `folder(x)`. */
  function LevelKey<T>(folder: T -> string, depth: int): T -> string
  {
    x => FolderKey(folder(x), depth)
  }

  /** Every element of `a` is an element of `b`. */
  ghost predicate Within<T>(a: seq<T>, b: seq<T>)
  {
    forall i :: 0 <= i < |a| ==> a[i] in b
  }

  /** Every group at level `d2` lies inside one group at level `d1 <= d2`. */
  lemma PlanRefines<T>(xs: seq<T>, folder: T -> string, d1: int, d2: int, g: int)
    requires 0 <= d1 <= d2
    requires 0 <= g < |MergePlan(xs, LevelKey(folder, d2))|
    ensures exists h :: 0 <= h < |MergePlan(xs, LevelKey(folder, d1))| &&
              Within(MergePlan(xs, LevelKey(folder, d2))[g], MergePlan(xs, LevelKey(folder, d1))[h])
  {
    var k1, k2 := LevelKey(folder, d1), LevelKey(folder, d2);
    var fine, coarse := MergePlan(xs, k2), MergePlan(xs, k1);
    MergePlanSpec(xs, k2);
    MergePlanSpec(xs, k1);
    var x0 := fine[g][0];
    assert x0 in fine[g];
    InFilter(xs, k2, RunKey(fine[g], k2), x0);
    var h :| 0 <= h < |coarse| && x0 in coarse[h];
    forall i | 0 <= i < |fine[g]|
      ensures fine[g][i] in coarse[h]
    {
      var x := fine[g][i];
      InFilter(xs, k2, RunKey(fine[g], k2), x);
      InFilter(xs, k1, RunKey(coarse[h], k1), x0);
      KeyRefines(folder(x), folder(x0), d1, d2);
      InFilter(xs, k1, RunKey(coarse[h], k1), x);
    }
    assert Within(fine[g], coarse[h]);
  }
}
