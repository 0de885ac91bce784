/**
  Preparing one directory's entries for display: `filterFiles` keeps the
  directories, `sortFiles` orders the entries by name.
 */
module Listing {
  import opened Lexical
  import opened Tree

  // ---------------------------------------------------------------- filter

  /** The directory entries of `s`, in their original order. */
  function DirsOnly(s: seq<Entry>): (r: seq<Entry>)
    ensures |r| <= |s|
    ensures forall i :: 0 <= i < |r| ==> IsDir(r[i]) && r[i] in s
  {
    if s == [] then []
    else DirsOnly(s[..|s| - 1]) + (if IsDir(s[|s| - 1]) then [s[|s| - 1]] else [])
  }

  /** `filterFiles`: appends every directory entry to a fresh result. */
  method FilterFiles(files: seq<Entry>) returns (res: seq<Entry>)
    ensures res == DirsOnly(files)
  {
    res := [];
    for i := 0 to |files|
      invariant res == DirsOnly(files[..i])
    {
      assert files[..i + 1][..i] == files[..i];
      if IsDir(files[i]) {
        res := res + [files[i]];
      }
    }
    assert files[..|files|] == files;
  }

  /** Filtering keeps exactly the directories, each as often as it occurs. */
  lemma {:induction false} DirsOnlyCount(s: seq<Entry>, x: Entry)
    ensures multiset(DirsOnly(s))[x] == if IsDir(x) then multiset(s)[x] else 0
  {
    if s != [] {
      var init, last := s[..|s| - 1], s[|s| - 1];
      assert s == init + [last];
      DirsOnlyCount(init, x);
    }
  }

  /** Filtering works piecewise, so the relative order of directories is kept. */
  lemma {:induction false} DirsOnlyConcat(s: seq<Entry>, t: seq<Entry>)
    ensures DirsOnly(s + t) == DirsOnly(s) + DirsOnly(t)
    decreases |t|
  {
    if t != [] {
      var init, last := t[..|t| - 1], t[|t| - 1];
      assert (s + t)[..|s + t| - 1] == s + init;
      DirsOnlyConcat(s, init);
    } else {
      assert s + t == s;
    }
  }

  lemma {:induction false} DirsOnlyUnique(s: seq<Entry>)
    requires UniqueNames(s)
    ensures UniqueNames(DirsOnly(s))
  {
    if s != [] {
      var init, last := s[..|s| - 1], s[|s| - 1];
      DirsOnlyUnique(init);
      forall x | x in DirsOnly(init)
        ensures x.name != last.name
      {
        var k :| 0 <= k < |init| && init[k] == x;
        assert s[k] == x;
      }
    }
  }

  // ------------------------------------------------------------------ sort

  /** The comparator handed to `sort.Slice`, as written: both branches compare
      the names, so the first one adds nothing. */
  function ByName(x: Entry, y: Entry): (r: bool)
    ensures r <==> Less(x.name, y.name)
  {
    if x.name != y.name then Less(x.name, y.name) else Less(x.name, y.name)
  }

  /** Ascending by name: no later entry sorts before an earlier one. */
  predicate SortedByName(s: seq<Entry>)
  {
    forall i, j :: 0 <= i < j < |s| ==> AtMost(s[i].name, s[j].name)
  }

  predicate StrictlyAscending(s: seq<Entry>)
  {
    forall i, j :: 0 <= i < j < |s| ==> Less(s[i].name, s[j].name)
  }

  /** `sortFiles`: sorts the slice in place. `sort.Slice` leaves its algorithm
      unspecified; an insertion sort stands in for it. */
  method SortFiles(a: array<Entry>)
    modifies a
    ensures SortedByName(a[..])
    ensures multiset(a[..]) == multiset(old(a[..]))
  {
    var i := 0;
    while i < a.Length
      invariant 0 <= i <= a.Length
      invariant SortedByName(a[..i])
      invariant multiset(a[..]) == multiset(old(a[..]))
    {
      InsertAt(a, i);
      i := i + 1;
    }
    assert a[..a.Length] == a[..];
  }

  /** One step of the insertion sort: moves `a[i]` down into the sorted
      prefix `a[..i]` by swapping it with its left neighbour while the
      comparator puts it first. */
  method InsertAt(a: array<Entry>, i: nat)
    requires i < a.Length && SortedByName(a[..i])
    modifies a
    ensures SortedByName(a[..i + 1])
    ensures multiset(a[..]) == multiset(old(a[..]))
    ensures forall k :: i < k < a.Length ==> a[k] == old(a[k])
  {
    var j := i;
    while j > 0 && ByName(a[j], a[j - 1])
      invariant 0 <= j <= i
      invariant forall p, q :: 0 <= p < q <= i && p != j && q != j ==> AtMost(a[p].name, a[q].name)
      invariant forall q :: j < q <= i ==> Less(a[j].name, a[q].name)
      invariant multiset(a[..]) == multiset(old(a[..]))
      invariant forall k :: i < k < a.Length ==> a[k] == old(a[k])
    {
      Swap(a, j);
      j := j - 1;
    }
    InsertedInPlace(a, i, j);
  }

  /** Exchanges `a[j]` with its left neighbour. */
  method Swap(a: array<Entry>, j: nat)
    requires 0 < j < a.Length
    modifies a
    ensures a[j - 1] == old(a[j]) && a[j] == old(a[j - 1])
    ensures forall k :: 0 <= k < a.Length && k != j - 1 && k != j ==> a[k] == old(a[k])
    ensures multiset(a[..]) == multiset(old(a[..]))
  {
    a[j - 1], a[j] := a[j], a[j - 1];
  }

  /** When the insertion stops at `j`, the entry there fits between its
      neighbours and the prefix `a[..i + 1]` is sorted. */
  lemma InsertedInPlace(a: array<Entry>, i: nat, j: nat)
    requires j <= i < a.Length
    requires forall p, q :: 0 <= p < q <= i && p != j && q != j ==> AtMost(a[p].name, a[q].name)
    requires forall q :: j < q <= i ==> Less(a[j].name, a[q].name)
    requires j > 0 ==> !ByName(a[j], a[j - 1])
    ensures SortedByName(a[..i + 1])
  {
    forall q | j < q <= i
      ensures AtMost(a[j].name, a[q].name)
    {
      LessAsymmetric(a[j].name, a[q].name);
    }
    forall p | 0 <= p < j
      ensures AtMost(a[p].name, a[j].name)
    {
      if p < j - 1 {
        AtMostTransitive(a[p].name, a[j - 1].name, a[j].name);
      }
    }
  }

  /** Places `x` before the first entry that does not sort before it. */
  function Insert(x: Entry, s: seq<Entry>): (r: seq<Entry>)
    ensures multiset(r) == multiset(s) + multiset{x}
  {
    if s == [] || !Less(s[0].name, x.name) then [x] + s
    else
      assert s == [s[0]] + s[1..];
      [s[0]] + Insert(x, s[1..])
  }

  /** A reference sort by name: insertion into an already sorted tail. */
  function SortSpec(s: seq<Entry>): (r: seq<Entry>)
    ensures multiset(r) == multiset(s)
  {
    if s == [] then []
    else
      assert s == [s[0]] + s[1..];
      Insert(s[0], SortSpec(s[1..]))
  }

  lemma {:induction false} InsertSorted(x: Entry, s: seq<Entry>)
    requires SortedByName(s)
    ensures SortedByName(Insert(x, s))
  {
    if s == [] || !Less(s[0].name, x.name) {
      forall j | 0 <= j < |s|
        ensures AtMost(x.name, s[j].name)
      {
        if j > 0 {
          AtMostTransitive(x.name, s[0].name, s[j].name);
        }
      }
    } else {
      InsertSorted(x, s[1..]);
      var r := Insert(x, s[1..]);
      forall k | 0 <= k < |r|
        ensures AtMost(s[0].name, r[k].name)
      {
        assert r[k] in multiset(s[1..]) + multiset{x};
        if r[k] == x {
          LessAsymmetric(s[0].name, x.name);
        } else {
          var m :| 0 <= m < |s[1..]| && s[1..][m] == r[k];
          assert s[m + 1] == r[k];
        }
      }
    }
  }

  lemma {:induction false} SortSpecSorted(s: seq<Entry>)
    ensures SortedByName(SortSpec(s))
  {
    if s != [] {
      SortSpecSorted(s[1..]);
      InsertSorted(s[0], SortSpec(s[1..]));
    }
  }

  lemma {:induction false} InsertUnique(x: Entry, s: seq<Entry>)
    requires UniqueNames(s)
    requires forall y | y in s :: y.name != x.name
    ensures UniqueNames(Insert(x, s))
  {
    if s != [] && Less(s[0].name, x.name) {
      InsertUnique(x, s[1..]);
      var r := Insert(x, s[1..]);
      forall k | 0 <= k < |r|
        ensures r[k].name != s[0].name
      {
        assert r[k] in multiset(s[1..]) + multiset{x};
        if r[k] != x {
          var m :| 0 <= m < |s[1..]| && s[1..][m] == r[k];
          assert s[m + 1] == r[k];
        }
      }
    }
  }

  lemma {:induction false} SortSpecUnique(s: seq<Entry>)
    requires UniqueNames(s)
    ensures UniqueNames(SortSpec(s))
  {
    if s != [] {
      SortSpecUnique(s[1..]);
      forall y | y in SortSpec(s[1..])
        ensures y.name != s[0].name
      {
        assert y in multiset(s[1..]);
        var m :| 0 <= m < |s[1..]| && s[1..][m] == y;
        assert s[m + 1] == y;
      }
      InsertUnique(s[0], SortSpec(s[1..]));
    }
  }

  /** Sorting by name has one answer once names are unique, whatever the
      algorithm: two sorted permutations of such a listing are equal. */
  lemma {:induction false} SortedPermutationsEqual(a: seq<Entry>, b: seq<Entry>)
    requires SortedByName(a) && SortedByName(b)
    requires multiset(a) == multiset(b)
    requires UniqueNames(a)
    ensures a == b
  {
    if a != [] {
      SortedHeadsEqual(a, b);
      TailsSameMultiset(a, b);
      assert SortedByName(a[1..]) && SortedByName(b[1..]) && UniqueNames(a[1..]);
      SortedPermutationsEqual(a[1..], b[1..]);
      assert a == [a[0]] + a[1..] && b == [b[0]] + b[1..];
    }
  }

  lemma SortedHeadsEqual(a: seq<Entry>, b: seq<Entry>)
    requires SortedByName(a) && SortedByName(b)
    requires multiset(a) == multiset(b)
    requires UniqueNames(a)
    requires a != []
    ensures b != [] && a[0] == b[0]
  {
    assert a[0] in multiset(b);
    var k :| 0 <= k < |b| && b[k] == a[0];
    assert b[0] in multiset(a);
    var m :| 0 <= m < |a| && a[m] == b[0];
    LessTotal(a[0].name, b[0].name);
  }

  lemma TailsSameMultiset(a: seq<Entry>, b: seq<Entry>)
    requires a != [] && b != [] && a[0] == b[0]
    requires multiset(a) == multiset(b)
    ensures multiset(a[1..]) == multiset(b[1..])
  {
    assert a == [a[0]] + a[1..] && b == [b[0]] + b[1..];
    assert multiset(a[1..]) == multiset(a) - multiset{a[0]};
    assert multiset(b[1..]) == multiset(b) - multiset{b[0]};
  }

  /** With unique names, sorted means strictly ascending. */
  lemma SortedUniqueIsStrict(s: seq<Entry>)
    requires SortedByName(s) && UniqueNames(s)
    ensures StrictlyAscending(s)
  {
    forall i, j | 0 <= i < j < |s|
      ensures Less(s[i].name, s[j].name)
    {
      LessTotal(s[i].name, s[j].name);
    }
  }

  // ------------------------------------------------------------- together

  /** The entries of one directory in display order: files dropped unless
      requested, then sorted by name. */
  function Prepare(children: seq<Entry>, printFiles: bool): (r: seq<Entry>)
    ensures forall i :: 0 <= i < |r| ==> r[i] in children
  {
    var kept := if printFiles then children else DirsOnly(children);
    var r := SortSpec(kept);
    assert forall i :: 0 <= i < |r| ==> r[i] in multiset(kept);
    r
  }

  /** Display order is strictly ascending by name, holds exactly the entries
      that survive the filter, and holds no file unless files are requested. */
  lemma PrepareOrdered(children: seq<Entry>, printFiles: bool)
    requires UniqueNames(children)
    ensures var r := Prepare(children, printFiles);
      && StrictlyAscending(r)
      && UniqueNames(r)
      && multiset(r) == multiset(if printFiles then children else DirsOnly(children))
      && (!printFiles ==> forall i :: 0 <= i < |r| ==> IsDir(r[i]))
  {
    var kept := if printFiles then children else DirsOnly(children);
    if !printFiles {
      DirsOnlyUnique(children);
    }
    SortSpecSorted(kept);
    SortSpecUnique(kept);
    SortedUniqueIsStrict(SortSpec(kept));
    var r := SortSpec(kept);
    forall i | 0 <= i < |r| && !printFiles
      ensures IsDir(r[i])
    {
      assert r[i] in multiset(kept);
    }
  }
}
