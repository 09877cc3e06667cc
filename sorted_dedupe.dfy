/**
 * `Solution.deleteDuplicates` of
 * cpp_files/DSA/Array/remove_duplicates/tempCodeRunnerFile.py: sorts a copy
 * of the list, then walks it from the back and deletes every element that
 * occurs again further right.  `Sort` stands for Python's `sorted`;
 * `KeepLast` is what the backward walk leaves.
 */
module SortedDedupe {
  import Bubble
  import Rmdlptc

  /** `x` placed into `s` before the first element it does not exceed. */
  function Insert(x: int, s: seq<int>): seq<int>
  {
    if s == [] || x <= s[0] then [x] + s
    else [s[0]] + Insert(x, s[1..])
  }

  /** Python's `sorted`, as an insertion sort. */
  function Sort(s: seq<int>): seq<int>
  {
    if s == [] then [] else Insert(s[0], Sort(s[1..]))
  }

  /** A sorted sequence stays sorted with a value in front that exceeds none of it. */
  lemma ConsSorted(h: int, t: seq<int>)
    requires Bubble.Sorted(t) && forall k :: 0 <= k < |t| ==> h <= t[k]
    ensures Bubble.Sorted([h] + t)
  {
    forall i, j | 0 <= i < j < |t| + 1
      ensures ([h] + t)[i] <= ([h] + t)[j]
    {
      assert ([h] + t)[j] == t[j - 1];
      if i > 0 {
        assert ([h] + t)[i] == t[i - 1];
      }
    }
  }

  /** Insertion adds `x` to the values. */
  lemma {:induction false} InsertValues(x: int, s: seq<int>)
    ensures multiset(Insert(x, s)) == multiset(s) + multiset{x}
    decreases |s|
  {
    if s != [] && x > s[0] {
      InsertValues(x, s[1..]);
      assert s == [s[0]] + s[1..];
    }
  }

  /** A lower bound of `x` and of `s` bounds the result of inserting. */
  lemma {:induction false} InsertBound(x: int, s: seq<int>, b: int)
    requires b <= x && forall k :: 0 <= k < |s| ==> b <= s[k]
    ensures forall k :: 0 <= k < |Insert(x, s)| ==> b <= Insert(x, s)[k]
    decreases |s|
  {
    if s != [] && x > s[0] {
      var t := Insert(x, s[1..]);
      InsertBound(x, s[1..], b);
      assert forall k :: 1 <= k < |t| + 1 ==> ([s[0]] + t)[k] == t[k - 1];
    }
  }

  /** Insertion keeps a sequence sorted. */
  lemma {:induction false} InsertSorted(x: int, s: seq<int>)
    requires Bubble.Sorted(s)
    ensures Bubble.Sorted(Insert(x, s))
    decreases |s|
  {
    if s == [] || x <= s[0] {
      ConsSorted(x, s);
    } else {
      assert Bubble.Sorted(s[1..]);
      InsertSorted(x, s[1..]);
      InsertBound(x, s[1..], s[0]);
      ConsSorted(s[0], Insert(x, s[1..]));
    }
  }

  /** `Sort` returns the values of `s` in ascending order. */
  lemma {:induction false} SortMeans(s: seq<int>)
    ensures Bubble.Sorted(Sort(s)) && multiset(Sort(s)) == multiset(s)
    decreases |s|
  {
    if s != [] {
      SortMeans(s[1..]);
      InsertSorted(s[0], Sort(s[1..]));
      InsertValues(s[0], Sort(s[1..]));
      assert s == [s[0]] + s[1..];
    }
  }

  /** What the backward walk leaves of `s`: each element that does not occur again to its right. */
  function KeepLast(s: seq<int>): seq<int>
  {
    if s == [] then []
    else (if s[0] in s[1..] then [] else [s[0]]) + KeepLast(s[1..])
  }

  /** The walk keeps every value and adds none. */
  lemma {:induction false} KeepLastMembers(s: seq<int>)
    ensures forall x :: x in KeepLast(s) <==> x in s
    decreases |s|
  {
    if s != [] {
      KeepLastMembers(s[1..]);
      assert s == [s[0]] + s[1..];
    }
  }

  /** The walk keeps no value twice. */
  lemma {:induction false} KeepLastDistinct(s: seq<int>)
    ensures Rmdlptc.Distinct(KeepLast(s))
    decreases |s|
  {
    if s != [] {
      KeepLastDistinct(s[1..]);
      KeepLastMembers(s[1..]);
    }
  }

  /** The walk keeps a sorted sequence sorted. */
  lemma {:induction false} KeepLastSorted(s: seq<int>)
    requires Bubble.Sorted(s)
    ensures Bubble.Sorted(KeepLast(s))
    decreases |s|
  {
    if s != [] {
      var t := KeepLast(s[1..]);
      assert Bubble.Sorted(s[1..]);
      KeepLastSorted(s[1..]);
      KeepLastMembers(s[1..]);
      forall k | 0 <= k < |t|
        ensures s[0] <= t[k]
      {
        assert t[k] in t;
        var m :| 0 <= m < |s[1..]| && s[1..][m] == t[k];
        assert s[m + 1] == t[k];
      }
      if s[0] in s[1..] {
        assert KeepLast(s) == t;
      } else {
        assert KeepLast(s) == [s[0]] + t;
        ConsSorted(s[0], t);
      }
    }
  }

  /** The source's loop, deleting in place from the back of the sorted copy. */
  method DeleteDuplicates(input: seq<int>) returns (head: seq<int>)
    ensures head == KeepLast(Sort(input))
  {
    head := Sort(input);
    ghost var sorted := head;
    var i := |head| - 1;
    assert sorted[i + 1..] == [];
    while i >= 0
      invariant -1 <= i < |sorted|
      invariant head == sorted[..i + 1] + KeepLast(sorted[i + 1..])
    {
      ghost var rest := KeepLast(sorted[i + 1..]);
      Parts(sorted[..i + 1], rest);
      assert sorted[..i + 1][i] == sorted[i] && sorted[..i + 1][..i] == sorted[..i];
      KeepLastStep(sorted, i);
      KeepLastMember(sorted[i + 1..], sorted[i]);
      if head[i] in head[i + 1..] {
        head := head[..i] + head[i + 1..];
      } else {
        assert sorted[..i + 1] == sorted[..i] + [sorted[i]];
      }
      i := i - 1;
    }
    assert sorted[0..] == sorted;
  }

  /** The pieces of a concatenation. */
  lemma Parts(a: seq<int>, b: seq<int>)
    ensures (a + b)[..|a|] == a && (a + b)[|a|..] == b
  {
  }

  /** One step of the walk, read from its position. */
  lemma KeepLastStep(s: seq<int>, i: int)
    requires 0 <= i < |s|
    ensures KeepLast(s[i..]) == (if s[i] in s[i + 1..] then [] else [s[i]]) + KeepLast(s[i + 1..])
  {
    assert s[i..][0] == s[i] && s[i..][1..] == s[i + 1..];
  }

  lemma KeepLastMember(s: seq<int>, x: int)
    ensures x in KeepLast(s) <==> x in s
  {
    KeepLastMembers(s);
  }

  /** The result is in ascending order, repeats nothing, and holds exactly the input's values. */
  lemma DeleteDuplicatesMeans(input: seq<int>)
    ensures Bubble.Sorted(KeepLast(Sort(input)))
    ensures Rmdlptc.Distinct(KeepLast(Sort(input)))
    ensures forall x :: x in KeepLast(Sort(input)) <==> x in input
  {
    var s := Sort(input);
    SortMeans(input);
    KeepLastSorted(s);
    KeepLastDistinct(s);
    KeepLastMembers(s);
    forall x
      ensures x in s <==> x in input
    {
      assert x in s <==> x in multiset(s);
      assert x in input <==> x in multiset(input);
    }
  }

  /** Ascending without repeats. */
  predicate Increasing(s: seq<int>)
  {
    forall i, j :: 0 <= i < j < |s| ==> s[i] < s[j]
  }

  /** Two ascending sequences without repeats holding the same values are equal. */
  lemma {:induction false} IncreasingUnique(a: seq<int>, b: seq<int>)
    requires Increasing(a) && Increasing(b)
    requires forall x :: x in a <==> x in b
    ensures a == b
    decreases |a|
  {
    if a != [] {
      assert a[0] in a;
    }
    if b != [] {
      assert b[0] in b;
    }
    if a != [] && b != [] {
      assert a[0] == b[0];
      forall x
        ensures x in a[1..] <==> x in b[1..]
      {
        assert x in a[1..] <==> x in a && x != a[0];
        assert x in b[1..] <==> x in b && x != b[0];
      }
      IncreasingUnique(a[1..], b[1..]);
      assert a == [a[0]] + a[1..] && b == [b[0]] + b[1..];
    }
  }

  /** On sorted input the first-occurrence dedupe stays sorted. */
  lemma {:induction false} DedupeSorted(s: seq<int>)
    requires Bubble.Sorted(s)
    ensures Bubble.Sorted(Rmdlptc.Dedupe(s))
    decreases |s|
  {
    if s != [] {
      var p, x := s[..|s| - 1], s[|s| - 1];
      assert Bubble.Sorted(p);
      DedupeSorted(p);
      Rmdlptc.DedupeMembers(p);
      var d := Rmdlptc.Dedupe(p);
      forall k | 0 <= k < |d|
        ensures d[k] <= x
      {
        assert d[k] in d;
        var m :| 0 <= m < |p| && p[m] == d[k];
        assert s[m] == p[m];
      }
      SnocSorted(d, x);
    }
  }

  /** A sorted sequence stays sorted with a value after it that none of it exceeds. */
  lemma SnocSorted(d: seq<int>, x: int)
    requires Bubble.Sorted(d) && forall k :: 0 <= k < |d| ==> d[k] <= x
    ensures Bubble.Sorted(d + [x])
  {
  }

  /** Sorted without repeats is ascending. */
  lemma SortedDistinct(s: seq<int>)
    requires Bubble.Sorted(s) && Rmdlptc.Distinct(s)
    ensures Increasing(s)
  {
  }

  /**
   * The Python routine gives what the C++ routine gives on the sorted
   * list: the two agree up to the order the values are kept in.
   */
  lemma AgreesWithFirstOccurrence(input: seq<int>)
    ensures KeepLast(Sort(input)) == Rmdlptc.Dedupe(Sort(input))
  {
    var s := Sort(input);
    SortMeans(input);
    DeleteDuplicatesMeans(input);
    SortedDistinct(KeepLast(s));
    DedupeSorted(s);
    Rmdlptc.DedupeDistinct(s);
    Rmdlptc.DedupeMembers(s);
    SortedDistinct(Rmdlptc.Dedupe(s));
    KeepLastMembers(s);
    IncreasingUnique(KeepLast(s), Rmdlptc.Dedupe(s));
  }

  /** The list of the source's test keeps one of each of 1 to 6. */
  lemma SampleResult(head: seq<int>)
    requires head == [1, 1, 2, 3, 3, 4, 5, 6, 6]
    ensures KeepLast(Sort(head)) == [1, 2, 3, 4, 5, 6]
  {
    var r := KeepLast(Sort(head));
    DeleteDuplicatesMeans(head);
    SortedDistinct(r);
    forall x
      ensures x in r <==> x in [1, 2, 3, 4, 5, 6]
    {
      assert x in head <==> x in [1, 2, 3, 4, 5, 6];
    }
    IncreasingUnique(r, [1, 2, 3, 4, 5, 6]);
  }

  method Example() returns (newHead: seq<int>)
    ensures newHead == [1, 2, 3, 4, 5, 6]
  {
    var head := [1, 1, 2, 3, 3, 4, 5, 6, 6];
    newHead := DeleteDuplicates(head);
    SampleResult(head);
  }
}
