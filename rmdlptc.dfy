/**
 * `Solution::deleteDuplicates` of
 * cpp_files/DSA/Array/remove_duplicates/rmdlptc.cpp: copies the values of
 * `head[0..size)` into the static buffer `unique`, skipping any value the
 * buffer already holds, and reports how many it kept.  `Dedupe` is what it
 * computes: the distinct values in order of first occurrence.
 */
module Rmdlptc {
  /** The size of the static buffer `unique`. */
  const Capacity := 100

  /** No value occurs twice. */
  predicate Distinct(s: seq<int>)
  {
    forall i, j :: 0 <= i < j < |s| ==> s[i] != s[j]
  }

  /** The number of elements the source's loop visits: `size`, or none when it is negative. */
  function Visited(size: int): (n: nat)
    ensures size >= 0 ==> n == size
    ensures size < 0 ==> n == 0
  {
    if size < 0 then 0 else size
  }

  /** The values of `s`, each at its first occurrence: the buffer `unique` after the loop. */
  function Dedupe(s: seq<int>): (d: seq<int>)
    ensures |d| <= |s|
  {
    if s == [] then []
    else
      var d := Dedupe(s[..|s| - 1]);
      var x := s[|s| - 1];
      if x in d then d else d + [x]
  }

  /** `Dedupe` keeps every value of `s` and adds none. */
  lemma {:induction false} DedupeMembers(s: seq<int>)
    ensures forall x :: x in Dedupe(s) <==> x in s
    decreases |s|
  {
    if s != [] {
      var p := s[..|s| - 1];
      assert s == p + [s[|s| - 1]];
      DedupeMembers(p);
    }
  }

  /** `Dedupe` keeps no value twice. */
  lemma {:induction false} DedupeDistinct(s: seq<int>)
    ensures Distinct(Dedupe(s))
    decreases |s|
  {
    if s != [] {
      DedupeDistinct(s[..|s| - 1]);
    }
  }

  /** The index at which `x` first occurs in `s`. */
  function First(s: seq<int>, x: int): (k: nat)
    requires x in s
    ensures k < |s| && s[k] == x && x !in s[..k]
  {
    if s[0] == x then 0
    else
      var k := First(s[1..], x);
      assert s[k + 1] == x;
      assert s[..k + 1] == [s[0]] + s[1..][..k];
      k + 1
  }

  /** A first occurrence is what `First` finds. */
  lemma FirstUnique(s: seq<int>, x: int, k: int)
    requires 0 <= k < |s| && s[k] == x && x !in s[..k]
    ensures First(s, x) == k
  {
  }

  /** Appending leaves the first occurrence of an earlier value where it was. */
  lemma FirstAppend(p: seq<int>, y: int, x: int)
    requires x in p
    ensures First(p + [y], x) == First(p, x)
  {
    var k := First(p, x);
    assert (p + [y])[..k] == p[..k];
    FirstUnique(p + [y], x, k);
  }

  /** `d` lists values of `s` in the order in which they first occur in `s`. */
  predicate FirstOccurrenceOrder(s: seq<int>, d: seq<int>)
  {
    forall i, j :: 0 <= i < j < |d| ==> d[i] in s && d[j] in s && First(s, d[i]) < First(s, d[j])
  }

  /** `Dedupe` keeps the values in the order in which they first occur. */
  lemma {:induction false} DedupeOrder(s: seq<int>)
    ensures FirstOccurrenceOrder(s, Dedupe(s))
    decreases |s|
  {
    if s != [] {
      var p, x := s[..|s| - 1], s[|s| - 1];
      assert s == p + [x];
      var d := Dedupe(p);
      DedupeMembers(s);
      DedupeMembers(p);
      DedupeOrder(p);
      forall y | y in d
        ensures First(s, y) == First(p, y)
      {
        FirstAppend(p, x, y);
      }
      if x !in d {
        assert s[..|p|] == p;
        FirstUnique(s, x, |p|);
        assert Dedupe(s) == d + [x];
        forall i, j | 0 <= i < j < |Dedupe(s)|
          ensures First(s, Dedupe(s)[i]) < First(s, Dedupe(s)[j])
        {
          assert Dedupe(s)[i] == d[i];
          if j < |d| {
            assert Dedupe(s)[j] == d[j];
          } else {
            assert First(p, d[i]) < |p|;
          }
        }
      }
    }
  }

  /** Visiting one more element grows the result by at most that element. */
  lemma DedupeNext(s: seq<int>, i: int)
    requires 0 <= i < |s|
    ensures Dedupe(s[..i + 1]) == if s[i] in Dedupe(s[..i]) then Dedupe(s[..i]) else Dedupe(s[..i]) + [s[i]]
  {
    assert s[..i + 1][..i] == s[..i];
  }

  /** A longer prefix never has fewer distinct values. */
  lemma {:induction false} DedupeGrows(s: seq<int>, i: int, n: int)
    requires 0 <= i <= n <= |s|
    ensures |Dedupe(s[..i])| <= |Dedupe(s[..n])|
    decreases n - i
  {
    if i < n {
      DedupeNext(s, i);
      DedupeGrows(s, i + 1, n);
    }
  }

  /**
   * The source's loops over `head`, writing into the buffer `unique` (of
   * `Capacity` elements, which the source's comment assumes is enough).
   * Positions of the buffer past `newSize` keep what they held.
   */
  method DeleteDuplicates(head: array<int>, size: int, unique: array<int>) returns (newSize: int)
    requires size <= head.Length && unique != head && unique.Length == Capacity
    requires |Dedupe(head[..Visited(size)])| <= Capacity
    modifies unique
    ensures 0 <= newSize <= Visited(size) && newSize <= Capacity
    ensures unique[..newSize] == Dedupe(head[..Visited(size)])
    ensures forall k :: newSize <= k < unique.Length ==> unique[k] == old(unique[k])
  {
    ghost var input := head[..Visited(size)];
    assert input[..|input|] == input;
    newSize := 0;
    var i := 0;
    while i < size
      invariant 0 <= i <= |input|
      invariant 0 <= newSize <= i && newSize <= Capacity
      invariant unique[..newSize] == Dedupe(input[..i])
      invariant forall k :: newSize <= k < unique.Length ==> unique[k] == old(unique[k])
    {
      var x := head[i];
      assert x == input[i];
      var isDuplicate := Holds(unique, newSize, x);
      DedupeNext(input, i);
      if !isDuplicate {
        DedupeGrows(input, i + 1, |input|);
        ghost var before := unique[..];
        unique[newSize] := x;
        assert unique[..newSize + 1] == before[..newSize] + [x];
        newSize := newSize + 1;
      }
      i := i + 1;
    }
    assert input[..i] == input;
  }

  /** The inner loop: whether `unique[0..count)` already holds `x`. */
  method Holds(unique: array<int>, count: int, x: int) returns (isDuplicate: bool)
    requires 0 <= count <= unique.Length
    ensures isDuplicate <==> x in unique[..count]
  {
    isDuplicate := false;
    var j := 0;
    while j < count
      invariant 0 <= j <= count
      invariant x !in unique[..j]
    {
      if x == unique[j] {
        isDuplicate := true;
        assert unique[..count][j] == x;
        break;
      }
      assert unique[..j + 1] == unique[..j] + [unique[j]];
      j := j + 1;
    }
  }

  /** `Dedupe` of a sequence one element longer, given `Dedupe` of the shorter one. */
  lemma DedupeSnoc(p: seq<int>, x: int, q: seq<int>, d: seq<int>, r: seq<int>)
    requires q == p + [x] && Dedupe(p) == d && r == if x in d then d else d + [x]
    ensures Dedupe(q) == r
  {
    assert q[..|p|] == p;
  }

  lemma SampleFront()
    ensures Dedupe([4, 2, 2, 1]) == [4, 2, 1]
  {
    DedupeSnoc([], 4, [4], [], [4]);
    DedupeSnoc([4], 2, [4, 2], [4], [4, 2]);
    DedupeSnoc([4, 2], 2, [4, 2, 2], [4, 2], [4, 2]);
    DedupeSnoc([4, 2, 2], 1, [4, 2, 2, 1], [4, 2], [4, 2, 1]);
  }

  /** The values of the source's `main`, one element at a time. */
  lemma SampleResult()
    ensures Dedupe([4, 2, 2, 1, 3, 4, 5]) == [4, 2, 1, 3, 5]
  {
    SampleFront();
    DedupeSnoc([4, 2, 2, 1], 3, [4, 2, 2, 1, 3], [4, 2, 1], [4, 2, 1, 3]);
    DedupeSnoc([4, 2, 2, 1, 3], 4, [4, 2, 2, 1, 3, 4], [4, 2, 1, 3], [4, 2, 1, 3]);
    DedupeSnoc([4, 2, 2, 1, 3, 4], 5, [4, 2, 2, 1, 3, 4, 5], [4, 2, 1, 3], [4, 2, 1, 3, 5]);
  }

  /** The array of the source's `main` leaves 4 2 1 3 5 at the front of the buffer. */
  method Example(nums: array<int>, unique: array<int>) returns (newSize: int)
    requires nums[..] == [4, 2, 2, 1, 3, 4, 5]
    requires unique.Length == Capacity && unique != nums
    modifies unique
    ensures newSize == 5 && unique[..newSize] == [4, 2, 1, 3, 5]
  {
    assert nums[..7] == nums[..];
    SampleResult();
    newSize := DeleteDuplicates(nums, nums.Length, unique);
  }
}
