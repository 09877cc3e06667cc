/**
 * `bubbleSort` of cpp_files/DSA/Array/bubble_sort/bubble_sort.cpp: passes of
 * adjacent swaps over `array[0..size)` (here `data`), each pass one slot
 * shorter, ending early after a pass without a swap.
 */
module Bubble {
  predicate Sorted(s: seq<int>)
  {
    forall i, j :: 0 <= i < j < |s| ==> s[i] <= s[j]
  }

  /** `s[lo..hi)` is in order. */
  predicate SortedBetween(s: seq<int>, lo: int, hi: int)
  {
    forall i, j :: lo <= i < j < hi && 0 <= i && j < |s| ==> s[i] <= s[j]
  }

  /** Nothing before `split` exceeds anything in `s[split..hi)`. */
  predicate Below(s: seq<int>, split: int, hi: int)
  {
    forall i, j :: 0 <= i < split <= j < hi && j < |s| ==> s[i] <= s[j]
  }

  /** `s[i]` is the largest of `s[0..i]`. */
  predicate MaxAt(s: seq<int>, i: int)
  {
    0 <= i < |s| && forall k :: 0 <= k < i ==> s[k] <= s[i]
  }

  method BubbleSort(data: array<int>, size: int)
    requires size <= data.Length
    modifies data
    ensures 0 <= size ==> Sorted(data[..size])
    ensures 0 <= size ==> multiset(data[..size]) == multiset(old(data[..size]))
    ensures 0 <= size ==> data[size..] == old(data[size..])
    ensures size <= 1 ==> data[..] == old(data[..])
  {
    var step := 0;
    while step < size - 1
      invariant 0 <= step && (size >= 1 ==> step <= size - 1)
      invariant SortedBetween(data[..], size - step, size) && Below(data[..], size - step, size)
      invariant multiset(data[..]) == multiset(old(data[..]))
      invariant 0 <= size ==> data[size..] == old(data[size..])
      invariant size <= 1 ==> data[..] == old(data[..])
    {
      ghost var before := data[..];
      var swapped := Pass(data, size - step, size);
      assert data[size..] == data[size - step..][step..] && before[size..] == before[size - step..][step..];
      if !swapped {
        break;
      }
      step := step + 1;
    }
    if 0 <= size {
      SamePrefix(data[..], old(data[..]), size);
    }
  }

  /**
   * One pass of the inner loop over `data[0..hi)`: compare and swap each
   * adjacent pair, carrying the largest value to `data[hi - 1]`.  The
   * result tells whether any pair was swapped.
   */
  method Pass(data: array<int>, hi: int, size: int) returns (swapped: bool)
    requires 2 <= hi <= size <= data.Length
    requires SortedBetween(data[..], hi, size) && Below(data[..], hi, size)
    modifies data
    ensures SortedBetween(data[..], hi - 1, size) && Below(data[..], hi - 1, size)
    ensures !swapped ==> SortedBetween(data[..], 0, hi)
    ensures multiset(data[..]) == multiset(old(data[..]))
    ensures data[hi..] == old(data[hi..])
  {
    swapped := false;
    for i := 0 to hi - 1
      invariant MaxAt(data[..], i)
      invariant SortedBetween(data[..], hi, size) && Below(data[..], hi, size)
      invariant !swapped ==> SortedBetween(data[..], 0, i + 1)
      invariant multiset(data[..]) == multiset(old(data[..]))
      invariant data[hi..] == old(data[hi..])
    {
      ghost var before := data[..];
      if data[i] > data[i + 1] {
        data[i], data[i + 1] := data[i + 1], data[i];
        assert data[..] == before[i := before[i + 1]][i + 1 := before[i]];
        SwapKeeps(before, data[..], i, hi, size);
        swapped := true;
      } else {
        StepKeeps(before, i, hi);
      }
    }
    EndOfPass(data[..], hi, size);
  }

  /** Swapping a descending pair keeps the pass invariants and moves the maximum on. */
  lemma SwapKeeps(s: seq<int>, t: seq<int>, i: int, hi: int, size: int)
    requires 0 <= i < i + 1 < hi <= size <= |s|
    requires t == s[i := s[i + 1]][i + 1 := s[i]] && s[i] > s[i + 1]
    requires MaxAt(s, i) && SortedBetween(s, hi, size) && Below(s, hi, size)
    ensures MaxAt(t, i + 1) && SortedBetween(t, hi, size) && Below(t, hi, size)
    ensures multiset(t) == multiset(s) && t[hi..] == s[hi..]
  {
  }

  /** Without a swap the maximum moves on and an unswapped prefix grows by one. */
  lemma StepKeeps(s: seq<int>, i: int, hi: int)
    requires 0 <= i < i + 1 < hi <= |s| && MaxAt(s, i) && s[i] <= s[i + 1]
    ensures MaxAt(s, i + 1)
    ensures SortedBetween(s, 0, i + 1) ==> SortedBetween(s, 0, i + 2)
  {
  }

  /** With the maximum at `hi - 1`, the sorted tail grows by one slot. */
  lemma EndOfPass(s: seq<int>, hi: int, size: int)
    requires 2 <= hi <= size <= |s| && MaxAt(s, hi - 1)
    requires SortedBetween(s, hi, size) && Below(s, hi, size)
    ensures SortedBetween(s, hi - 1, size) && Below(s, hi - 1, size)
  {
  }

  /** Equal contents with equal tails: the heads hold the same values. */
  lemma SamePrefix(s: seq<int>, t: seq<int>, n: int)
    requires 0 <= n <= |s| == |t| && multiset(s) == multiset(t)
    requires s[n..] == t[n..]
    ensures multiset(s[..n]) == multiset(t[..n])
  {
    assert s == s[..n] + s[n..];
    assert t == t[..n] + t[n..];
    assert multiset(s[..n]) + multiset(s[n..]) == multiset(t[..n]) + multiset(t[n..]);
    forall x
      ensures multiset(s[..n])[x] == multiset(t[..n])[x]
    {
      assert (multiset(s[..n]) + multiset(s[n..]))[x] == (multiset(t[..n]) + multiset(t[n..]))[x];
    }
  }

  /** The first of a sorted sequence is its least value. */
  lemma LeastFirst(s: seq<int>, x: int)
    requires Sorted(s) && s != [] && x in multiset(s)
    ensures s[0] <= x
  {
    var i :| 0 <= i < |s| && s[i] == x;
  }

  lemma TailValues(s: seq<int>)
    requires s != []
    ensures multiset(s[1..]) == multiset(s) - multiset{s[0]}
  {
    assert s == [s[0]] + s[1..];
  }

  lemma SortedTail(s: seq<int>)
    requires Sorted(s) && s != []
    ensures Sorted(s[1..])
  {
    forall i, j | 0 <= i < j < |s| - 1
      ensures s[1..][i] <= s[1..][j]
    {
      assert s[1..][i] == s[i + 1] && s[1..][j] == s[j + 1];
    }
  }

  /** Two sorted arrangements of the same values start alike and continue with the same values. */
  lemma UniqueHead(s: seq<int>, t: seq<int>)
    requires s != [] && t != [] && Sorted(s) && Sorted(t) && multiset(s) == multiset(t)
    ensures s[0] == t[0] && multiset(s[1..]) == multiset(t[1..])
    ensures Sorted(s[1..]) && Sorted(t[1..])
  {
    LeastFirst(s, t[0]);
    LeastFirst(t, s[0]);
    TailValues(s);
    TailValues(t);
    SortedTail(s);
    SortedTail(t);
  }

  lemma ConsEqual(s: seq<int>, t: seq<int>)
    requires s != [] && t != [] && s[0] == t[0] && s[1..] == t[1..]
    ensures s == t
  {
    assert s == [s[0]] + s[1..] && t == [t[0]] + t[1..];
  }

  /** A sorted arrangement of given values is unique. */
  lemma {:induction false} SortedUnique(s: seq<int>, t: seq<int>)
    requires Sorted(s) && Sorted(t) && multiset(s) == multiset(t)
    ensures s == t
    decreases |s|
  {
    assert |s| == |multiset(s)| == |t|;
    if s != [] {
      UniqueHead(s, t);
      SortedUnique(s[1..], t[1..]);
      ConsEqual(s, t);
    }
  }

  lemma InputValues()
    ensures multiset([64, 34, 25, 12, 22, 11, 90]) == multiset{64, 34, 25, 12, 22, 11, 90}
  {
  }

  lemma OutputValues()
    ensures multiset([11, 12, 22, 25, 34, 64, 90]) == multiset{11, 12, 22, 25, 34, 64, 90}
  {
  }

  lemma ExampleValues()
    ensures multiset([64, 34, 25, 12, 22, 11, 90]) == multiset([11, 12, 22, 25, 34, 64, 90])
  {
    InputValues();
    OutputValues();
    Reordered();
  }

  lemma Reordered()
    ensures multiset{64, 34, 25, 12, 22, 11, 90} == multiset{11, 12, 22, 25, 34, 64, 90}
  {
  }

  lemma ExampleSorted()
    ensures Sorted([11, 12, 22, 25, 34, 64, 90])
  {
  }

  /** The only sorted arrangement of the source's data. */
  lemma ExampleUnique(r: seq<int>, input: seq<int>)
    requires input == [64, 34, 25, 12, 22, 11, 90]
    requires Sorted(r) && multiset(r) == multiset(input)
    ensures r == [11, 12, 22, 25, 34, 64, 90]
  {
    ExampleValues();
    ExampleSorted();
    SortedUnique(r, [11, 12, 22, 25, 34, 64, 90]);
  }

  /** The array of the source's `main` comes out as 11 12 22 25 34 64 90. */
  method Example(data: array<int>)
    requires data[..] == [64, 34, 25, 12, 22, 11, 90]
    modifies data
    ensures data[..] == [11, 12, 22, 25, 34, 64, 90]
  {
    ghost var input := data[..];
    assert input[..data.Length] == input;
    BubbleSort(data, data.Length);
    assert data[..data.Length] == data[..];
    ExampleUnique(data[..], input);
  }
}
