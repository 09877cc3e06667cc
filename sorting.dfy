/**
 * Python's `list.sort(key=...)` as used by the driver assignment: a stable
 * sort by a key compared lexicographically.  Keys are pairs of an integer
 * and a distance, which covers both the plain distance key and the
 * `(not available, distance)` key.
 */
module Sorting {

  /** A sort key; Python orders key tuples field by field. */
  datatype Rank = Rank(major: int, minor: real)

  predicate Le(a: Rank, b: Rank)
  {
    a.major < b.major || (a.major == b.major && a.minor <= b.minor)
  }

  predicate Sorted<T>(s: seq<T>, key: T -> Rank)
  {
    forall i, j :: 0 <= i < j < |s| ==> Le(key(s[i]), key(s[j]))
  }

  /**
   * Puts `x` in front of the first element whose key is not below `x`'s;
   * elements with the same key as `x` stay behind it.
   */
  function Insert<T>(x: T, t: seq<T>, key: T -> Rank): (r: seq<T>)
    ensures |r| == |t| + 1 && multiset(r) == multiset(t) + multiset{x}
    ensures r[0] == x || (t != [] && r[0] == t[0])
  {
    if t == [] then [x]
    else if Le(key(x), key(t[0])) then [x] + t
    else
      assert t == [t[0]] + t[1..];
      [t[0]] + Insert(x, t[1..], key)
  }

  lemma ConsSorted<T>(a: T, s: seq<T>, key: T -> Rank)
    requires Sorted(s, key) && (s == [] || Le(key(a), key(s[0])))
    ensures Sorted([a] + s, key)
  {
    var r := [a] + s;
    forall i, j | 0 <= i < j < |r|
      ensures Le(key(r[i]), key(r[j]))
    {
      if i == 0 && j > 1 {
        assert Le(key(s[0]), key(s[j - 1]));
      }
    }
  }

  /** Inserting into a sorted list keeps it sorted. */
  lemma {:induction false} InsertSorted<T>(x: T, t: seq<T>, key: T -> Rank)
    requires Sorted(t, key)
    ensures Sorted(Insert(x, t, key), key)
  {
    if t == [] {
    } else if Le(key(x), key(t[0])) {
      ConsSorted(x, t, key);
    } else {
      var rest := Insert(x, t[1..], key);
      InsertSorted(x, t[1..], key);
      assert Sorted(t[1..], key);
      ConsSorted(t[0], rest, key);
    }
  }

  /** A stable sort by `key`: the result is ordered and a permutation of `s`. */
  function SortBy<T>(s: seq<T>, key: T -> Rank): (r: seq<T>)
    ensures |r| == |s| && multiset(r) == multiset(s)
    ensures Sorted(r, key)
  {
    if s == [] then []
    else
      assert s == [s[0]] + s[1..];
      InsertSorted(s[0], SortBy(s[1..], key), key);
      Insert(s[0], SortBy(s[1..], key), key)
  }

  /** `s[k]` has the least key, and every element before it a strictly greater one. */
  predicate FirstLeast<T>(s: seq<T>, key: T -> Rank, k: int)
  {
    0 <= k < |s|
    && (forall j :: 0 <= j < |s| ==> Le(key(s[k]), key(s[j])))
    && (forall j :: 0 <= j < k ==> !Le(key(s[j]), key(s[k])))
  }

  /**
   * The head of the sorted list is the earliest element with the least key:
   * among equal keys the sort keeps input order.
   */
  lemma SortHead<T>(s: seq<T>, key: T -> Rank)
    requires s != []
    ensures exists k :: FirstLeast(s, key, k) && SortBy(s, key)[0] == s[k]
  {
    var k := HeadIndex(s, key);
  }

  lemma {:induction false} HeadIndex<T>(s: seq<T>, key: T -> Rank) returns (k: int)
    requires s != []
    ensures FirstLeast(s, key, k) && SortBy(s, key)[0] == s[k]
  {
    var rest := SortBy(s[1..], key);
    SortByHead(s, key);
    if |s| == 1 {
      k := 0;
    } else {
      var k' := HeadIndex(s[1..], key);
      assert rest[0] == s[k' + 1];
      if Le(key(s[0]), key(s[k' + 1])) {
        k := 0;
        HeadStays(s, key, k');
      } else {
        k := k' + 1;
        HeadMoves(s, key, k');
      }
    }
  }

  /** The sorted head is the first element or the head of the sorted rest. */
  lemma SortByHead<T>(s: seq<T>, key: T -> Rank)
    requires s != []
    ensures var rest := SortBy(s[1..], key);
            SortBy(s, key)[0] == (if rest == [] || Le(key(s[0]), key(rest[0])) then s[0] else rest[0])
  {
    assert SortBy(s, key) == Insert(s[0], SortBy(s[1..], key), key);
    InsertHead(s[0], SortBy(s[1..], key), key);
  }

  lemma InsertHead<T>(x: T, t: seq<T>, key: T -> Rank)
    ensures Insert(x, t, key)[0] == (if t == [] || Le(key(x), key(t[0])) then x else t[0])
  {
  }

  /** The first element keeps the head when it is not above the rest's least key. */
  lemma HeadStays<T>(s: seq<T>, key: T -> Rank, k': int)
    requires |s| >= 2 && FirstLeast(s[1..], key, k') && Le(key(s[0]), key(s[k' + 1]))
    ensures FirstLeast(s, key, 0)
  {
    forall j | 0 < j < |s|
      ensures Le(key(s[0]), key(s[j]))
    {
      assert Le(key(s[1..][k']), key(s[1..][j - 1]));
    }
  }

  /** Otherwise the rest's earliest least element is the head of the whole. */
  lemma HeadMoves<T>(s: seq<T>, key: T -> Rank, k': int)
    requires |s| >= 2 && FirstLeast(s[1..], key, k') && !Le(key(s[0]), key(s[k' + 1]))
    ensures FirstLeast(s, key, k' + 1)
  {
    forall j | 0 < j < |s|
      ensures Le(key(s[k' + 1]), key(s[j]))
    {
      assert Le(key(s[1..][k']), key(s[1..][j - 1]));
    }
    forall j | 0 < j < k' + 1
      ensures !Le(key(s[j]), key(s[k' + 1]))
    {
      assert !Le(key(s[1..][j - 1]), key(s[1..][k']));
    }
  }

  /** The elements of `s` whose key is `k`, in the order of `s`. */
  function WithKey<T>(s: seq<T>, key: T -> Rank, k: Rank): (r: seq<T>)
    ensures |r| <= |s|
  {
    if s == [] then [] else (if key(s[0]) == k then [s[0]] else []) + WithKey(s[1..], key, k)
  }

  lemma WithKeyCons<T>(a: T, s: seq<T>, key: T -> Rank, k: Rank)
    ensures WithKey([a] + s, key, k) == (if key(a) == k then [a] else []) + WithKey(s, key, k)
  {
    assert ([a] + s)[0] == a && ([a] + s)[1..] == s;
  }

  /**
   * Inserting `x` puts it in front of every element of `t` with the same
   * key: it passes only elements whose keys are strictly lower.
   */
  lemma {:induction false} InsertWithKey<T>(x: T, t: seq<T>, key: T -> Rank, k: Rank)
    ensures WithKey(Insert(x, t, key), key, k) == (if key(x) == k then [x] else []) + WithKey(t, key, k)
  {
    if t == [] {
      assert Insert(x, t, key) == [x] + [];
      WithKeyCons(x, [], key, k);
    } else if Le(key(x), key(t[0])) {
      assert Insert(x, t, key) == [x] + t;
      WithKeyCons(x, t, key, k);
    } else {
      var rest := Insert(x, t[1..], key);
      assert Insert(x, t, key) == [t[0]] + rest;
      InsertWithKey(x, t[1..], key, k);
      PassLower(x, t, rest, key, k);
    }
  }

  /** Passing an element with a strictly lower key does not change `x`'s place among its key. */
  lemma PassLower<T>(x: T, t: seq<T>, rest: seq<T>, key: T -> Rank, k: Rank)
    requires t != [] && !Le(key(x), key(t[0]))
    requires WithKey(rest, key, k) == (if key(x) == k then [x] else []) + WithKey(t[1..], key, k)
    ensures WithKey([t[0]] + rest, key, k) == (if key(x) == k then [x] else []) + WithKey(t, key, k)
  {
    var here := if key(x) == k then [x] else [];
    var there := if key(t[0]) == k then [t[0]] else [];
    WithKeyCons(t[0], rest, key, k);
    assert t == [t[0]] + t[1..];
    WithKeyCons(t[0], t[1..], key, k);
    assert key(t[0]) != key(x);
    assert there + here == here + there;
  }

  /**
   * The sort is stable: the elements sharing any one key come out in the
   * order they went in, so equal distances keep the drivers' order.
   */
  lemma {:induction false} SortStable<T>(s: seq<T>, key: T -> Rank, k: Rank)
    ensures WithKey(SortBy(s, key), key, k) == WithKey(s, key, k)
  {
    if s != [] {
      SortStable(s[1..], key, k);
      InsertWithKey(s[0], SortBy(s[1..], key), key, k);
    }
  }

  /** Cutting a list short keeps a prefix of each key's elements. */
  lemma {:induction false} WithKeyPrefix<T>(s: seq<T>, n: int, key: T -> Rank, k: Rank)
    requires 0 <= n <= |s|
    ensures WithKey(s[..n], key, k) <= WithKey(s, key, k)
  {
    if n > 0 {
      var p := s[..n];
      assert p[0] == s[0] && p[1..] == s[1..][..n - 1];
      WithKeyPrefix(s[1..], n - 1, key, k);
    }
  }
}
