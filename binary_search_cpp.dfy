/**
 * `BinarysearchKey` of cpp_files/DSA/Array/binary_search.cpp.  Its test
 * `if(key = arr[middle])` assigns instead of comparing, so the code as
 * written returns the first probed middle whose element is not zero and
 * never looks at `key`; `Probe` is what it computes and `BinarySearchKeyAsWritten`
 * is that loop.  `BinarySearchKey` is the comparison the code evidently
 * intends, a binary search over a sorted `arr[0..n)`.
 */
module BinarySearchCpp {
  import Bubble

  /**
   * The loop as written from `low` and `high`: a non-zero middle is
   * returned; a zero middle makes `key` zero, fails `key < arr[middle]`
   * and moves `low` past the middle.  `(low + high) / 2` has non-negative
   * operands, so C's truncating division and Dafny's agree.
   */
  function Probe(a: seq<int>, low: int, high: int): int
    requires 0 <= low && high < |a|
    decreases high - low + 1
  {
    if low > high then -1
    else
      var middle := (low + high) / 2;
      if a[middle] != 0 then middle else Probe(a, middle + 1, high)
  }

  /** A result is -1 or an index of the range whose element is not zero. */
  lemma {:induction false} ProbeRange(a: seq<int>, low: int, high: int)
    requires 0 <= low && high < |a|
    ensures var r := Probe(a, low, high); r == -1 || (low <= r <= high && a[r] != 0)
    decreases high - low + 1
  {
    if low <= high && a[(low + high) / 2] == 0 {
      ProbeRange(a, (low + high) / 2 + 1, high);
    }
  }

  /** A range holding only zeros gives -1. */
  lemma {:induction false} ProbeZeros(a: seq<int>, low: int, high: int)
    requires 0 <= low && high < |a|
    requires forall i :: low <= i <= high ==> a[i] == 0
    ensures Probe(a, low, high) == -1
    decreases high - low + 1
  {
    if low <= high {
      ProbeZeros(a, (low + high) / 2 + 1, high);
    }
  }

  /** A non-zero first middle is the answer, whatever the key. */
  lemma FirstMiddle(a: seq<int>)
    requires |a| >= 1 && a[(|a| - 1) / 2] != 0
    ensures Probe(a, 0, |a| - 1) == (|a| - 1) / 2
  {
  }

  /** The loop as written; `n` counts the elements of `arr`. */
  method BinarySearchKeyAsWritten(arr: array<int>, n: int, key: int) returns (result: int)
    requires 0 <= n <= arr.Length
    ensures result == Probe(arr[..n], 0, n - 1)
  {
    ghost var a := arr[..n];
    var k := key;
    var low := 0;
    var high := n - 1;
    while low <= high
      invariant 0 <= low && high == n - 1
      invariant Probe(a, 0, n - 1) == Probe(a, low, high)
      decreases high - low
    {
      var middle := (low + high) / 2;
      assert arr[middle] == a[middle];
      k := arr[middle];
      if k != 0 {
        return middle;
      } else if k < arr[middle] {
        high := middle - 1;
      } else {
        low := middle + 1;
      }
    }
    return -1;
  }

  /** On the array of the source's `main` the code as written answers 2 for the key 11, held at 4. */
  lemma AsWrittenMissesKey()
    ensures var a := [3, 5, 7, 9, 11]; Probe(a, 0, 4) == 2 && a[2] != 11 && a[4] == 11
  {
  }

  /** The intended search: an index of `key`, or -1. */
  method BinarySearchKey(arr: array<int>, n: int, key: int) returns (result: int)
    requires 0 <= n <= arr.Length
    ensures -1 <= result < n
    ensures result >= 0 ==> arr[result] == key
    ensures Bubble.Sorted(arr[..n]) ==> (result == -1 <==> forall i :: 0 <= i < n ==> arr[i] != key)
  {
    var low := 0;
    var high := n - 1;
    while low <= high
      invariant 0 <= low && high < n && low <= high + 1
      invariant Bubble.Sorted(arr[..n]) ==> forall i :: 0 <= i < n && arr[i] == key ==> low <= i <= high
      decreases high - low
    {
      var middle := (low + high) / 2;
      if key == arr[middle] {
        return middle;
      } else if key < arr[middle] {
        assert Bubble.Sorted(arr[..n]) ==> forall i :: middle <= i < n ==> arr[..n][middle] <= arr[..n][i];
        high := middle - 1;
      } else {
        assert Bubble.Sorted(arr[..n]) ==> forall i :: 0 <= i <= middle ==> arr[..n][i] <= arr[..n][middle];
        low := middle + 1;
      }
    }
    return -1;
  }

  /** With the comparison, the key 11 of the source's array is found at 4. */
  method Example(arr: array<int>) returns (result: int)
    requires arr[..] == [3, 5, 7, 9, 11]
    ensures result == 4
  {
    assert arr[..arr.Length] == arr[..];
    assert Bubble.Sorted(arr[..]);
    result := BinarySearchKey(arr, arr.Length, 11);
    assert arr[4] == 11;
  }
}
