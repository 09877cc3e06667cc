/**
 * `search` of binary_search.py: a binary search over a list that returns
 * the index of `target`, or the string "not found".  The script's own
 * asserts expect -1 for an absent target; `Search` returns what the code
 * returns, `SearchIndex` what the asserts expect.
 */
module BinarySearchPy {
  import Bubble

  /** A Python value `search` can return: an int or a str. */
  datatype Value = Int(i: int) | Str(s: string)

  /** The loop as written. */
  method Search(arr: seq<int>, target: int) returns (r: Value)
    ensures r.Int? ==> 0 <= r.i < |arr| && arr[r.i] == target
    ensures r.Str? ==> r.s == "not found"
    ensures Bubble.Sorted(arr) ==> (r.Str? <==> target !in arr)
  {
    var left := 0;
    var right := |arr| - 1;
    while left <= right
      invariant 0 <= left && right < |arr| && left <= right + 1
      invariant Bubble.Sorted(arr) ==> forall i :: 0 <= i < |arr| && arr[i] == target ==> left <= i <= right
      decreases right - left
    {
      var mid := (left + right) / 2;
      if arr[mid] == target {
        return Int(mid);
      } else if target < arr[mid] {
        right := mid - 1;
      } else {
        left := mid + 1;
      }
    }
    return Str("not found");
  }

  /** An absent target never gives the -1 the script's asserts compare with. */
  method AbsentIsNotMinusOne(arr: seq<int>, target: int) returns (r: Value)
    requires target !in arr
    ensures r == Str("not found") && r != Int(-1)
  {
    r := Search(arr, target);
  }

  /** The intended search: the index of `target`, or -1. */
  method SearchIndex(arr: seq<int>, target: int) returns (r: int)
    ensures -1 <= r < |arr|
    ensures r >= 0 ==> arr[r] == target
    ensures Bubble.Sorted(arr) ==> (r == -1 <==> target !in arr)
  {
    var left := 0;
    var right := |arr| - 1;
    while left <= right
      invariant 0 <= left && right < |arr| && left <= right + 1
      invariant Bubble.Sorted(arr) ==> forall i :: 0 <= i < |arr| && arr[i] == target ==> left <= i <= right
      decreases right - left
    {
      var mid := (left + right) / 2;
      if arr[mid] == target {
        return mid;
      } else if target < arr[mid] {
        right := mid - 1;
      } else {
        left := mid + 1;
      }
    }
    return -1;
  }

  /** The script's five asserts, against the code as written. */
  method Examples() returns (a: Value, b: Value, c: Value, d: Value, e: Value)
    ensures a == Int(6) && b == Int(7) && e == Int(0)
    ensures c == Str("not found") && d == Str("not found")
  {
    var arr1 := [-2, 3, 4, 7, 8, 9, 11, 13];
    var arr2 := [3];
    assert Bubble.Sorted(arr1);
    a := Search(arr1, 11);
    b := Search(arr1, 13);
    c := Search(arr2, 6);
    d := Search(arr2, 2);
    e := Search(arr2, 3);
  }

  /** With -1 for an absent target all five asserts hold. */
  method IntendedExamples() returns (a: int, b: int, c: int, d: int, e: int)
    ensures a == 6 && b == 7 && c == -1 && d == -1 && e == 0
  {
    var arr1 := [-2, 3, 4, 7, 8, 9, 11, 13];
    var arr2 := [3];
    assert Bubble.Sorted(arr1);
    a := SearchIndex(arr1, 11);
    b := SearchIndex(arr1, 13);
    c := SearchIndex(arr2, 6);
    d := SearchIndex(arr2, 2);
    e := SearchIndex(arr2, 3);
  }
}
