/** `searchKey` of cpp_files/DSA/Array/linear_search.cpp: the first index of `key` in `arr[0..n)`. */
module LinearSearch {
  method SearchKey(arr: array<int>, n: int, key: int) returns (result: int)
    requires n <= arr.Length
    ensures result == -1 || 0 <= result < n
    ensures result >= 0 ==> arr[result] == key && forall i :: 0 <= i < result ==> arr[i] != key
    ensures result == -1 <==> forall i :: 0 <= i < n ==> arr[i] != key
  {
    for i := 0 to if n < 0 then 0 else n
      invariant forall k :: 0 <= k < i ==> arr[k] != key
    {
      if arr[i] == key {
        return i;
      }
    }
    return -1;
  }

  /** The first of several occurrences is the one found. */
  method Example(arr: array<int>) returns (result: int)
    requires arr[..] == [3, 5, 7, 5]
    ensures result == 1
  {
    result := SearchKey(arr, arr.Length, 5);
    assert arr[1] == 5;
  }
}
