/**
 * The insertion of cpp_files/DSA/Array/array_op/arr02.cpp, written there
 * inside `main`: the elements from `pos` on move one slot right, from the
 * back, and `x` goes into the freed slot `pos`.
 */
module ArrayInsert {
  /** `s` with `x` placed at index `pos`. */
  function Inserted(s: seq<int>, pos: int, x: int): seq<int>
    requires 0 <= pos <= |s|
  {
    s[..pos] + [x] + s[pos..]
  }

  /** What the insertion leaves at each index. */
  lemma InsertedAt(s: seq<int>, pos: int, x: int)
    requires 0 <= pos <= |s|
    ensures |Inserted(s, pos, x)| == |s| + 1 && Inserted(s, pos, x)[pos] == x
    ensures forall k :: 0 <= k < pos ==> Inserted(s, pos, x)[k] == s[k]
    ensures forall k :: pos <= k < |s| ==> Inserted(s, pos, x)[k + 1] == s[k]
  {
  }

  /** Removing the element at `pos` undoes the insertion. */
  lemma RemoveInserted(s: seq<int>, pos: int, x: int)
    requires 0 <= pos <= |s|
    ensures var r := Inserted(s, pos, x); r[..pos] + r[pos + 1..] == s
  {
    var r := Inserted(s, pos, x);
    assert r[..pos] == s[..pos] && r[pos + 1..] == s[pos..];
    assert s[..pos] + s[pos..] == s;
  }

  /** The values are those of `s` and `x`. */
  lemma InsertedValues(s: seq<int>, pos: int, x: int)
    requires 0 <= pos <= |s|
    ensures multiset(Inserted(s, pos, x)) == multiset(s) + multiset{x}
  {
    assert s == s[..pos] + s[pos..];
  }

  /**
   * The shift loop and the store, for `size` elements in `arr` with room
   * for one more.  Slots past the new element keep what they held.
   */
  method InsertAt(arr: array<int>, size: int, pos: int, x: int) returns (newSize: int)
    requires 0 <= pos <= size < arr.Length
    modifies arr
    ensures newSize == size + 1
    ensures arr[..newSize] == Inserted(old(arr[..size]), pos, x)
    ensures arr[newSize..] == old(arr[newSize..])
  {
    ghost var s := arr[..size];
    var i := size;
    while i > pos
      invariant pos <= i <= size
      invariant arr[..i] == s[..i]
      invariant arr[i + 1..size + 1] == s[i..]
      invariant arr[size + 1..] == old(arr[size + 1..])
    {
      arr[i] := arr[i - 1];
      assert arr[i..size + 1] == [s[i - 1]] + s[i..];
      i := i - 1;
    }
    arr[pos] := x;
    assert arr[..size + 1] == arr[..pos] + [x] + arr[pos + 1..size + 1];
    newSize := size + 1;
  }

  /** The source's array {1, 2, 3, 5, 6} with 4 inserted at position 3. */
  method Example(arr: array<int>) returns (size: int)
    requires arr.Length == 6 && arr[..5] == [1, 2, 3, 5, 6]
    modifies arr
    ensures size == 6 && arr[..size] == [1, 2, 3, 4, 5, 6]
  {
    size := InsertAt(arr, 5, 3, 4);
    assert Inserted([1, 2, 3, 5, 6], 3, 4) == [1, 2, 3, 4, 5, 6];
  }
}
