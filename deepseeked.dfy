/**
 * The validator of cpp_files/DSA/Array/Valid_parenthesis/deepseeked.cpp: the
 * stack is a `std::string` grown with `push_back` and shrunk with
 * `pop_back`, and the closer is compared with `back()` pair by pair.
 */
module Deepseeked {
  import Brackets

  method IsValid(s: string) returns (valid: bool)
    ensures valid == Brackets.Valid(s)
  {
    var stack: string := "";
    for i := 0 to |s|
      invariant Brackets.ScanFrom([], s) == Brackets.ScanFrom(stack, s[i..])
    {
      var current := s[i];
      assert s[i..][0] == current && s[i..][1..] == s[i + 1..];
      if current == '(' || current == '[' || current == '{' {
        stack := stack + [current];
      } else if current == ')' || current == ']' || current == '}' {
        if |stack| == 0 {
          return false;
        }
        var top := stack[|stack| - 1];
        if (current == ')' && top == '(') || (current == ']' && top == '[') || (current == '}' && top == '{') {
          stack := stack[..|stack| - 1];
        } else {
          return false;
        }
      }
    }
    assert s[|s|..] == [];
    return |stack| == 0;
  }
}
