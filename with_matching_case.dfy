/**
 * The validator of cpp_files/DSA/Array/Valid_parenthesis/withmatchingcase.cpp:
 * an index loop over a `std::stack<char>` (here the sequence `stack`, top
 * at the end) that compares the top with `matchingOpen` of the closer.
 */
module WithMatchingCase {
  import Brackets

  method IsValid(s: string) returns (valid: bool)
    ensures valid == Brackets.Valid(s)
  {
    var stack: seq<char> := [];
    for i := 0 to |s|
      invariant Brackets.ScanFrom([], s) == Brackets.ScanFrom(stack, s[i..])
    {
      var current := s[i];
      assert s[i..][0] == current && s[i..][1..] == s[i + 1..];
      if current == '(' || current == '[' || current == '{' {
        stack := stack + [current];
      } else if current == ')' || current == ']' || current == '}' {
        if stack == [] {
          return false;
        }
        if stack[|stack| - 1] == Brackets.MatchingOpen(current) {
          stack := stack[..|stack| - 1];
        } else {
          return false;
        }
      }
    }
    assert s[|s|..] == [];
    return stack == [];
  }
}
