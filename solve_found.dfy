/**
 * The validator of cpp_files/DSA/Array/Valid_parenthesis/solve_founf.cpp: an
 * index loop over a `std::stack<char>` whose top is compared with the
 * closer pair by pair in one condition.
 */
module SolveFound {
  import Brackets

  method IsValid(s: string) returns (valid: bool)
    ensures valid == Brackets.Valid(s)
  {
    var st: seq<char> := [];
    for i := 0 to |s|
      invariant Brackets.ScanFrom([], s) == Brackets.ScanFrom(st, s[i..])
    {
      var current := s[i];
      assert s[i..][0] == current && s[i..][1..] == s[i + 1..];
      if current == '(' || current == '[' || current == '{' {
        st := st + [current];
      } else if current == ')' || current == ']' || current == '}' {
        if st == [] {
          return false;
        }
        if (current == ')' && st[|st| - 1] == '(') || (current == ']' && st[|st| - 1] == '[')
           || (current == '}' && st[|st| - 1] == '{') {
          st := st[..|st| - 1];
        } else {
          return false;
        }
      }
    }
    assert s[|s|..] == [];
    return st == [];
  }
}
