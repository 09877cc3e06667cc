/**
 * The validator of
 * cpp_files/DSA/Array/Valid_parenthesis/solvetatgoesoverhead.cpp: the same
 * test as with `matchingOpen`, in a range-for loop over the characters
 * (here: taking the first character of what is left).
 */
module SolveThatGoesOverhead {
  import Brackets

  method IsValid(s: string) returns (valid: bool)
    ensures valid == Brackets.Valid(s)
  {
    var stack: seq<char> := [];
    var rest := s;
    while rest != []
      invariant Brackets.ScanFrom([], s) == Brackets.ScanFrom(stack, rest)
    {
      var current := rest[0];
      rest := rest[1..];
      if current == '(' || current == '[' || current == '{' {
        stack := stack + [current];
      } else if current == ')' || current == ']' || current == '}' {
        if stack == [] {
          return false;
        }
        if stack[|stack| - 1] == Brackets.MatchingOpen(current) {
          stack := stack[..|stack| - 1];
        } else {
          return false;
        }
      }
    }
    return stack == [];
  }
}
