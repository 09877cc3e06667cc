/**
 * `balanced_parentheses` of valid_perenthesis.py: a list used as a stack and
 * the dictionary `bracket_pairs` from each opener to its closer.  A closer
 * pops the stack in the test itself, so a matching closer has consumed the
 * top when the loop goes on.
 */
module BalancedParentheses {
  import Brackets

  const BracketPairs: map<char, char> := map['(' := ')', '[' := ']', '{' := '}']

  /** The keys are the openers, each mapped to its closer. */
  lemma PairsAgree()
    ensures forall c :: c in BracketPairs <==> Brackets.IsOpen(c)
    ensures forall o, c :: o in BracketPairs ==> (BracketPairs[o] == c <==> Brackets.Pair(o, c))
  {
  }

  method Balanced(parentheses: string) returns (balanced: bool)
    ensures balanced == Brackets.Valid(parentheses)
  {
    PairsAgree();
    var stack: seq<char> := [];
    var rest := parentheses;
    while rest != []
      invariant Brackets.ScanFrom([], parentheses) == Brackets.ScanFrom(stack, rest)
      invariant Brackets.OnlyOpeners(stack)
    {
      var bracket := rest[0];
      rest := rest[1..];
      if bracket in BracketPairs {
        stack := stack + [bracket];
      } else if bracket in ")]}" {
        if stack == [] {
          return false;
        }
        var top := stack[|stack| - 1];
        stack := stack[..|stack| - 1];
        if BracketPairs[top] != bracket {
          return false;
        }
      }
    }
    return stack == [];
  }
}
