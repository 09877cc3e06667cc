/**
 * `infixToPostfix` of cpp_files/DSA/Array/stack/same.cpp: a `std::stack`
 * of operators (here a sequence with the top first) and the output string,
 * built character by character; each inner loop that pops is a method of
 * its own here, the two that the Python converter shares in `Postfix`.
 */
module SameCpp {
  import opened Wrappers
  import opened Postfix

  /** `None` where `stack.pop()` runs on an empty stack: an unmatched ')'. */
  method InfixToPostfix(infix: string) returns (postfix: Option<string>)
    ensures postfix == Convert(Cpp, infix)
  {
    var stack: seq<char> := [];
    var out: string := "";
    var rest := infix;
    while rest != []
      invariant Convert(Cpp, infix) == ConvertFrom(Cpp, Conv(stack, out), rest)
    {
      var c := rest[0];
      ConvertFromStep(Cpp, Conv(stack, out), rest);
      rest := rest[1..];
      if IsAlnum(c) {
        out := out + [c];
      } else if c == '(' {
        stack := [c] + stack;
      } else if c == ')' {
        stack, out := PopToOpen(stack, out);
        if stack == [] {
          return None;
        }
        stack := stack[1..];
      } else {
        stack, out := PopOperators(c, stack, out);
        stack := [c] + stack;
      }
    }
    out := PopAll(stack, out);
    return Some(out);
  }

  /** The loop before pushing operator `c`: pop while the top has greater or equal precedence. */
  method PopOperators(c: char, stack: seq<char>, out: string) returns (stack': seq<char>, out': string)
    ensures stack' == stack[Poppable(Cpp, c, stack)..] && out' == out + stack[..Poppable(Cpp, c, stack)]
  {
    stack', out' := stack, out;
    ghost var n := 0;
    while stack' != [] && Precedence(stack'[0]) >= Precedence(c)
      invariant n <= Poppable(Cpp, c, stack) && stack' == stack[n..] && out' == out + stack[..n]
    {
      out' := out' + [stack'[0]];
      stack' := stack'[1..];
      assert stack[..n + 1] == stack[..n] + [stack[n]];
      n := n + 1;
    }
  }
}
