/**
 * `infix_to_postfix` of cpp_files/DSA/Array/stack/infix_to_postfix.py: the
 * list `stack` (here a sequence with the top first) and the list `output`,
 * built character by character; the loop before an operator stops at '('.
 */
module InfixToPostfixPy {
  import opened Wrappers
  import opened Postfix

  /** `None` where `stack.pop()` raises `IndexError`: an unmatched ')'. */
  method InfixToPostfix(expression: string) returns (postfix: Option<string>)
    ensures postfix == Convert(Python, expression)
  {
    var stack: seq<char> := [];
    var output: string := "";
    var rest := expression;
    while rest != []
      invariant Convert(Python, expression) == ConvertFrom(Python, Conv(stack, output), rest)
    {
      var ch := rest[0];
      ConvertFromStep(Python, Conv(stack, output), rest);
      rest := rest[1..];
      if IsAlnum(ch) {
        output := output + [ch];
      } else if ch == '(' {
        stack := [ch] + stack;
      } else if ch == ')' {
        stack, output := PopToOpen(stack, output);
        if stack == [] {
          return None;
        }
        stack := stack[1..];
      } else {
        stack, output := PopOperators(ch, stack, output);
        stack := [ch] + stack;
      }
    }
    output := PopAll(stack, output);
    return Some(output);
  }

  /** The loop before pushing operator `c`: pop while the top is not '(' and binds at least as tightly. */
  method PopOperators(c: char, stack: seq<char>, out: string) returns (stack': seq<char>, out': string)
    ensures stack' == stack[Poppable(Python, c, stack)..] && out' == out + stack[..Poppable(Python, c, stack)]
  {
    stack', out' := stack, out;
    ghost var n := 0;
    while stack' != [] && stack'[0] != '(' && Precedence(stack'[0]) >= Precedence(c)
      invariant n <= Poppable(Python, c, stack) && stack' == stack[n..] && out' == out + stack[..n]
    {
      out' := out' + [stack'[0]];
      stack' := stack'[1..];
      assert stack[..n + 1] == stack[..n] + [stack[n]];
      n := n + 1;
    }
  }
}
