/**
 * Infix to postfix conversion with an operator stack (shunting-yard), as
 * cpp_files/DSA/Array/stack/same.cpp and
 * cpp_files/DSA/Array/stack/infix_to_postfix.py do it.  The two differ in
 * one test: before pushing an operator the C++ version pops while the top
 * has greater or equal precedence, the Python version also stops at '('.
 * A ')' with no '(' left below it pops an empty stack: undefined behaviour
 * in C++, an `IndexError` in Python, `None` here for both.
 */
module Postfix {
  import opened Wrappers

  datatype Dialect = Cpp | Python

  /** ASCII letters and digits: the operands. */
  predicate IsAlnum(c: char)
  {
    ('a' <= c <= 'z') || ('A' <= c <= 'Z') || ('0' <= c <= '9')
  }

  predicate IsOperator(c: char) { c == '+' || c == '-' || c == '*' || c == '/' }

  /** `precedence`: multiplicative operators bind tighter than additive ones, everything else least. */
  function Precedence(op: char): (p: nat)
    ensures p <= 2
    ensures p > 0 <==> IsOperator(op)
    ensures (op == '+' || op == '-') <==> p == 1
  {
    if op == '+' || op == '-' then 1
    else if op == '*' || op == '/' then 2
    else 0
  }

  /** Whether the operator loop before pushing `c` pops `top`. */
  predicate Pops(d: Dialect, top: char, c: char)
  {
    match d
    case Cpp => Precedence(top) >= Precedence(c)
    case Python => top != '(' && Precedence(top) >= Precedence(c)
  }

  /** The stack (top first) and the output built so far. */
  datatype Conv = Conv(stack: seq<char>, out: string)

  /** How many stack entries, from the top, the operator loop before `c` pops. */
  function Poppable(d: Dialect, c: char, stack: seq<char>): (k: nat)
    ensures k <= |stack|
    ensures forall i :: 0 <= i < k ==> Pops(d, stack[i], c)
    ensures k < |stack| ==> !Pops(d, stack[k], c)
  {
    if stack != [] && Pops(d, stack[0], c) then 1 + Poppable(d, c, stack[1..]) else 0
  }

  /** How many stack entries lie above the nearest '('; all of them when there is none. */
  function AboveOpen(stack: seq<char>): (k: nat)
    ensures k <= |stack|
    ensures forall i :: 0 <= i < k ==> stack[i] != '('
    ensures k < |stack| ==> stack[k] == '('
  {
    if stack != [] && stack[0] != '(' then 1 + AboveOpen(stack[1..]) else 0
  }

  /** One character of the input; `None` where ')' pops an empty stack. */
  function Step(d: Dialect, st: Conv, c: char): Option<Conv>
  {
    if IsAlnum(c) then Some(Conv(st.stack, st.out + [c]))
    else if c == '(' then Some(Conv([c] + st.stack, st.out))
    else if c == ')' then
      var k := AboveOpen(st.stack);
      if k == |st.stack| then None else Some(Conv(st.stack[k + 1..], st.out + st.stack[..k]))
    else
      var k := Poppable(d, c, st.stack);
      Some(Conv([c] + st.stack[k..], st.out + st.stack[..k]))
  }

  /** The output once the input is consumed: what is left on the stack, top first, is appended. */
  function Flush(st: Conv): string
  {
    st.out + st.stack
  }

  /** The loop over the input with step function `step`, then the flush. */
  function Run(step: (Conv, char) -> Option<Conv>, st: Conv, s: string): Option<string>
    decreases |s|
  {
    if s == [] then Some(Flush(st))
    else
      match step(st, s[0])
      case None => None
      case Some(next) => Run(step, next, s[1..])
  }

  function Stepper(d: Dialect): (Conv, char) -> Option<Conv>
  {
    (st, c) => Step(d, st, c)
  }

  function ConvertFrom(d: Dialect, st: Conv, s: string): Option<string>
  {
    Run(Stepper(d), st, s)
  }

  /** The first character of the rest of the input. */
  lemma ConvertFromStep(d: Dialect, st: Conv, s: string)
    requires s != []
    ensures ConvertFrom(d, st, s)
            == match Step(d, st, s[0]) case None => None case Some(next) => ConvertFrom(d, next, s[1..])
  {
    assert Stepper(d)(st, s[0]) == Step(d, st, s[0]);
  }

  function Convert(d: Dialect, s: string): Option<string>
  {
    ConvertFrom(d, Conv([], []), s)
  }

  /** The characters of `s` that are operands, in order. */
  function Operands(s: string): (t: string)
    ensures forall i :: 0 <= i < |t| ==> IsAlnum(t[i])
  {
    if s == [] then []
    else Operands(s[..|s| - 1]) + (if IsAlnum(s[|s| - 1]) then [s[|s| - 1]] else [])
  }

  lemma {:induction false} OperandsConcat(a: string, b: string)
    ensures Operands(a + b) == Operands(a) + Operands(b)
    decreases |b|
  {
    if b == [] {
      assert a + b == a;
    } else {
      var init, last := b[..|b| - 1], b[|b| - 1];
      assert a + b == (a + init) + [last];
      assert (a + b)[..|a + b| - 1] == a + init;
      OperandsConcat(a, init);
    }
  }

  lemma OperandsCons(s: string)
    requires s != []
    ensures Operands(s) == Operands([s[0]]) + Operands(s[1..])
  {
    assert s == [s[0]] + s[1..];
    OperandsConcat([s[0]], s[1..]);
  }

  /** No operand is ever stacked. */
  predicate OperatorsOnly(stack: seq<char>)
  {
    forall i :: 0 <= i < |stack| ==> !IsAlnum(stack[i])
  }

  /** Appending characters none of which is an operand adds no operand. */
  lemma {:induction false} AppendNoOperands(out: string, t: string)
    requires OperatorsOnly(t)
    ensures Operands(out + t) == Operands(out)
    decreases |t|
  {
    if t == [] {
      assert out + t == out;
    } else {
      var init := t[..|t| - 1];
      assert out + t == (out + init) + [t[|t| - 1]];
      assert (out + t)[..|out + t| - 1] == out + init;
      assert OperatorsOnly(init) by {
        assert forall i :: 0 <= i < |init| ==> init[i] == t[i];
      }
      AppendNoOperands(out, init);
    }
  }

  lemma AppendOne(out: string, c: char)
    ensures Operands(out + [c]) == Operands(out) + Operands([c])
  {
    assert (out + [c])[..|out|] == out;
    assert Operands([c]) == Operands([]) + (if IsAlnum(c) then [c] else []);
  }

  /** A single step keeps the stack free of operands and passes operands straight to the output. */
  lemma StepOperands(d: Dialect, st: Conv, c: char, next: Conv)
    requires OperatorsOnly(st.stack) && Step(d, st, c) == Some(next)
    ensures OperatorsOnly(next.stack)
    ensures Operands(next.out) == Operands(st.out) + Operands([c])
  {
    AppendOne(st.out, c);
    if !IsAlnum(c) && c != '(' {
      AppendOne([], c);
      var k := if c == ')' then AboveOpen(st.stack) else Poppable(d, c, st.stack);
      assert next.out == st.out + st.stack[..k];
      assert OperatorsOnly(st.stack[..k]) by {
        assert forall i :: 0 <= i < k ==> st.stack[..k][i] == st.stack[i];
      }
      AppendNoOperands(st.out, st.stack[..k]);
    }
  }

  /** Operands leave in the order they came. */
  lemma {:induction false} ConvertFromOperands(d: Dialect, st: Conv, s: string)
    requires OperatorsOnly(st.stack) && ConvertFrom(d, st, s).Some?
    ensures Operands(ConvertFrom(d, st, s).value) == Operands(st.out) + Operands(s)
    decreases |s|
  {
    if s == [] {
      AppendNoOperands(st.out, st.stack);
    } else {
      var c, rest := s[0], s[1..];
      ConvertFromStep(d, st, s);
      var next := Step(d, st, c).value;
      StepOperands(d, st, c, next);
      ConvertFromOperands(d, next, rest);
      OperandsCons(s);
    }
  }

  lemma ConvertOperands(d: Dialect, s: string)
    requires Convert(d, s).Some?
    ensures Operands(Convert(d, s).value) == Operands(s)
  {
    ConvertFromOperands(d, Conv([], []), s);
    assert Operands([]) == [];
  }

  /** The alphabet of the examples: operands, the four operators and parentheses. */
  predicate Standard(c: char)
  {
    IsAlnum(c) || IsOperator(c) || c == '(' || c == ')'
  }

  /** Before a real operator the extra '(' test of the Python loop changes nothing. */
  lemma {:induction false} PoppableAgree(c: char, stack: seq<char>)
    requires IsOperator(c)
    ensures Poppable(Cpp, c, stack) == Poppable(Python, c, stack)
    decreases |stack|
  {
    if stack != [] {
      assert Pops(Cpp, stack[0], c) == Pops(Python, stack[0], c);
      PoppableAgree(c, stack[1..]);
    }
  }

  lemma {:induction false} ConvertFromAgree(st: Conv, s: string)
    requires forall i :: 0 <= i < |s| ==> Standard(s[i])
    ensures ConvertFrom(Cpp, st, s) == ConvertFrom(Python, st, s)
    decreases |s|
  {
    if s != [] {
      if IsOperator(s[0]) {
        PoppableAgree(s[0], st.stack);
      }
      assert Step(Cpp, st, s[0]) == Step(Python, st, s[0]);
      ConvertFromStep(Cpp, st, s);
      ConvertFromStep(Python, st, s);
      if Step(Cpp, st, s[0]).Some? {
        ConvertFromAgree(Step(Cpp, st, s[0]).value, s[1..]);
      }
    }
  }

  /** On the standard alphabet the C++ and the Python converter give the same answer. */
  lemma DialectsAgree(s: string)
    requires forall i :: 0 <= i < |s| ==> Standard(s[i])
    ensures Convert(Cpp, s) == Convert(Python, s)
  {
    ConvertFromAgree(Conv([], []), s);
  }

  /**
   * Off that alphabet they differ: a space has precedence 0, so the C++
   * loop pops the '(' below it and the ')' then pops an empty stack.
   */
  lemma DialectsDiffer()
    ensures Convert(Cpp, "( )") == None && Convert(Python, "( )") == Some(" ")
  {
    SpaceCpp();
    SpacePython();
  }

  lemma SpaceCpp()
    ensures Convert(Cpp, "( )") == None
  {
    Unfold(Cpp, Conv([], ""), "( )", "(", "", " )");
    Unfold(Cpp, Conv("(", ""), " )", " ", "(", ")");
  }

  lemma SpacePython()
    ensures Convert(Python, "( )") == Some(" ")
  {
    Unfold(Python, Conv([], ""), "( )", "(", "", " )");
    Unfold(Python, Conv("(", ""), " )", " (", "", ")");
    Unfold(Python, Conv(" (", ""), ")", [], " ", "");
    assert Flush(Conv([], " ")) == " ";
  }

  /** One step of the conversion, for the worked examples. */
  lemma Unfold(d: Dialect, st: Conv, s: string, stack: seq<char>, out: string, rest: string)
    requires s != [] && s[1..] == rest && Step(d, st, s[0]).Some?
    requires Step(d, st, s[0]).value.stack == stack && Step(d, st, s[0]).value.out == out
    ensures ConvertFrom(d, st, s) == ConvertFrom(d, Conv(stack, out), rest)
  {
    ConvertFromStep(d, st, s);
  }

  /** The example of both sources, worked for the Python loop. */
  lemma ExamplePython()
    ensures Convert(Python, "A*(B+C)/D") == Some("ABC+*D/")
  {
    var d := Python;
    Unfold(d, Conv([], ""), "A*(B+C)/D", [], "A", "*(B+C)/D");
    Unfold(d, Conv([], "A"), "*(B+C)/D", "*", "A", "(B+C)/D");
    Unfold(d, Conv("*", "A"), "(B+C)/D", "(*", "A", "B+C)/D");
    Unfold(d, Conv("(*", "A"), "B+C)/D", "(*", "AB", "+C)/D");
    ExampleRest();
  }

  lemma ExampleRest()
    ensures ConvertFrom(Python, Conv("(*", "AB"), "+C)/D") == Some("ABC+*D/")
  {
    var d := Python;
    Unfold(d, Conv("(*", "AB"), "+C)/D", "+(*", "AB", "C)/D");
    Unfold(d, Conv("+(*", "AB"), "C)/D", "+(*", "ABC", ")/D");
    Unfold(d, Conv("+(*", "ABC"), ")/D", "*", "ABC+", "/D");
    ExampleEnd();
  }

  lemma ExampleEnd()
    ensures ConvertFrom(Python, Conv("*", "ABC+"), "/D") == Some("ABC+*D/")
  {
    var d := Python;
    Unfold(d, Conv("*", "ABC+"), "/D", "/", "ABC+*", "D");
    Unfold(d, Conv("/", "ABC+*"), "D", "/", "ABC+*D", "");
    assert Flush(Conv("/", "ABC+*D")) == "ABC+*D/";
  }

  lemma SampleStandard()
    ensures forall i :: 0 <= i < |"A*(B+C)/D"| ==> Standard("A*(B+C)/D"[i])
  {
    var s := "A*(B+C)/D";
    assert s == ['A', '*', '(', 'B', '+', 'C', ')', '/', 'D'];
  }

  /** The C++ loop gives the same on the example. */
  lemma ExampleCpp()
    ensures Convert(Cpp, "A*(B+C)/D") == Some("ABC+*D/")
  {
    ExamplePython();
    SampleStandard();
    DialectsAgree("A*(B+C)/D");
  }

  /** Equal precedence pops first, so '-' associates to the left. */
  lemma ExampleLeftAssociative()
    ensures Convert(Python, "A-B-C") == Some("AB-C-")
  {
    var d := Python;
    Unfold(d, Conv([], ""), "A-B-C", [], "A", "-B-C");
    Unfold(d, Conv([], "A"), "-B-C", "-", "A", "B-C");
    Unfold(d, Conv("-", "A"), "B-C", "-", "AB", "-C");
    Unfold(d, Conv("-", "AB"), "-C", "-", "AB-", "C");
    Unfold(d, Conv("-", "AB-"), "C", "-", "AB-C", "");
    assert Flush(Conv("-", "AB-C")) == "AB-C-";
  }

  /** '+' does not pop '*'s lower neighbour: "A+B*C" keeps '+' below '*'. */
  lemma ExampleTighter()
    ensures Convert(Python, "A+B*C") == Some("ABC*+")
  {
    var d := Python;
    Unfold(d, Conv([], ""), "A+B*C", [], "A", "+B*C");
    Unfold(d, Conv([], "A"), "+B*C", "+", "A", "B*C");
    Unfold(d, Conv("+", "A"), "B*C", "+", "AB", "*C");
    TighterEnd();
  }

  lemma TighterEnd()
    ensures ConvertFrom(Python, Conv("+", "AB"), "*C") == Some("ABC*+")
  {
    var d := Python;
    Unfold(d, Conv("+", "AB"), "*C", "*+", "AB", "C");
    Unfold(d, Conv("*+", "AB"), "C", "*+", "ABC", "");
    assert Flush(Conv("*+", "ABC")) == "ABC*+";
  }

  /** An unmatched '(' is written out at the end. */
  lemma ExampleUnclosed()
    ensures Convert(Python, "(A+B") == Some("AB+(")
  {
    var d := Python;
    Unfold(d, Conv([], ""), "(A+B", "(", "", "A+B");
    Unfold(d, Conv("(", ""), "A+B", "(", "A", "+B");
    Unfold(d, Conv("(", "A"), "+B", "+(", "A", "B");
    Unfold(d, Conv("+(", "A"), "B", "+(", "AB", "");
    assert Flush(Conv("+(", "AB")) == "AB+(";
  }

  /** An unmatched ')' fails. */
  lemma ExampleUnopened()
    ensures Convert(Python, "A)") == None
  {
    Unfold(Python, Conv([], ""), "A)", [], "A", ")");
  }

  /** Each ')' takes one '(' with it; every other character reaches the output. */
  function Matched(k: nat): multiset<char>
  {
    multiset{}['(' := k][')' := k]
  }

  lemma MatchedAdd(a: nat, b: nat)
    ensures Matched(a + b) == Matched(a) + Matched(b)
  {
  }

  /** ')' writes what lies above the nearest '(' and drops that '('. */
  lemma CloseKeeps(st: Conv, k: nat)
    requires k < |st.stack| && st.stack[k] == '('
    ensures multiset(st.out + st.stack[..k]) + multiset(st.stack[k + 1..]) + multiset{'('}
            == multiset(st.out) + multiset(st.stack)
  {
    assert st.stack == st.stack[..k] + [st.stack[k]] + st.stack[k + 1..];
  }

  /** An operator writes what it pops and is pushed itself. */
  lemma OperatorKeeps(st: Conv, k: nat, c: char)
    requires k <= |st.stack|
    ensures multiset(st.out + st.stack[..k]) + multiset([c] + st.stack[k..])
            == multiset(st.out) + multiset(st.stack) + multiset{c}
  {
    assert st.stack == st.stack[..k] + st.stack[k..];
  }

  lemma StepKeeps(d: Dialect, st: Conv, c: char, next: Conv)
    requires Step(d, st, c) == Some(next)
    ensures multiset(next.out) + multiset(next.stack) + Matched(if c == ')' then 1 else 0)
            == multiset(st.out) + multiset(st.stack) + multiset{c}
  {
    assert Matched(0) == multiset{};
    if IsAlnum(c) {
      assert next.stack == st.stack && next.out == st.out + [c];
    } else if c == '(' {
      assert next.stack == [c] + st.stack && next.out == st.out;
    } else if c == ')' {
      var k := AboveOpen(st.stack);
      assert next.stack == st.stack[k + 1..] && next.out == st.out + st.stack[..k];
      CloseKeeps(st, k);
      assert Matched(1) == multiset{'(', ')'};
    } else {
      var k := Poppable(d, c, st.stack);
      assert next.stack == [c] + st.stack[k..] && next.out == st.out + st.stack[..k];
      OperatorKeeps(st, k, c);
    }
  }

  /** The characters of a non-empty string: its first one and the rest. */
  lemma MultisetCons(s: string)
    requires s != []
    ensures multiset(s) == multiset{s[0]} + multiset(s[1..])
    ensures multiset(s)[')'] == (if s[0] == ')' then 1 else 0) + multiset(s[1..])[')']
  {
    assert s == [s[0]] + s[1..];
  }

  lemma {:induction false} ConvertFromKeeps(d: Dialect, st: Conv, s: string)
    requires ConvertFrom(d, st, s).Some?
    ensures multiset(ConvertFrom(d, st, s).value) + Matched(multiset(s)[')'])
            == multiset(st.out) + multiset(st.stack) + multiset(s)
    decreases |s|
  {
    if s == [] {
      assert Matched(0) == multiset{};
    } else {
      var c, rest := s[0], s[1..];
      ConvertFromStep(d, st, s);
      var next := Step(d, st, c).value;
      StepKeeps(d, st, c, next);
      ConvertFromKeeps(d, next, rest);
      var r := ConvertFrom(d, next, rest).value;
      var here := if c == ')' then 1 else 0;
      MultisetCons(s);
      MatchedAdd(multiset(rest)[')'], here);
      Rearrange(multiset(r), Matched(multiset(rest)[')']), multiset(next.out) + multiset(next.stack),
                multiset(rest), Matched(here), multiset(st.out) + multiset(st.stack) + multiset{c});
    }
  }

  lemma Rearrange<T>(r: multiset<T>, m: multiset<T>, a: multiset<T>, rest: multiset<T>, mine: multiset<T>, b: multiset<T>)
    requires r + m == a + rest && a + mine == b
    ensures r + (m + mine) == b + rest
  {
    calc {
      r + (m + mine);
      (r + m) + mine;
      (a + rest) + mine;
      (a + mine) + rest;
    }
  }

  /**
   * Nothing is lost or invented: the output is the input without its ')'
   * characters and as many '(' as there were ')'.
   */
  lemma ConvertKeeps(d: Dialect, s: string)
    requires Convert(d, s).Some?
    ensures multiset(Convert(d, s).value) + Matched(multiset(s)[')']) == multiset(s)
  {
    ConvertFromKeeps(d, Conv([], []), s);
  }

  /** The '(' waiting on the stack. */
  function Opens(stack: seq<char>): int
  {
    multiset(stack)['('] as int
  }

  /** Open parentheses after `p`, starting with `n`. */
  function Depth(n: int, p: string): int
  {
    n + (multiset(p)['('] as int) - (multiset(p)[')'] as int)
  }

  /** No prefix of `s` closes more parentheses than are open. */
  predicate PrefixesOpen(n: int, s: string)
  {
    forall j :: 0 <= j <= |s| ==> Depth(n, s[..j]) >= 0
  }

  lemma DepthConcat(n: int, a: string, b: string)
    ensures Depth(n, a + b) == Depth(Depth(n, a), b)
  {
    assert multiset(a + b) == multiset(a) + multiset(b);
  }

  /** The prefixes of `[x] + t` are `[]` and `[x]` followed by the prefixes of `t`. */
  lemma PrefixesOpenCons(n: int, x: char, t: string)
    requires n >= 0
    ensures PrefixesOpen(n, [x] + t) <==> Depth(n, [x]) >= 0 && PrefixesOpen(Depth(n, [x]), t)
  {
    var s, n1 := [x] + t, Depth(n, [x]);
    assert s[..0] == [] && s[..1] == [x];
    forall j | 0 <= j <= |t|
      ensures Depth(n, s[..j + 1]) == Depth(n1, t[..j])
    {
      assert s[..j + 1] == [x] + t[..j];
      DepthConcat(n, [x], t[..j]);
    }
    if n1 >= 0 && PrefixesOpen(n1, t) {
      forall j | 0 <= j <= |s|
        ensures Depth(n, s[..j]) >= 0
      {
        if j > 0 {
          assert Depth(n, s[..j]) == Depth(n1, t[..j - 1]);
        }
      }
    }
    if PrefixesOpen(n, s) && n1 >= 0 {
      forall j | 0 <= j <= |t|
        ensures Depth(n1, t[..j]) >= 0
      {
        assert Depth(n, s[..j + 1]) >= 0;
      }
    }
  }

  lemma NoOpens(p: seq<char>)
    requires forall i :: 0 <= i < |p| ==> p[i] != '('
    ensures Opens(p) == 0
  {
    assert '(' !in multiset(p);
  }

  /** ')' fails exactly with no '(' stacked, and otherwise takes one '(' off. */
  lemma CloseOpens(st: Conv)
    ensures Step(Python, st, ')').None? <==> Opens(st.stack) == 0
    ensures Step(Python, st, ')').Some? ==> Opens(Step(Python, st, ')').value.stack) == Opens(st.stack) - 1
  {
    var k := AboveOpen(st.stack);
    NoOpens(st.stack[..k]);
    if k < |st.stack| {
      assert st.stack == st.stack[..k] + [st.stack[k]] + st.stack[k + 1..];
    } else {
      assert st.stack[..k] == st.stack;
    }
  }

  /** The Python operator loop never pops '('. */
  lemma OperatorOpens(st: Conv, c: char)
    requires !IsAlnum(c) && c != '(' && c != ')'
    ensures Step(Python, st, c).Some? && Opens(Step(Python, st, c).value.stack) == Opens(st.stack)
  {
    var k := Poppable(Python, c, st.stack);
    NoOpens(st.stack[..k]);
    assert st.stack == st.stack[..k] + st.stack[k..];
  }

  /**
   * A Python step fails exactly on ')' with no '(' stacked, and otherwise
   * changes the stacked '(' as the character changes the depth.
   */
  lemma StepOpens(st: Conv, c: char)
    ensures Step(Python, st, c).None? <==> c == ')' && Opens(st.stack) == 0
    ensures Step(Python, st, c).Some? ==> Opens(Step(Python, st, c).value.stack) == Depth(Opens(st.stack), [c])
  {
    if c == ')' {
      CloseOpens(st);
    } else if !IsAlnum(c) && c != '(' {
      OperatorOpens(st, c);
    }
  }

  lemma {:induction false} ConvertFromOpens(st: Conv, s: string)
    ensures ConvertFrom(Python, st, s).Some? <==> PrefixesOpen(Opens(st.stack), s)
    decreases |s|
  {
    var n := Opens(st.stack);
    if s == [] {
      assert s[..0] == [];
    } else {
      var c, rest := s[0], s[1..];
      assert s == [c] + rest;
      ConvertFromStep(Python, st, s);
      StepOpens(st, c);
      PrefixesOpenCons(n, c, rest);
      if Step(Python, st, c).Some? {
        ConvertFromOpens(Step(Python, st, c).value, rest);
      }
    }
  }

  /**
   * The conversion fails exactly when some prefix of the input closes more
   * parentheses than it opens: on every input in Python, on the standard
   * alphabet in C++.
   */
  lemma FailsIffUnopened(d: Dialect, s: string)
    requires d == Python || forall i :: 0 <= i < |s| ==> Standard(s[i])
    ensures Convert(d, s).None? <==> exists j :: 0 <= j <= |s| && Depth(0, s[..j]) < 0
  {
    if d == Cpp {
      DialectsAgree(s);
    }
    ConvertFromOpens(Conv([], []), s);
  }

  // The two loops both converters write the same way.

  /** The loop of ')': pop onto the output while the top is not '('. */
  method PopToOpen(stack: seq<char>, out: string) returns (stack': seq<char>, out': string)
    ensures stack' == stack[AboveOpen(stack)..] && out' == out + stack[..AboveOpen(stack)]
  {
    stack', out' := stack, out;
    ghost var n := 0;
    while stack' != [] && stack'[0] != '('
      invariant n <= AboveOpen(stack) && stack' == stack[n..] && out' == out + stack[..n]
    {
      out' := out' + [stack'[0]];
      stack' := stack'[1..];
      assert stack[..n + 1] == stack[..n] + [stack[n]];
      n := n + 1;
    }
  }

  /** The final loop: everything left, top first, goes to the output. */
  method PopAll(stack: seq<char>, out: string) returns (out': string)
    ensures out' == Flush(Conv(stack, out))
  {
    var rest := stack;
    out' := out;
    while rest != []
      invariant out' + rest == out + stack
    {
      assert (out' + [rest[0]]) + rest[1..] == out' + rest;
      out' := out' + [rest[0]];
      rest := rest[1..];
    }
  }
}
