/**
 * The validator of cpp_files/DSA/Array/Valid_parenthesis/final.cpp: no
 * stack, only one counter per kind of bracket.  A closer fails on a zero
 * counter and otherwise decrements it; the string is valid when all three
 * counters end at zero.  The counters ignore how kinds interleave, so this
 * validator accepts every string the stack validators accept and some more.
 */
module BracketCounters {
  import opened Wrappers
  import Brackets

  /** The three counters `balance1`, `balance2`, `balance3`. */
  datatype Balance = Balance(round: int, square: int, curly: int)

  const Zero := Balance(0, 0, 0)

  predicate NonNegative(b: Balance)
  {
    b.round >= 0 && b.square >= 0 && b.curly >= 0
  }

  /** One character of the loop; `None` where the source returns false. */
  function CounterStep(b: Balance, c: char): Option<Balance>
  {
    if c == '(' then Some(b.(round := b.round + 1))
    else if c == ')' then (if b.round == 0 then None else Some(b.(round := b.round - 1)))
    else if c == '[' then Some(b.(square := b.square + 1))
    else if c == ']' then (if b.square == 0 then None else Some(b.(square := b.square - 1)))
    else if c == '{' then Some(b.(curly := b.curly + 1))
    else if c == '}' then (if b.curly == 0 then None else Some(b.(curly := b.curly - 1)))
    else Some(b)
  }

  function CountFrom(b: Balance, s: string): Option<Balance>
    decreases |s|
  {
    if s == [] then Some(b)
    else
      match CounterStep(b, s[0])
      case None => None
      case Some(next) => CountFrom(next, s[1..])
  }

  predicate CounterValid(s: string)
  {
    CountFrom(Zero, s) == Some(Zero)
  }

  method IsValid(s: string) returns (valid: bool)
    ensures valid == CounterValid(s)
  {
    var balance1, balance2, balance3 := 0, 0, 0;
    var rest := s;
    while rest != []
      invariant CountFrom(Zero, s) == CountFrom(Balance(balance1, balance2, balance3), rest)
      invariant balance1 >= 0 && balance2 >= 0 && balance3 >= 0
    {
      var current := rest[0];
      rest := rest[1..];
      if current == '(' {
        balance1 := balance1 + 1;
      } else if current == ')' {
        if balance1 == 0 {
          return false;
        }
        balance1 := balance1 - 1;
      } else if current == '[' {
        balance2 := balance2 + 1;
      } else if current == ']' {
        if balance2 == 0 {
          return false;
        }
        balance2 := balance2 - 1;
      } else if current == '{' {
        balance3 := balance3 + 1;
      } else if current == '}' {
        if balance3 == 0 {
          return false;
        }
        balance3 := balance3 - 1;
      }
    }
    return balance1 == 0 && balance2 == 0 && balance3 == 0;
  }

  /** Openers minus closers of one kind in `p`. */
  function Excess(p: string, o: char, c: char): int
  {
    (multiset(p)[o] as int) - (multiset(p)[c] as int)
  }

  /** The counters after `p` when nothing fails. */
  function Shift(b: Balance, p: string): Balance
  {
    Balance(b.round + Excess(p, '(', ')'), b.square + Excess(p, '[', ']'), b.curly + Excess(p, '{', '}'))
  }

  lemma ShiftConcat(b: Balance, a: string, c: string)
    ensures Shift(b, a + c) == Shift(Shift(b, a), c)
  {
    assert multiset(a + c) == multiset(a) + multiset(c);
  }

  /** Every prefix of `s` keeps the counters started at `b` non-negative. */
  predicate PrefixesFit(b: Balance, s: string)
  {
    forall j :: 0 <= j <= |s| ==> NonNegative(Shift(b, s[..j]))
  }

  /** One character: the counter step fails exactly when its shift goes negative. */
  lemma StepShift(b: Balance, x: char)
    requires NonNegative(b)
    ensures CounterStep(b, x) == if NonNegative(Shift(b, [x])) then Some(Shift(b, [x])) else None
  {
  }

  /** The prefixes of `[x] + t` are `[]` and `[x]` followed by the prefixes of `t`. */
  lemma PrefixesCons(b: Balance, x: char, t: string)
    requires NonNegative(b)
    ensures PrefixesFit(b, [x] + t) <==> NonNegative(Shift(b, [x])) && PrefixesFit(Shift(b, [x]), t)
  {
    var s, b1 := [x] + t, Shift(b, [x]);
    assert s[..0] == [] && s[..1] == [x];
    forall j | 0 <= j <= |t|
      ensures Shift(b, s[..j + 1]) == Shift(b1, t[..j])
    {
      assert s[..j + 1] == [x] + t[..j];
      ShiftConcat(b, [x], t[..j]);
    }
    if NonNegative(b1) && PrefixesFit(b1, t) {
      forall j | 0 <= j <= |s|
        ensures NonNegative(Shift(b, s[..j]))
      {
        if j > 0 {
          assert Shift(b, s[..j]) == Shift(b1, t[..j - 1]);
        }
      }
    }
    if PrefixesFit(b, s) && NonNegative(b1) {
      forall j | 0 <= j <= |t|
        ensures NonNegative(Shift(b1, t[..j]))
      {
        assert NonNegative(Shift(b, s[..j + 1]));
      }
    }
  }

  /**
   * The counter loop, stated without the loop: it fails exactly when some
   * prefix closes more brackets of a kind than the counters hold, and
   * otherwise ends at the start plus openers minus closers of each kind.
   */
  lemma {:induction false} CountFromMeans(b: Balance, s: string)
    requires NonNegative(b)
    ensures CountFrom(b, s) == if PrefixesFit(b, s) then Some(Shift(b, s)) else None
    decreases |s|
  {
    if s == [] {
      assert s[..0] == [];
      assert PrefixesFit(b, s);
    } else {
      var x, t := s[0], s[1..];
      assert s == [x] + t;
      StepShift(b, x);
      PrefixesCons(b, x, t);
      var b1 := Shift(b, [x]);
      if NonNegative(b1) {
        CountFromMeans(b1, t);
        ShiftConcat(b, [x], t);
      }
    }
  }

  /**
   * The counter validator accepts exactly the strings in which, for each
   * kind separately, no prefix has more closers than openers and the whole
   * string has as many of each.
   */
  lemma CounterValidMeans(s: string)
    ensures CounterValid(s) <==> PrefixesFit(Zero, s) && Shift(Zero, s) == Zero
  {
    CountFromMeans(Zero, s);
  }

  /** The openers of each kind on a stack. */
  function Tally(stack: seq<char>): Balance
  {
    Balance(multiset(stack)['('], multiset(stack)['['], multiset(stack)['{'])
  }

  /** Wherever the stack scan goes, the counters follow the openers on its stack. */
  lemma {:induction false} CountsFollowScan(stack: seq<char>, s: string)
    requires Brackets.ScanFrom(stack, s).Some?
    ensures CountFrom(Tally(stack), s) == Some(Tally(Brackets.ScanFrom(stack, s).value))
    decreases |s|
  {
    if s != [] {
      var next := Brackets.Step(stack, s[0]).value;
      StepTally(stack, s[0]);
      CountsFollowScan(next, s[1..]);
    }
  }

  /** One step of the stack scan moves the counters by the same opener. */
  lemma StepTally(stack: seq<char>, c: char)
    requires Brackets.Step(stack, c).Some?
    ensures CounterStep(Tally(stack), c) == Some(Tally(Brackets.Step(stack, c).value))
  {
    var next := Brackets.Step(stack, c).value;
    if Brackets.IsOpen(c) {
      assert multiset(stack + [c]) == multiset(stack) + multiset{c};
    } else if Brackets.IsClose(c) {
      assert stack == next + [stack[|stack| - 1]];
      assert multiset(stack) == multiset(next) + multiset{stack[|stack| - 1]};
    }
  }

  /** Every string the stack validators accept, the counters accept too. */
  lemma ValidCounts(s: string)
    requires Brackets.Valid(s)
    ensures CounterValid(s)
  {
    CountsFollowScan([], s);
  }

  /** The converse fails: crossed kinds balance each counter but do not nest. */
  lemma CrossedKinds()
    ensures CounterValid("([)]") && !Brackets.Valid("([)]")
  {
  }
}
