/**
 * What the stack-based bracket validators compute, as one reference
 * definition: openers are pushed, a closer pops the opener it matches and
 * fails on an empty stack or any other top, every other character is
 * ignored, and the string is valid when the stack ends empty.  The
 * reference is shown to accept exactly the strings whose brackets are
 * well nested (`Nested`).
 */
module Brackets {
  import opened Wrappers

  predicate IsOpen(c: char) { c == '(' || c == '[' || c == '{' }

  predicate IsClose(c: char) { c == ')' || c == ']' || c == '}' }

  predicate IsBracket(c: char) { IsOpen(c) || IsClose(c) }

  /** `o` and `c` are the two halves of one kind of bracket. */
  predicate Pair(o: char, c: char)
  {
    (o == '(' && c == ')') || (o == '[' && c == ']') || (o == '{' && c == '}')
  }

  /**
   * `matchingOpen`: the opener of ')' and ']', and '{' for every other
   * character: for a closer, exactly its partner.
   */
  function MatchingOpen(c: char): (o: char)
    ensures IsClose(c) ==> (Pair(o, c) && forall x :: Pair(x, c) ==> x == o)
    ensures c != ')' && c != ']' ==> o == '{'
  {
    if c == ')' then '('
    else if c == ']' then '['
    else '{'
  }

  /** One character of the scan; `None` when the string is already invalid. */
  function Step(stack: seq<char>, c: char): Option<seq<char>>
  {
    if IsOpen(c) then Some(stack + [c])
    else if IsClose(c) then
      if stack != [] && Pair(stack[|stack| - 1], c) then Some(stack[..|stack| - 1]) else None
    else Some(stack)
  }

  /** The stack after scanning `s` from `stack`, or `None` at the first unmatched closer. */
  function ScanFrom(stack: seq<char>, s: string): Option<seq<char>>
    decreases |s|
  {
    if s == [] then Some(stack)
    else
      match Step(stack, s[0])
      case None => None
      case Some(next) => ScanFrom(next, s[1..])
  }

  /** The validators' answer: the scan completes with an empty stack. */
  predicate Valid(s: string)
  {
    ScanFrom([], s) == Some([])
  }

  predicate OnlyOpeners(stack: seq<char>)
  {
    forall i :: 0 <= i < |stack| ==> IsOpen(stack[i])
  }

  /** Only openers are ever pushed. */
  lemma {:induction false} ScanOpeners(stack: seq<char>, s: string)
    requires OnlyOpeners(stack)
    ensures ScanFrom(stack, s).Some? ==> OnlyOpeners(ScanFrom(stack, s).value)
    decreases |s|
  {
    if s != [] {
      var next := Step(stack, s[0]);
      if next.Some? {
        assert OnlyOpeners(next.value);
        ScanOpeners(next.value, s[1..]);
      }
    }
  }

  /** Scanning two pieces one after the other. */
  lemma {:induction false} ScanConcat(stack: seq<char>, a: string, b: string)
    ensures ScanFrom(stack, a + b)
            == match ScanFrom(stack, a) case None => None case Some(mid) => ScanFrom(mid, b)
    decreases |a|
  {
    if a == [] {
      assert a + b == b;
    } else {
      assert (a + b)[0] == a[0] && (a + b)[1..] == a[1..] + b;
      var next := Step(stack, a[0]);
      if next.Some? {
        ScanConcat(next.value, a[1..], b);
      }
    }
  }

  /** The brackets of `s`, in order. */
  function BracketsOf(s: string): (t: string)
    ensures forall i :: 0 <= i < |t| ==> IsBracket(t[i])
    ensures |t| <= |s|
  {
    if s == [] then []
    else (if IsBracket(s[0]) then [s[0]] else []) + BracketsOf(s[1..])
  }

  /** Characters that are not brackets do not affect the scan. */
  lemma {:induction false} ScanBrackets(stack: seq<char>, s: string)
    ensures ScanFrom(stack, s) == ScanFrom(stack, BracketsOf(s))
    decreases |s|
  {
    if s != [] {
      var t := BracketsOf(s[1..]);
      var next := Step(stack, s[0]);
      if IsBracket(s[0]) {
        assert BracketsOf(s) == [s[0]] + t;
        assert ([s[0]] + t)[1..] == t;
        if next.Some? {
          ScanBrackets(next.value, s[1..]);
        }
      } else {
        assert BracketsOf(s) == t;
        ScanBrackets(stack, s[1..]);
      }
    }
  }

  /**
   * Well-nested brackets: empty, or an opener, a well-nested middle, the
   * closer of the same kind and a well-nested rest.
   */
  predicate Nested(t: string)
    decreases |t|, 1
  {
    t == [] || exists i :: 1 <= i < |t| && NestedAt(t, i)
  }

  /** `t[i]` closes `t[0]`, and what lies between and after is well nested. */
  predicate NestedAt(t: string, i: int)
    decreases |t|, 0
  {
    1 <= i < |t| && Pair(t[0], t[i]) && Nested(t[1..i]) && Nested(t[i + 1..])
  }

  /** A well-nested string scans from any stack back to that stack. */
  lemma {:induction false} NestedScans(stack: seq<char>, t: string)
    requires Nested(t)
    ensures ScanFrom(stack, t) == Some(stack)
    decreases |t|
  {
    if t != [] {
      var i :| 1 <= i < |t| && NestedAt(t, i);
      var o, c, mid, rest := t[0], t[i], t[1..i], t[i + 1..];
      var pushed := stack + [o];
      assert Step(stack, o) == Some(pushed);
      assert ScanFrom(stack, t) == ScanFrom(pushed, t[1..]);
      assert t[1..] == mid + ([c] + rest);
      NestedScans(pushed, mid);
      ScanConcat(pushed, mid, [c] + rest);
      assert Step(pushed, c) == Some(stack) by {
        assert pushed[..|stack|] == stack;
      }
      assert ([c] + rest)[1..] == rest;
      NestedScans(stack, rest);
    }
  }

  /**
   * When the closer popping opener `o` (with `above` stacked over it)
   * comes, the piece before it scans from `above` to empty and the rest
   * continues from `below`.
   */
  lemma {:induction false} FirstReturn(below: seq<char>, o: char, above: seq<char>, m: string, r: seq<char>)
    returns (i: int)
    requires forall k :: 0 <= k < |m| ==> IsBracket(m[k])
    requires ScanFrom(below + [o] + above, m) == Some(r) && |r| <= |below|
    ensures 0 <= i < |m| && Pair(o, m[i])
    ensures ScanFrom(above, m[..i]) == Some([])
    ensures ScanFrom(below, m[i + 1..]) == Some(r)
    decreases |m|
  {
    var whole := below + [o] + above;
    if m != [] {
      var c := m[0];
      assert forall k :: 0 <= k < |m[1..]| ==> m[1..][k] == m[k + 1];
      if IsOpen(c) {
        assert whole + [c] == below + [o] + (above + [c]);
        assert ScanFrom(whole, m) == ScanFrom(below + [o] + (above + [c]), m[1..]);
        var j := FirstReturn(below, o, above + [c], m[1..], r);
        i := j + 1;
        assert m[..i] == [c] + m[1..][..j];
        assert ScanFrom(above, m[..i]) == ScanFrom(above + [c], m[1..][..j]);
        assert m[i + 1..] == m[1..][j + 1..];
      } else if above != [] {
        var top := above[|above| - 1];
        var rest := above[..|above| - 1];
        assert whole[|whole| - 1] == top;
        assert whole[..|whole| - 1] == below + [o] + rest;
        if Pair(top, c) {
          assert Step(whole, c) == Some(below + [o] + rest);
          assert Step(above, c) == Some(rest);
          var j := FirstReturn(below, o, rest, m[1..], r);
          i := j + 1;
          assert m[..i] == [c] + m[1..][..j];
          assert ScanFrom(above, m[..i]) == ScanFrom(rest, m[1..][..j]);
          assert m[i + 1..] == m[1..][j + 1..];
        }
      } else {
        assert whole == below + [o];
        if Pair(o, c) {
          assert whole[..|below|] == below;
          assert Step(whole, c) == Some(below);
          i := 0;
          assert m[..0] == [];
        }
      }
    }
  }

  /** A bracket string that scans from empty to empty is well nested. */
  lemma {:induction false} ScansNested(t: string)
    requires forall k :: 0 <= k < |t| ==> IsBracket(t[k])
    requires ScanFrom([], t) == Some([])
    ensures Nested(t)
    decreases |t|
  {
    if t != [] {
      var o := t[0];
      var m := t[1..];
      if IsOpen(o) {
        assert [] + [o] == [o];
        assert Step([], o) == Some([o]);
        assert [] + [o] + [] == [o];
        var j := FirstReturn([], o, [], m, []);
        var i := j + 1;
        assert t[1..i] == m[..j] && t[i] == m[j] && t[i + 1..] == m[j + 1..];
        assert forall k :: 0 <= k < |m| ==> m[k] == t[k + 1];
        ScansNested(m[..j]);
        ScansNested(m[j + 1..]);
        assert NestedAt(t, i);
      }
    }
  }

  /** The validators accept exactly the strings whose brackets are well nested. */
  lemma ValidIffNested(s: string)
    ensures Valid(s) <==> Nested(BracketsOf(s))
  {
    ScanBrackets([], s);
    if Nested(BracketsOf(s)) {
      NestedScans([], BracketsOf(s));
    }
    if Valid(s) {
      ScansNested(BracketsOf(s));
    }
  }

  /** The sample strings of the validators' test drivers. */
  lemma SampleUnclosed() ensures !Valid("[{()}") {}
  lemma SampleIgnored() ensures Valid("[-]") {}
  lemma SampleCrossed() ensures !Valid("{[(]}") {}
  lemma SampleDigitInside() ensures Valid("([9])") {}

  /** The examples of the Python validator. */
  lemma SampleRoundThree() ensures Valid("((()))") {}
  lemma SampleRoundTwo() ensures Valid("(())") {}
  lemma SampleCurly() ensures Valid("{(())}") {}
}
