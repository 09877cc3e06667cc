/**
 * String helpers shared by the record formats: Python's `str.strip()`,
 * `str.split('|')` and `'|'.join(...)`, ASCII digit strings, `str(n)` for
 * a natural number and `str.zfill(width)`.
 */
module Text {

  /** The characters Python's `str.isspace()` accepts, which `str.strip()` removes. */
  predicate IsSpace(c: char)
  {
    c == ' ' || ('\t' <= c <= '\r') || ('\U{1c}' <= c <= '\U{1f}')
    || c == '\U{85}' || c == '\U{a0}' || c == '\U{1680}'
    || ('\U{2000}' <= c <= '\U{200a}') || c == '\U{2028}' || c == '\U{2029}'
    || c == '\U{202f}' || c == '\U{205f}' || c == '\U{3000}'
  }

  /** Neither the first nor the last character is white space. */
  predicate NoOuterSpace(s: string)
  {
    s == [] || (!IsSpace(s[0]) && !IsSpace(s[|s| - 1]))
  }

  function StripLeft(s: string): (r: string)
    ensures |r| <= |s| && r == s[|s| - |r|..]
    ensures forall i :: 0 <= i < |s| - |r| ==> IsSpace(s[i])
    ensures r == [] || !IsSpace(r[0])
  {
    if s != [] && IsSpace(s[0]) then
      var r := StripLeft(s[1..]);
      LeftStep(s, s[1..], r);
      r
    else s
  }

  lemma LeftStep(s: string, t: string, r: string)
    requires s != [] && IsSpace(s[0]) && t == s[1..]
    requires |r| <= |t| && r == t[|t| - |r|..]
    requires forall i :: 0 <= i < |t| - |r| ==> IsSpace(t[i])
    ensures r == s[|s| - |r|..]
    ensures forall i :: 0 <= i < |s| - |r| ==> IsSpace(s[i])
  {
    forall i | 0 < i < |s| - |r|
      ensures IsSpace(s[i])
    {
      assert s[i] == t[i - 1];
    }
  }

  function StripRight(s: string): (r: string)
    ensures |r| <= |s| && r == s[..|r|]
    ensures forall i :: |r| <= i < |s| ==> IsSpace(s[i])
    ensures r == [] || !IsSpace(r[|r| - 1])
  {
    if s != [] && IsSpace(s[|s| - 1]) then
      var r := StripRight(s[..|s| - 1]);
      RightStep(s, s[..|s| - 1], r);
      r
    else s
  }

  lemma RightStep(s: string, t: string, r: string)
    requires s != [] && IsSpace(s[|s| - 1]) && t == s[..|s| - 1]
    requires |r| <= |t| && r == t[..|r|]
    requires forall i :: |r| <= i < |t| ==> IsSpace(t[i])
    ensures r == s[..|r|]
    ensures forall i :: |r| <= i < |s| ==> IsSpace(s[i])
  {
    forall i | |r| <= i < |s| - 1
      ensures IsSpace(s[i])
    {
      assert s[i] == t[i];
    }
  }

  /** Python's `s.strip()`: white space removed from both ends. */
  function Strip(s: string): (r: string)
    ensures NoOuterSpace(r)
    ensures exists i :: StrippedAt(s, r, i)
  {
    var l := StripLeft(s);
    var r := StripRight(l);
    StrippedAtBoth(s, l, r, |s| - |l|);
    r
  }

  /** `r` is `s[i..]` cut short, with only white space cut off on either side. */
  predicate StrippedAt(s: string, r: string, i: int)
  {
    0 <= i <= |s| - |r| && r == s[i..i + |r|]
    && (forall k :: 0 <= k < i ==> IsSpace(s[k]))
    && (forall k :: i + |r| <= k < |s| ==> IsSpace(s[k]))
  }

  lemma StrippedAtBoth(s: string, l: string, r: string, i: int)
    requires 0 <= i <= |s| && l == s[i..] && forall k :: 0 <= k < i ==> IsSpace(s[k])
    requires |r| <= |l| && r == l[..|r|] && forall k :: |r| <= k < |l| ==> IsSpace(l[k])
    ensures StrippedAt(s, r, i)
  {
    forall k | i + |r| <= k < |s|
      ensures IsSpace(s[k])
    {
      assert s[k] == l[k - i];
    }
  }

  lemma {:induction false} StripLeftNoOp(s: string)
    requires s == [] || !IsSpace(s[0])
    ensures StripLeft(s) == s
  {
  }

  /** A string without outer white space is its own strip. */
  lemma StripNoOp(s: string)
    requires NoOuterSpace(s)
    ensures Strip(s) == s
  {
  }

  /** Stripping a line read back from the file undoes the newline the writer added. */
  lemma {:induction false} StripNewline(s: string)
    requires NoOuterSpace(s) && s != []
    ensures Strip(s + "\n") == s
  {
    var t := s + "\n";
    assert t[0] == s[0];
    StripLeftNoOp(t);
    assert t[..|t| - 1] == s;
    assert IsSpace(t[|t| - 1]);
    assert StripRight(t) == StripRight(s);
    assert StripRight(s) == s;
  }

  /** Python's `s.split('|')`: the pieces between delimiters, at least one. */
  function Split(s: string): (parts: seq<string>)
    ensures |parts| >= 1 && NoPipes(parts)
  {
    if s == [] then [""]
    else
      var rest := Split(s[1..]);
      if s[0] == '|' then [""] + rest
      else
        var r := [[s[0]] + rest[0]] + rest[1..];
        assert r[1..] == rest[1..];
        r
  }

  /** Joining the pieces of a split gives back the string. */
  lemma {:induction false} JoinSplit(s: string)
    ensures Join(Split(s)) == s
  {
    if s != [] {
      var rest := Split(s[1..]);
      JoinSplit(s[1..]);
      if s[0] == '|' {
        assert Split(s) == [""] + rest;
        assert s == [s[0]] + s[1..];
      } else {
        var r := Split(s);
        assert r == [[s[0]] + rest[0]] + rest[1..];
        assert r[1..] == rest[1..];
        assert s == [s[0]] + s[1..];
        if |rest| > 1 {
          assert rest == [rest[0]] + rest[1..];
          assert Join(rest) == rest[0] + "|" + Join(rest[1..]);
        }
      }
    }
  }

  /** No piece holds the delimiter. */
  predicate NoPipes(parts: seq<string>)
  {
    forall i :: 0 <= i < |parts| ==> '|' !in parts[i]
  }

  /** Python's `'|'.join(parts)`. */
  function Join(parts: seq<string>): (s: string)
  {
    if |parts| == 0 then ""
    else if |parts| == 1 then parts[0]
    else parts[0] + "|" + Join(parts[1..])
  }

  lemma {:induction false} SplitPrefix(p: string, x: string)
    requires '|' !in p
    ensures Split(p + x) == [p + Split(x)[0]] + Split(x)[1..]
  {
    if p != [] {
      assert (p + x)[1..] == p[1..] + x;
      SplitPrefix(p[1..], x);
      assert [p[0]] + (p[1..] + Split(x)[0]) == p + Split(x)[0];
    } else {
      assert p + x == x;
      assert p + Split(x)[0] == Split(x)[0];
      assert [Split(x)[0]] + Split(x)[1..] == Split(x);
    }
  }

  /** Splitting undoes joining when no piece holds the delimiter. */
  lemma {:induction false} SplitJoin(parts: seq<string>)
    requires |parts| >= 1
    requires forall i :: 0 <= i < |parts| ==> '|' !in parts[i]
    ensures Split(Join(parts)) == parts
  {
    if |parts| == 1 {
      SplitPrefix(parts[0], "");
      assert parts[0] + "" == parts[0];
    } else {
      var rest := Join(parts[1..]);
      SplitJoin(parts[1..]);
      assert parts[0] + "|" + rest == parts[0] + ("|" + rest);
      SplitPrefix(parts[0], "|" + rest);
      assert ("|" + rest)[1..] == rest;
      assert Split("|" + rest) == [""] + parts[1..];
      assert parts[0] + "" == parts[0];
      assert [parts[0]] + parts[1..] == parts;
    }
  }

  lemma SplitOfJoin(parts: seq<string>)
    requires |parts| >= 1
    ensures NoPipes(parts) ==> Split(Join(parts)) == parts
  {
    if NoPipes(parts) {
      SplitJoin(parts);
    }
  }

  /** The number of delimiters in `s`. */
  function Pipes(s: string): nat
  {
    multiset(s)['|']
  }

  /** A join of delimiter-free pieces holds one delimiter between each two pieces. */
  lemma {:induction false} JoinPipes(parts: seq<string>)
    requires |parts| >= 1 && NoPipes(parts)
    ensures Pipes(Join(parts)) == |parts| - 1
  {
    if |parts| > 1 {
      JoinPipes(parts[1..]);
      assert multiset(parts[0] + "|" + Join(parts[1..]))
          == multiset(parts[0]) + multiset("|") + multiset(Join(parts[1..]));
    } else {
      assert multiset(parts[0])['|'] == 0;
    }
  }

  lemma SlicePipes(s: string, i: int, j: int)
    requires 0 <= i <= j <= |s|
    ensures Pipes(s[i..j]) <= Pipes(s)
  {
    assert s == s[..i] + s[i..j] + s[j..];
    assert multiset(s) == multiset(s[..i]) + multiset(s[i..j]) + multiset(s[j..]);
  }

  /** Stripping never adds a delimiter. */
  lemma StripPipes(s: string)
    ensures Pipes(Strip(s)) <= Pipes(s)
  {
    var l := StripLeft(s);
    var r := StripRight(l);
    assert Strip(s) == r;
    assert l == s[|s| - |l|..|s|];
    SlicePipes(s, |s| - |l|, |s|);
    assert r == l[0..|r|];
    SlicePipes(l, 0, |r|);
  }

  lemma {:induction false} JoinFirst(parts: seq<string>)
    requires |parts| >= 1 && parts[0] != []
    ensures Join(parts) != [] && Join(parts)[0] == parts[0][0]
  {
  }

  lemma {:induction false} JoinLast(parts: seq<string>)
    requires |parts| >= 1 && parts[|parts| - 1] != []
    ensures Join(parts) != [] && Join(parts)[|Join(parts)| - 1] == parts[|parts| - 1][|parts[|parts| - 1]| - 1]
  {
    if |parts| > 1 {
      JoinLast(parts[1..]);
    }
  }

  lemma {:induction false} JoinStartsWithDelimiter(parts: seq<string>)
    requires |parts| >= 2 && parts[0] == []
    ensures Join(parts) != [] && Join(parts)[0] == '|'
  {
  }

  lemma {:induction false} JoinEndsWithDelimiter(parts: seq<string>)
    requires |parts| >= 2 && parts[|parts| - 1] == []
    ensures Join(parts) != [] && Join(parts)[|Join(parts)| - 1] == '|'
  {
    if |parts| > 2 {
      JoinEndsWithDelimiter(parts[1..]);
    }
  }

  /** The first piece has no leading and the last piece no trailing white space. */
  predicate CleanEdges(parts: seq<string>)
    requires |parts| >= 1
  {
    (parts[0] == [] || !IsSpace(parts[0][0]))
    && (parts[|parts| - 1] == [] || !IsSpace(parts[|parts| - 1][|parts[|parts| - 1]| - 1]))
  }

  lemma {:induction false} JoinFirstClean(parts: seq<string>)
    requires |parts| >= 1
    ensures (Join(parts) == [] || !IsSpace(Join(parts)[0]))
            <==> (parts[0] == [] || !IsSpace(parts[0][0]))
  {
    if parts[0] != [] { JoinFirst(parts); }
    else if |parts| >= 2 { JoinStartsWithDelimiter(parts); }
  }

  lemma {:induction false} JoinLastClean(parts: seq<string>)
    requires |parts| >= 1
    ensures (Join(parts) == [] || !IsSpace(Join(parts)[|Join(parts)| - 1]))
            <==> (parts[|parts| - 1] == [] || !IsSpace(parts[|parts| - 1][|parts[|parts| - 1]| - 1]))
  {
    var n := |parts|;
    if parts[n - 1] != [] { JoinLast(parts); }
    else if n >= 2 { JoinEndsWithDelimiter(parts); }
  }

  /** A join has no outer white space exactly when its edge pieces have none. */
  lemma JoinNoOuterSpace(parts: seq<string>)
    requires |parts| >= 1
    ensures NoOuterSpace(Join(parts)) <==> CleanEdges(parts)
  {
    JoinFirstClean(parts);
    JoinLastClean(parts);
  }

  /** The pieces of a stripped string have clean edges. */
  lemma SplitStripped(s: string)
    ensures CleanEdges(Split(Strip(s)))
  {
    JoinSplit(Strip(s));
    JoinNoOuterSpace(Split(Strip(s)));
  }

  predicate IsDigit(c: char) { '0' <= c <= '9' }

  predicate AllDigits(s: string) { forall i :: 0 <= i < |s| ==> IsDigit(s[i]) }

  function DigitValue(c: char): nat requires IsDigit(c) { c as int - '0' as int }

  function DigitChar(d: nat): (c: char)
    requires d < 10
    ensures IsDigit(c) && DigitValue(c) == d
  {
    ('0' as int + d) as char
  }

  /** The number a string of decimal digits denotes, as Python's `int(s)` reads it. */
  function Value(s: string): nat
    requires AllDigits(s)
  {
    if s == [] then 0 else Value(s[..|s| - 1]) * 10 + DigitValue(s[|s| - 1])
  }

  lemma ValueOfTwo(s: string)
    requires |s| == 2 && AllDigits(s)
    ensures Value(s) == 10 * DigitValue(s[0]) + DigitValue(s[1])
  {
    var h := s[..1];
    assert h[..0] == [];
    assert Value(h) == Value(h[..0]) * 10 + DigitValue(h[0]);
    assert Value(s) == Value(h) * 10 + DigitValue(s[1]);
  }

  lemma ValueOfFour(s: string)
    requires |s| == 4 && AllDigits(s)
    ensures Value(s) == 1000 * DigitValue(s[0]) + 100 * DigitValue(s[1])
                        + 10 * DigitValue(s[2]) + DigitValue(s[3])
  {
    var h := s[..3];
    assert h[..2] == s[..2];
    ValueOfTwo(s[..2]);
    assert Value(h) == Value(s[..2]) * 10 + DigitValue(s[2]);
    assert Value(s) == Value(h) * 10 + DigitValue(s[3]);
  }

  /** Python's `str(n)` for a natural number. */
  function NatToString(n: nat): (s: string)
    ensures |s| >= 1 && AllDigits(s) && Value(s) == n
    ensures s[0] == '0' ==> n == 0
  {
    if n < 10 then [DigitChar(n)]
    else
      var s := NatToString(n / 10) + [DigitChar(n % 10)];
      assert s[..|s| - 1] == NatToString(n / 10);
      s
  }

  function Zeros(k: nat): (s: string)
    ensures |s| == k && forall i :: 0 <= i < k ==> s[i] == '0'
  {
    if k == 0 then [] else Zeros(k - 1) + "0"
  }

  /** Python's `s.zfill(width)` for an unsigned digit string. */
  function ZFill(s: string, width: nat): (r: string)
    ensures |r| == if |s| >= width then |s| else width
    ensures r[|r| - |s|..] == s
    ensures forall i :: 0 <= i < |r| - |s| ==> r[i] == '0'
  {
    if |s| >= width then s else Zeros(width - |s|) + s
  }

  /** Leading zeros do not change the value of a digit string. */
  lemma {:induction false} LeadingZeros(s: string, k: nat)
    requires AllDigits(s)
    ensures AllDigits(Zeros(k) + s) && Value(Zeros(k) + s) == Value(s)
  {
    if s == [] {
      assert Zeros(k) + s == Zeros(k);
      ZerosValue(k);
    } else {
      var t := Zeros(k) + s;
      assert t[..|t| - 1] == Zeros(k) + s[..|s| - 1];
      LeadingZeros(s[..|s| - 1], k);
    }
  }

  lemma {:induction false} ZerosValue(k: nat)
    ensures AllDigits(Zeros(k)) && Value(Zeros(k)) == 0
  {
    if k > 0 {
      assert Zeros(k)[..k - 1] == Zeros(k - 1);
      ZerosValue(k - 1);
    }
  }
}
