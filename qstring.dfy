/**
 * The few QString operations mainwindow.cpp relies on, on strings of chars.
 * A QString is a sequence of UTF-16 code units; here a char stands for one.
 */
module QtString {

  /** QString::indexOf(c): the first position holding c, or -1. */
  function IndexOf(s: string, c: char): (r: int)
    ensures -1 <= r < |s|
    ensures r == -1 <==> c !in s
    ensures r >= 0 ==> s[r] == c && c !in s[..r]
    decreases |s|
  {
    if s == [] then -1
    else if s[0] == c then 0
    else
      var k := IndexOf(s[1..], c);
      if k == -1 then -1
      else
        assert s[..k + 1] == [s[0]] + s[1..][..k];
        k + 1
  }

  /** QString::lastIndexOf(c): the last position holding c, or -1. */
  function LastIndexOf(s: string, c: char): (r: int)
    ensures -1 <= r < |s|
    ensures r == -1 <==> c !in s
    ensures r >= 0 ==> s[r] == c && c !in s[r + 1..]
    decreases |s|
  {
    if s == [] then -1
    else if s[|s| - 1] == c then |s| - 1
    else
      var init := s[..|s| - 1];
      var k := LastIndexOf(init, c);
      assert s == init + [s[|s| - 1]];
      if k == -1 then -1
      else
        assert s[k + 1..] == init[k + 1..] + [s[|s| - 1]];
        k
  }

  /** sub occurs in s at position i. */
  predicate OccursAt(s: string, sub: string, i: nat) {
    i + |sub| <= |s| && s[i..i + |sub|] == sub
  }

  lemma OccursShift(s: string, sub: string, i: nat)
    requires 1 <= i && s != []
    ensures OccursAt(s, sub, i) == OccursAt(s[1..], sub, i - 1)
  {
    if i + |sub| <= |s| {
      assert s[i..i + |sub|] == s[1..][i - 1..i - 1 + |sub|];
    }
  }

  /** QString::indexOf(sub): the first position where sub starts, or -1. */
  function IndexOfStr(s: string, sub: string): (r: int)
    requires sub != []
    ensures r == -1 || 0 <= r <= |s| - |sub|
    ensures r >= 0 ==> OccursAt(s, sub, r)
    ensures forall i: nat | r == -1 || i < r :: !OccursAt(s, sub, i)
    decreases |s|
  {
    if |s| < |sub| then -1
    else if s[..|sub|] == sub then 0
    else
      var k := IndexOfStr(s[1..], sub);
      assert forall i: nat | 1 <= i :: OccursAt(s, sub, i) == OccursAt(s[1..], sub, i - 1) by {
        forall i: nat | 1 <= i ensures OccursAt(s, sub, i) == OccursAt(s[1..], sub, i - 1) {
          OccursShift(s, sub, i);
        }
      }
      assert !OccursAt(s, sub, 0);
      if k == -1 then -1 else k + 1
  }

  /** QString::left(n): the whole string when n is negative or at least the length. */
  function Left(s: string, n: int): (r: string)
    ensures n < 0 || n >= |s| ==> r == s
    ensures 0 <= n < |s| ==> r == s[..n]
  {
    if n < 0 || n >= |s| then s else s[..n]
  }

  /** QString::mid(position) for a position that is not negative: empty past the end. */
  function Mid(s: string, position: nat): (r: string)
    ensures position <= |s| ==> r == s[position..]
    ensures position > |s| ==> r == []
  {
    if position <= |s| then s[position..] else []
  }

  /** QString::chop(1): the last character removed, nothing left of a string shorter than 2. */
  function Chop(s: string): (r: string)
    ensures |s| >= 1 ==> r == s[..|s| - 1]
    ensures s == [] ==> r == []
  {
    if s == [] then [] else s[..|s| - 1]
  }

  predicate StartsWith(s: string, prefix: string) {
    |prefix| <= |s| && s[..|prefix|] == prefix
  }

  /** QString's operator<: lexicographic order of code units, a proper prefix first. */
  predicate LexLess(a: string, b: string)
    decreases |a|
  {
    if a == [] then b != []
    else if b == [] then false
    else if a[0] != b[0] then a[0] < b[0]
    else LexLess(a[1..], b[1..])
  }

  lemma {:induction false} LexLessIrreflexive(a: string)
    ensures !LexLess(a, a)
    decreases |a|
  {
    if a != [] {
      LexLessIrreflexive(a[1..]);
    }
  }

  lemma {:induction false} LexLessAfterCommonPrefix(p: string, a: string, b: string)
    ensures LexLess(p + a, p + b) == LexLess(a, b)
    decreases |p|
  {
    if p != [] {
      assert (p + a)[0] == (p + b)[0];
      assert (p + a)[1..] == p[1..] + a;
      assert (p + b)[1..] == p[1..] + b;
      LexLessAfterCommonPrefix(p[1..], a, b);
    } else {
      assert p + a == a && p + b == b;
    }
  }

  lemma {:induction false} LexLessAsymmetric(a: string, b: string)
    ensures !(LexLess(a, b) && LexLess(b, a))
    decreases |a|
  {
    if a != [] && b != [] && a[0] == b[0] {
      LexLessAsymmetric(a[1..], b[1..]);
    }
  }
}
