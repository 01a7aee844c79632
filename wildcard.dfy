/**
 * WildcardToRegExp (mainwindow.cpp): the search box pattern with '*' as a
 * wildcard becomes a regular expression. A pattern with a '*' is widened to
 * match anywhere by a '*' at each end, and each '*' becomes ".*".
 */
module Wildcard {
  import opened QtString

  /** The two padding steps: a '*' in front unless the first '*' is already there, then one behind likewise. */
  function Pad(s: string): (t: string)
    ensures '*' in t <==> '*' in s
    ensures |s| <= |t| <= |s| + 2
  {
    var fwc := IndexOf(s, '*');
    var front := if fwc != -1 && fwc != 0 then "*" + s else s;
    var lwc := LastIndexOf(front, '*');
    if lwc != -1 && lwc != |front| - 1 then front + "*" else front
  }

  /** QString::replace("*", ".*"). */
  function ExpandStars(s: string): (r: string)
    ensures |r| >= |s|
    ensures r != [] ==> r[0] != '*'
    ensures '*' in s <==> '*' in r
  {
    if s == [] then []
    else if s[0] == '*' then ".*" + ExpandStars(s[1..])
    else [s[0]] + ExpandStars(s[1..])
  }

  function WildcardToRegExp(s: string): (r: string)
    ensures '*' in r <==> '*' in s
    ensures |r| >= |s|
  {
    ExpandStars(Pad(s))
  }

  /** Padding only ever adds a '*' at either end. */
  lemma PadShape(s: string)
    ensures '*' !in s ==> Pad(s) == s
    ensures '*' in s ==> exists pre: string, post: string ::
      pre in {"", "*"} && post in {"", "*"} && Pad(s) == pre + s + post
  {
    if '*' in s {
      var fwc := IndexOf(s, '*');
      var pre: string := if fwc != 0 then "*" else "";
      var front := pre + s;
      var lwc := LastIndexOf(front, '*');
      var post: string := if lwc != |front| - 1 then "*" else "";
      assert Pad(s) == pre + s + post;
    }
  }

  /** With a '*' in the pattern, the padded pattern begins and ends with one. */
  lemma PadEnds(s: string)
    requires '*' in s
    ensures |Pad(s)| >= 1 && Pad(s)[0] == '*' && Pad(s)[|Pad(s)| - 1] == '*'
  {
    var fwc := IndexOf(s, '*');
    var front := if fwc != 0 then "*" + s else s;
    assert front[0] == '*';
    assert '*' in front;
  }

  lemma {:induction false} ExpandStarsAppend(a: string, b: string)
    ensures ExpandStars(a + b) == ExpandStars(a) + ExpandStars(b)
    decreases |a|
  {
    if a != [] {
      assert (a + b)[1..] == a[1..] + b;
      ExpandStarsAppend(a[1..], b);
    } else {
      assert a + b == b;
    }
  }

  /** A pattern without a wildcard is searched for as it stands. */
  lemma NoWildcardUnchanged(s: string)
    requires '*' !in s
    ensures WildcardToRegExp(s) == s
  {
    PadShape(s);
    ExpandStarsNoStar(s);
  }

  lemma {:induction false} ExpandStarsNoStar(s: string)
    requires '*' !in s
    ensures ExpandStars(s) == s
    decreases |s|
  {
    if s != [] {
      assert '*' !in s[1..] by {
        assert forall i | 0 <= i < |s[1..]| :: s[1..][i] == s[i + 1];
      }
      ExpandStarsNoStar(s[1..]);
    }
  }

  /** A pattern with a wildcard matches anywhere: the expression starts and ends with ".*". */
  lemma WildcardPadded(s: string)
    requires '*' in s
    ensures |WildcardToRegExp(s)| >= 2
    ensures WildcardToRegExp(s)[..2] == ".*"
    ensures WildcardToRegExp(s)[|WildcardToRegExp(s)| - 2..] == ".*"
  {
    PadEnds(s);
    var p := Pad(s);
    var n := |p|;
    assert ExpandStars(p) == ".*" + ExpandStars(p[1..]);
    assert p == p[..n - 1] + [p[n - 1]];
    ExpandStarsAppend(p[..n - 1], [p[n - 1]]);
    assert ExpandStars([p[n - 1]]) == ".*";
  }

  /** Every '*' of the expression is the quantifier of a '.', so it never repeats a literal character. */
  lemma {:induction false} EveryStarAfterDot(s: string)
    ensures forall i | 0 <= i < |ExpandStars(s)| && ExpandStars(s)[i] == '*' :: i > 0 && ExpandStars(s)[i - 1] == '.'
    decreases |s|
  {
    if s != [] {
      EveryStarAfterDot(s[1..]);
      var rest := ExpandStars(s[1..]);
      var head: string := if s[0] == '*' then ".*" else [s[0]];
      assert ExpandStars(s) == head + rest;
      forall i | 0 <= i < |head + rest| && (head + rest)[i] == '*'
        ensures i > 0 && (head + rest)[i - 1] == '.'
      {
        if i > |head| {
          assert (head + rest)[i - 1] == rest[i - |head| - 1];
        }
      }
    }
  }

  /** ".*" read back as '*', left to right. */
  function Collapse(r: string): (s: string)
    decreases |r|
  {
    if r == [] then []
    else if |r| >= 2 && r[0] == '.' && r[1] == '*' then "*" + Collapse(r[2..])
    else [r[0]] + Collapse(r[1..])
  }

  /** The expansion loses nothing: the padded pattern is recovered from the expression. */
  lemma {:induction false} CollapseExpand(s: string)
    ensures Collapse(ExpandStars(s)) == s
    decreases |s|
  {
    if s != [] {
      CollapseExpand(s[1..]);
      var rest := ExpandStars(s[1..]);
      if s[0] == '*' {
        assert (".*" + rest)[2..] == rest;
      } else {
        assert ([s[0]] + rest)[1..] == rest;
        if s[0] == '.' && rest != [] {
          assert ([s[0]] + rest)[1] == rest[0];
        }
      }
    }
  }

  lemma RegExpDetermined(s: string)
    ensures Collapse(WildcardToRegExp(s)) == Pad(s)
  {
    CollapseExpand(Pad(s));
  }
}
