/** Patterns for the names of processes: `name`, `name@*`, `name@node`, `name.*@node`. */
module Matcher {
  /** The rest of a name from its first '@' on. */
  function FromAt(p: string): (r: string)
    ensures |r| <= |p| && r == p[|p| - |r|..] && '@' !in p[..|p| - |r|] && (r != "" ==> r[0] == '@')
  {
    if p == "" || p[0] == '@' then p else FromAt(p[1..])
  }

  /** '*' takes everything up to the next '@'; a final '*' takes a nonempty rest; a final "@*" may be absent. */
  predicate Matches(m: string, p: string)
    decreases |m|
  {
    if m == "" then p == ""
    else if p == "" then m == "@*"
    else if m[0] == '*' then m == "*" || Matches(m[1..], FromAt(p))
    else m[0] == p[0] && Matches(m[1..], p[1..])
  }

  lemma {:induction false} FromAtCat(r: string, s: string)
    requires '@' !in r && (s == "" || s[0] == '@')
    ensures FromAt(r + s) == s
    decreases |r|
  {
    if r == "" {
      assert r + s == s;
    } else {
      assert (r + s)[1..] == r[1..] + s && r[0] in r;
      FromAtCat(r[1..], s);
    }
  }

  /** One step of the loop on what remains of the matcher and of the name. */
  lemma MatchStep(m: string, p: string)
    requires m != "" && p != ""
    ensures if p[0] == '@' then FromAt(p) == p else FromAt(p) == FromAt(p[1..])
    ensures Matches(m, p) == if m[0] == '*' then m[1..] == "" || Matches(m[1..], FromAt(p))
                             else m[0] == p[0] && Matches(m[1..], p[1..])
  {
    assert m == [m[0]] + m[1..];
  }

  /** Does what is left of the matcher match what is left of the name? */
  predicate MatchesAt(matcher: string, name: string, m: nat, p: nat) {
    m <= |matcher| && p <= |name| && Matches(matcher[m..], name[p..])
  }

  /** The same inside a star: the name goes on at its next '@'. */
  predicate MatchesInStar(matcher: string, name: string, m: nat, p: nat) {
    m <= |matcher| && p <= |name| && Matches(matcher[m..], FromAt(name[p..]))
  }

  lemma CursorStart(matcher: string, name: string)
    ensures MatchesAt(matcher, name, 0, 0) == Matches(matcher, name)
  {
    assert matcher[0..] == matcher && name[0..] == name;
  }

  /** A step of the loop in terms of the two cursors. */
  lemma CursorStep(matcher: string, name: string, m: nat, p: nat)
    requires m < |matcher| && p < |name|
    ensures name[p] == '@' ==> MatchesInStar(matcher, name, m, p) == MatchesAt(matcher, name, m, p)
    ensures name[p] != '@' ==> MatchesInStar(matcher, name, m, p) == MatchesInStar(matcher, name, m, p + 1)
    ensures matcher[m] == '*'
        ==> MatchesAt(matcher, name, m, p) == (m + 1 == |matcher| || MatchesInStar(matcher, name, m + 1, p))
    ensures matcher[m] != '*'
        ==> MatchesAt(matcher, name, m, p) == (matcher[m] == name[p] && MatchesAt(matcher, name, m + 1, p + 1))
  {
    hide Matches, FromAt;
    MatchStep(matcher[m..], name[p..]);
    assert matcher[m..][1..] == matcher[m + 1..] && name[p..][1..] == name[p + 1..];
  }

  /** What the loop leaves when one of the cursors is at its end. */
  lemma CursorEnd(matcher: string, name: string, m: nat, p: nat)
    requires m <= |matcher| && p <= |name| && (m == |matcher| || p == |name|)
    ensures m == |matcher| ==> MatchesAt(matcher, name, m, p) == (p == |name|)
    ensures m < |matcher|
        ==> MatchesAt(matcher, name, m, p) == (|matcher| - m == 2 && matcher[m] == '@' && matcher[m + 1] == '*')
    ensures p == |name| ==> MatchesInStar(matcher, name, m, p) == MatchesAt(matcher, name, m, p)
  {
    hide Matches, FromAt;
    MatchEnd(matcher[m..], name[p..]);
    AtStarLeft(matcher, m);
  }

  lemma AtStarLeft(matcher: string, m: nat)
    requires m <= |matcher|
    ensures matcher[m..] == "@*" <==> |matcher| - m == 2 && matcher[m] == '@' && matcher[m + 1] == '*'
    ensures matcher[m..] == "" <==> m == |matcher|
  {
  }

  lemma MatchEnd(m: string, p: string)
    requires m == "" || p == ""
    ensures Matches(m, p) == if m == "" then p == "" else m == "@*"
    ensures FromAt("") == ""
  {
  }

  /** The matcher's loop: two cursors and a flag for "inside a star". */
  method IsProcessNameMatch(matcher: string, name: string) returns (ok: bool)
    requires matcher != ""
    ensures ok == Matches(matcher, name)
  {
    hide Matches, MatchesAt, MatchesInStar;
    var m, p, star := 0, 0, false;
    CursorStart(matcher, name);
    while m < |matcher| && p < |name|
      invariant m <= |matcher| && p <= |name| && (m == 0 ==> !star && p == 0)
      invariant star ==> m > 0 && matcher[m - 1] == '*' && (m == |matcher| ==> p < |name|)
      invariant m == |matcher| && p < |name| && matcher[m - 1] == '*' ==> star
      invariant star && m < |matcher| ==> Matches(matcher, name) == MatchesInStar(matcher, name, m, p)
      invariant star && m == |matcher| ==> Matches(matcher, name)
      invariant !star ==> Matches(matcher, name) == MatchesAt(matcher, name, m, p)
      decreases |matcher| - m + |name| - p, star
    {
      CursorStep(matcher, name, m, p);
      if star {
        if name[p] == '@' {
          star := false;
        } else {
          p := p + 1;
        }
      } else {
        if matcher[m] == '*' {
          star := true;
          m := m + 1;
        } else if matcher[m] == name[p] {
          m := m + 1;
          p := p + 1;
        } else {
          return false;
        }
      }
    }
    CursorEnd(matcher, name, m, p);
    if m < |matcher| {
      var rest := |matcher| - m;
      return rest == 2 && matcher[m] == '@' && matcher[m + 1] == '*';
    } else if p < |name| {
      return matcher[|matcher| - 1] == '*';
    } else {
      return true;
    }
  }

  // ---------------------------------------------------------------- the documented styles

  /** A matcher without stars matches itself only. */
  lemma {:induction false} MatchesExact(m: string, p: string)
    requires '*' !in m
    ensures Matches(m, p) <==> p == m
    decreases |m|
  {
    if m != "" {
      assert m[0] in m;
      if p == "" {
        assert |m| > 1 ==> m[1] in m;
      } else {
        MatchesExact(m[1..], p[1..]);
        assert m == [m[0]] + m[1..] && p == [p[0]] + p[1..];
      }
    }
  }

  /** A beginning without stars has to be there literally. */
  lemma {:induction false} MatchesPrefix(a: string, m: string, p: string)
    requires '*' !in a && m != "" && !(m == "*" && a != "" && a[|a| - 1] == '@')
    ensures Matches(a + m, p) <==> a <= p && Matches(m, p[|a|..])
    decreases |a|
  {
    if a == "" {
      assert a + m == m;
    } else if p != "" {
      assert a[0] in a && (a + m)[1..] == a[1..] + m;
      MatchesPrefix(a[1..], m, p[1..]);
      assert a == [a[0]] + a[1..] && p == [p[0]] + p[1..];
      assert a <= p ==> p[1..][|a[1..]|..] == p[|a|..];
    } else {
      assert (a + m)[0] == a[0] && (|a| == 1 ==> (a + m)[1..] == m);
      assert |a| > 1 ==> (a + m)[1] == a[1] && a[1] in a;
    }
  }

  lemma AtStar(rest: string)
    ensures Matches("@*", rest) <==> rest == "" || (rest[0] == '@' && |rest| > 1)
  {
    if rest != "" && rest[0] == '@' {
      assert "@*"[1..] == ['*'];
      assert ['*'][1..] == "";
    }
  }

  /** `name@*`: the name on every node, the own one included. */
  lemma MatchesAnyNode(n: string, p: string)
    requires '*' !in n
    ensures Matches(n + "@*", p) <==> p == n || (n + "@" <= p && |p| > |n| + 1)
  {
    hide Matches;
    MatchesPrefix(n, "@*", p);
    if n <= p {
      AtStar(p[|n|..]);
      AtFollows(n, p);
    }
  }

  lemma AtFollows(n: string, p: string)
    requires n <= p
    ensures p == n <==> p[|n|..] == ""
    ensures n + "@" <= p <==> |p| > |n| && p[|n|] == '@'
  {
    assert n + "@" <= p ==> p[|n|] == (n + "@")[|n|];
  }

  /** `name.*@node`: on that node, every process whose name begins so. */
  lemma MatchesStar(a: string, b: string, p: string)
    requires '*' !in a && '*' !in b && !(a != "" && a[|a| - 1] == '@' && b == "")
    ensures Matches(a + "*@" + b, p) <==> exists r :: '@' !in r && p == a + r + "@" + b
  {
    hide Matches, FromAt;
    assert a + "*@" + b == a + ("*@" + b);
    MatchesPrefix(a, "*@" + b, p);
    if a <= p {
      var rest := p[|a|..];
      assert p == a + rest;
      StarMatches(b, rest);
      if r :| '@' !in r && p == a + r + "@" + b {
        assert p == a + (r + "@" + b);
      }
      if r :| '@' !in r && rest == r + "@" + b {
        assert p == a + r + "@" + b;
      }
    }
  }

  lemma StarMatches(b: string, p: string)
    requires '*' !in b
    ensures Matches("*@" + b, p) <==> exists r :: '@' !in r && p == r + "@" + b
  {
    hide Matches, FromAt;
    StarStep(b, p);
    var s := FromAt(p);
    var r := p[..|p| - |s|];
    assert p == r + s;
    if s == "@" + b {
      assert p == r + "@" + b;
    }
    if t :| '@' !in t && p == t + "@" + b {
      assert p == t + ("@" + b);
      FromAtCat(t, "@" + b);
    }
  }

  lemma StarStep(b: string, p: string)
    requires '*' !in b
    ensures Matches("*@" + b, p) <==> FromAt(p) == "@" + b
  {
    var m := "*@" + b;
    assert m[1..] == "@" + b && m[0] == '*' && |m| > 1;
    MatchesExact("@" + b, FromAt(p));
  }
}
