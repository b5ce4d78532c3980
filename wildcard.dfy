/**
 * HelperFunctions::matches, the '*' wildcard comparison of a pattern `s1` with a
 * string `s2`, as the code is written, with what can be said about it; and, beside
 * it, a matcher that does what the doc-comment of matches describes ("'*' meaning
 * zero or more of anything"), proved against that description.
 */
module Wildcard {
  import opened Wrappers
  import opened StdString

  /**
   * matches(s1, s2). The preconditions of Substr are std::substr's range check, so
   * their proof shows that no std::out_of_range is thrown; every recursive call is on
   * a strictly shorter `s1`.
   */
  function Matches(s1: string, s2: string): bool
    decreases |s1|
  {
    if s1 == s2 || |s1| == 0 || |s2| == 0 then s1 == s2
    else if s1 == "*" then true
    else if s1[0] == '*' then
      match FindChar(s1, '*', 1)
      case None =>
        // No more stars: the rest of the pattern occurs somewhere in s2. When it does
        // not, the comparison that follows (line 468) of s1[1..] with s2[1..] fails
        // (LeadingStarFallThrough), so the result is false.
        Find(s2, Substr(s1, 1, None), 0).Some?
      case Some(end) =>
        // The result of this recursive call is discarded by the code.
        var discarded :=
          if Find(s2, Substr(s1, 1, Some(end)), 0).Some?
          then Matches(Substr(s1, end, Some(|s1| - end)), Substr(s2, end, Some(|s2| - end)))
          else false;
        // substr(beg, end) with beg == 1 takes `end` characters, the '*' at `end` included.
        if Substr(s1, 1, Some(end)) == Substr(s2, 1, Some(end))
        then Matches(Substr(s1, end, Some(|s1| - end)), Substr(s2, end, Some(|s2| - end)))
        else false
    else
      match FindChar(s1, '*', 0)
      case None =>
        // No star at all and s1 != s2: the comparison at line 468 of the whole strings fails.
        false
      case Some(end) =>
        if Substr(s1, 0, Some(end)) == Substr(s2, 0, Some(end))
        then Matches(Substr(s1, end, Some(|s1| - end)), Substr(s2, end, Some(|s2| - end)))
        else false
  }

  /**
   * When the rest of a one-star pattern "*t" is not found in s2, the code goes on to
   * compare t with s2[1..]; they differ, so that comparison gives false and the
   * recursive call behind it (which would throw) is never reached.
   */
  lemma LeadingStarFallThrough(s1: string, s2: string)
    requires s1 != s2 && |s1| >= 2 && |s2| >= 1 && s1[0] == '*'
    requires FindChar(s1, '*', 1).None? && Find(s2, Substr(s1, 1, None), 0).None?
    ensures Substr(s1, 1, None) != Substr(s2, 1, None)
  {
  }

  /**
   * The base cases: every string matches itself, an empty side matches only an equal
   * side (so '*' does not match ""), and '*' matches every non-empty string.
   */
  lemma MatchesBaseCases(s1: string, s2: string)
    ensures Matches(s1, s1)
    ensures |s1| == 0 || |s2| == 0 ==> (Matches(s1, s2) <==> s1 == s2)
    ensures |s2| > 0 ==> Matches("*", s2)
  {
  }

  /** A pattern without '*' matches exactly the equal string. */
  lemma {:induction false} MatchesLiteral(s1: string, s2: string)
    requires '*' !in s1
    ensures Matches(s1, s2) <==> s1 == s2
  {
    if s1 != s2 && |s1| > 0 && |s2| > 0 {
      assert s1[0] != '*';
      var f := FindChar(s1, '*', 0);
      assert f.None?;
    }
  }

  /** "*t", with `t` star-free, matches a non-empty `s2` exactly when `t` occurs in `s2`. */
  lemma {:induction false} MatchesLeadingStar(t: string, s2: string)
    requires '*' !in t && |s2| > 0
    ensures Matches("*" + t, s2) <==> Occurs(t, s2)
  {
    var s1 := "*" + t;
    assert s1[1..] == t;
    if t == [] {
      assert OccursAt(t, s2, 0);
    } else if s1 == s2 {
      assert OccursAt(t, s2, 1);
    } else {
      var f := FindChar(s1, '*', 1);
      assert forall i :: 1 <= i < |s1| ==> s1[i] == t[i - 1];
      assert f.None?;
      FindFromStart(s2, t);
    }
  }

  /**
   * A pattern whose first '*' is at `e` > 0 and whose literal prefix s1[..e] is not
   * a prefix of `s2` does not match.
   */
  lemma MatchesPrefixMismatch(s1: string, s2: string, e: nat)
    requires 0 < e < |s1| && s1[e] == '*' && '*' !in s1[..e]
    requires !(e <= |s2| && s2[..e] == s1[..e])
    ensures !Matches(s1, s2)
  {
  }

  /**
   * A literal `p` followed by one '*' matches exactly the strings that extend `p` by
   * at least one character: the '*' never stands for nothing.
   */
  lemma {:induction false} MatchesLiteralThenStar(p: string, s2: string)
    requires p != [] && '*' !in p
    ensures Matches(p + "*", s2) <==> |s2| > |p| && s2[..|p|] == p
  {
    var s1 := p + "*";
    var e := |p|;
    assert s1[..e] == p && s1[e..] == "*";
    if s1 != s2 && |s2| > 0 {
      assert s1[0] == p[0];
      var f := FindChar(s1, '*', 0);
      assert forall i :: 0 <= i < e ==> s1[i] == p[i];
      assert s1[e] == '*';
      assert f == Some(e);
      if e <= |s2| && s2[..e] == p {
        var rest := s2[e..];
        assert Substr(s2, e, Some(|s2| - e)) == rest;
        assert Matches("*", rest) <==> |rest| > 0;
      }
    }
  }

  /** matches("a*", "a") is false, although '*' is documented to match zero or more characters. */
  lemma MatchesStarNeedsACharacter()
    ensures !Matches("a*", "a")
  {
  }

  /**
   * matches("*b*", "abc") is false: the code compares "b*", star included, with "bc"
   * instead of searching for "b". After matching itself literally, the second '*'
   * acts again as a leading '*' for the rest: "*b*c" matches "ab*xc".
   */
  lemma MatchesSecondStarIsLiteral()
    ensures !Matches("*b*", "abc")
    ensures Matches("*b*c", "ab*xc")
  {
    assert FindChar("*b*c", '*', 1) == Some(2);
    assert Substr("*b*c", 1, Some(2)) == "b*" == Substr("ab*xc", 1, Some(2));
    assert Substr("*b*c", 2, Some(2)) == "*c" && Substr("ab*xc", 2, Some(3)) == "*xc";
    MatchesLeadingStar("c", "*xc");
    assert OccursAt("c", "*xc", 2);
  }

  /**
   * A leading '*' with no other star asks only that the rest occur somewhere in s2,
   * not that it end s2: matches("*b", "bc") is true, where the documented reading
   * rejects it.
   */
  lemma MatchesLeadingStarIsContains()
    ensures Matches("*b", "bc")
    ensures !GlobMatches("*b", "bc")
  {
  }

  // ------------------------------------------------- the documented behaviour

  /** What the doc-comment describes: each '*' of `p` stands for zero or more characters. */
  ghost predicate Described(p: string, s: string)
    decreases |p|
  {
    if p == [] then s == []
    else if p[0] == '*' then exists k :: 0 <= k <= |s| && Described(p[1..], s[k..])
    else s != [] && s[0] == p[0] && Described(p[1..], s[1..])
  }

  /** A wildcard matcher in which '*' stands for zero or more characters. */
  function GlobMatches(p: string, s: string): bool
    decreases |p| + |s|
  {
    if p == [] then s == []
    else if p[0] == '*' then GlobMatches(p[1..], s) || (s != [] && GlobMatches(p, s[1..]))
    else s != [] && s[0] == p[0] && GlobMatches(p[1..], s[1..])
  }

  /** GlobMatches accepts exactly the strings the pattern describes. */
  lemma {:induction false} GlobMatchesCorrect(p: string, s: string)
    ensures GlobMatches(p, s) == Described(p, s)
    decreases |p| + |s|
  {
    if p == [] {
    } else if p[0] == '*' {
      GlobMatchesCorrect(p[1..], s);
      if s != [] {
        GlobMatchesCorrect(p, s[1..]);
      }
      if GlobMatches(p, s) {
        if GlobMatches(p[1..], s) {
          assert s[0..] == s;
        } else {
          var k' :| 0 <= k' <= |s| - 1 && Described(p[1..], s[1..][k'..]);
          assert s[1..][k'..] == s[k' + 1..];
        }
      } else {
        forall k | 0 <= k <= |s|
          ensures !Described(p[1..], s[k..])
        {
          if k == 0 {
            assert s[0..] == s;
          } else {
            assert s[1..][k - 1..] == s[k..];
          }
        }
      }
    } else if s != [] {
      GlobMatchesCorrect(p[1..], s[1..]);
    }
  }

  /** The documented matcher on the inputs of the findings, and on a few more. */
  lemma GlobMatchesExamples()
    ensures GlobMatches("a*", "a")
    ensures GlobMatches("*b*", "abc")
    ensures GlobMatches("*b*", "ab*")
    ensures GlobMatches("*b*c", "ab*xc")
    ensures !GlobMatches("*b", "bc")
    ensures !GlobMatches("*b*", "acc")
  {
  }
}
