/**
 * Reference definitions that the helpers are specified against: the number of
 * occurrences of a character, and the fields of a string between occurrences of
 * a delimiter (the components of a path between '/', the pieces of a line between
 * '"'), with the lemmas that locate a field by the delimiters before it.
 */
module Fields {

  /** The number of occurrences of `c` in `s`, counted from the back. */
  function Count(s: string, c: char): (n: nat)
    ensures n <= |s|
  {
    if s == [] then 0 else Count(s[..|s| - 1], c) + (if s[|s| - 1] == c then 1 else 0)
  }

  /** Counts add up over concatenation. */
  lemma {:induction false} CountAppend(a: string, b: string, c: char)
    ensures Count(a + b, c) == Count(a, c) + Count(b, c)
    decreases |b|
  {
    if b != [] {
      var b' := b[..|b| - 1];
      assert (a + b)[..|a + b| - 1] == a + b';
      CountAppend(a, b', c);
    } else {
      assert a + b == a;
    }
  }

  /** Nothing to count exactly when `c` does not occur. */
  lemma {:induction false} CountZero(s: string, c: char)
    ensures Count(s, c) == 0 <==> c !in s
    decreases |s|
  {
    if s != [] {
      var s' := s[..|s| - 1];
      CountZero(s', c);
      assert s == s' + [s[|s| - 1]];
    }
  }

  /** `Count` is the number of indices that hold `c`. */
  lemma {:induction false} CountIsIndexCount(s: string, c: char)
    ensures Count(s, c) == |set i | 0 <= i < |s| && s[i] == c|
    decreases |s|
  {
    var idx := set i | 0 <= i < |s| && s[i] == c;
    if s != [] {
      var n := |s| - 1;
      var s' := s[..n];
      var idx' := set i | 0 <= i < n && s'[i] == c;
      CountIsIndexCount(s', c);
      if s[n] == c {
        assert idx == idx' + {n};
      } else {
        assert idx == idx';
      }
    } else {
      assert idx == {};
    }
  }

  /**
   * Extending a prefix across a stretch without `c` to index `j` adds one exactly
   * when `s[j]` is `c`.
   */
  lemma CountExtend(s: string, c: char, i: nat, j: nat)
    requires i <= j < |s| && c !in s[i..j]
    ensures Count(s[..j + 1], c) == Count(s[..i], c) + (if s[j] == c then 1 else 0)
  {
    assert s[..j + 1] == s[..i] + s[i..j] + [s[j]];
    CountAppend(s[..i] + s[i..j], [s[j]], c);
    CountAppend(s[..i], s[i..j], c);
    CountZero(s[i..j], c);
    assert [s[j]][..0] == [];
  }

  /** A stretch without `c` past index `i` adds nothing to the count. */
  lemma CountRest(s: string, c: char, i: nat)
    requires i <= |s| && c !in s[i..]
    ensures Count(s, c) == Count(s[..i], c)
  {
    assert s == s[..i] + s[i..];
    CountAppend(s[..i], s[i..], c);
    CountZero(s[i..], c);
  }

  /** A delimiter at `j` after a stretch without one from `i`: the whole string holds at least one more than s[..i]. */
  lemma CountUpTo(s: string, c: char, i: nat, j: nat)
    requires i <= j < |s| && c !in s[i..j] && s[j] == c
    ensures Count(s, c) >= Count(s[..i], c) + 1
  {
    assert s[..j + 1] + s[j + 1..] == s;
    CountExtend(s, c, i, j);
    CountAppend(s[..j + 1], s[j + 1..], c);
  }

  /** Adding the character `x` to the end of a string with fields `ps`. */
  function Push(ps: seq<string>, x: char, c: char): (r: seq<string>)
    requires |ps| >= 1
  {
    if x == c then ps + [[]] else ps[..|ps| - 1] + [ps[|ps| - 1] + [x]]
  }

  /**
   * The fields of `s` between occurrences of `c`, built one character at a time from
   * the back. There is always one more field than there are delimiters.
   */
  function Split(s: string, c: char): (r: seq<string>)
    ensures |r| == Count(s, c) + 1
  {
    if s == [] then [[]] else Push(Split(s[..|s| - 1], c), s[|s| - 1], c)
  }

  /** Pushing a character only touches the last field. */
  lemma PushAppend(a: seq<string>, b: seq<string>, x: char, c: char)
    requires |b| >= 1
    ensures Push(a + b, x, c) == a + Push(b, x, c)
  {
    if x != c {
      assert (a + b)[..|a + b| - 1] == a + b[..|b| - 1];
    }
  }

  /** The fields joined back together with `c` between them. */
  function Join(ps: seq<string>, c: char): string
  {
    if |ps| == 0 then []
    else if |ps| == 1 then ps[0]
    else Join(ps[..|ps| - 1], c) + [c] + ps[|ps| - 1]
  }

  /** Joining one more field appends the delimiter and the field. */
  lemma JoinSnoc(ps: seq<string>, x: string, c: char)
    requires |ps| >= 1
    ensures Join(ps + [x], c) == Join(ps, c) + [c] + x
  {
    assert (ps + [x])[..|ps|] == ps;
  }

  /** No field contains the delimiter. */
  lemma {:induction false} SplitFieldsLackDelimiter(s: string, c: char)
    ensures forall k :: 0 <= k < |Split(s, c)| ==> c !in Split(s, c)[k]
    decreases |s|
  {
    if s != [] {
      SplitFieldsLackDelimiter(s[..|s| - 1], c);
    }
  }

  /** A string without the delimiter is a single field. */
  lemma {:induction false} SplitWithout(s: string, c: char)
    requires c !in s
    ensures Split(s, c) == [s]
    decreases |s|
  {
    if s != [] {
      var s' := s[..|s| - 1];
      SplitWithout(s', c);
      assert s' + [s[|s| - 1]] == s;
    }
  }

  /** Splitting at a delimiter: the fields before it, then the fields after it. */
  lemma {:induction false} SplitAt(s: string, c: char, b: nat)
    requires 0 < b <= |s| && s[b - 1] == c
    ensures Split(s, c) == Split(s[..b - 1], c) + Split(s[b..], c)
    decreases |s|
  {
    var n := |s|;
    var s' := s[..n - 1];
    if b == n {
      assert s' == s[..b - 1];
      assert s[b..] == [];
    } else {
      SplitAt(s', c, b);
      assert s'[..b - 1] == s[..b - 1];
      var t := s[b..];
      assert t[..|t| - 1] == s'[b..];
      assert t[|t| - 1] == s[n - 1];
      PushAppend(Split(s[..b - 1], c), Split(s'[b..], c), s[n - 1], c);
    }
  }

  /** Two strings put together around a delimiter: the fields of the one, then of the other. */
  lemma SplitDelimited(a: string, b: string, c: char)
    ensures Split(a + [c] + b, c) == Split(a, c) + Split(b, c)
  {
    var s := a + [c] + b;
    SplitAt(s, c, |a| + 1);
    assert s[..|a|] == a;
    assert s[|a| + 1..] == b;
  }

  /** Joining the fields gives back the string. */
  lemma {:induction false} JoinSplit(s: string, c: char)
    ensures Join(Split(s, c), c) == s
    decreases |s|
  {
    if s != [] {
      var s' := s[..|s| - 1];
      var x := s[|s| - 1];
      assert s == s' + [x];
      var ps := Split(s', c);
      var n := |ps|;
      assert Join(ps, c) == s' by {
        JoinSplit(s', c);
      }
      if x == c {
        JoinSnoc(ps, [], c);
      } else if n == 1 {
        assert Split(s, c) == [ps[0] + [x]];
      } else {
        var init := ps[..n - 1];
        assert ps == init + [ps[n - 1]];
        assert Split(s, c) == init + [ps[n - 1] + [x]];
        JoinSnoc(init, ps[n - 1], c);
        JoinSnoc(init, ps[n - 1] + [x], c);
      }
    }
  }

  /** Splitting fields that were joined gives back the fields. */
  lemma {:induction false} SplitJoin(ps: seq<string>, c: char)
    requires |ps| >= 1 && forall k :: 0 <= k < |ps| ==> c !in ps[k]
    ensures Split(Join(ps, c), c) == ps
    decreases |ps|
  {
    var n := |ps|;
    if n == 1 {
      SplitWithout(ps[0], c);
    } else {
      var qs := ps[..n - 1];
      var last := ps[n - 1];
      assert ps == qs + [last];
      var j := Join(qs, c);
      assert Join(ps, c) == j + [c] + last;
      assert Split(j, c) == qs by {
        SplitJoin(qs, c);
      }
      assert Split(last, c) == [last] by {
        SplitWithout(last, c);
      }
      SplitDelimited(j, last, c);
    }
  }

  /** The first field runs up to the first delimiter, or to the end. */
  lemma FirstField(u: string, c: char, e: nat)
    requires e <= |u| && c !in u[..e]
    requires e == |u| || u[e] == c
    ensures Split(u, c)[0] == u[..e]
  {
    if e == |u| {
      assert u[..e] == u;
      SplitWithout(u, c);
    } else {
      SplitAt(u, c, e + 1);
      SplitWithout(u[..e], c);
    }
  }

  /** The fields after a delimiter come after as many fields as there are delimiters up to it. */
  lemma FieldsAfter(s: string, c: char, b: nat)
    requires 0 < b <= |s| && s[b - 1] == c
    ensures Count(s[..b], c) < |Split(s, c)|
    ensures Split(s, c)[Count(s[..b], c)] == Split(s[b..], c)[0]
  {
    assert s[b - 1..b - 1] == [];
    assert |Split(s[..b - 1], c)| == Count(s[..b], c) by {
      CountExtend(s, c, b - 1, b - 1);
    }
    SplitAt(s, c, b);
  }

  /**
   * Locating a field: a stretch `s[b..e]` without `c` that starts at the beginning or
   * just after a `c`, and ends at the end or at a `c`, is the field numbered by the
   * count of `c` before it.
   */
  lemma FieldAt(s: string, c: char, b: nat, e: nat)
    requires b <= e <= |s| && c !in s[b..e]
    requires b == 0 || s[b - 1] == c
    requires e == |s| || s[e] == c
    ensures Count(s[..b], c) < |Split(s, c)|
    ensures Split(s, c)[Count(s[..b], c)] == s[b..e]
  {
    var u := s[b..];
    assert u[..e - b] == s[b..e];
    FirstField(u, c, e - b);
    if b == 0 {
      assert u == s;
    } else {
      FieldsAfter(s, c, b);
    }
  }
}
