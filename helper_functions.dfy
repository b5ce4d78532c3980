/**
 * The string and path helpers of lsvpd::HelperFunctions. Each operation is a
 * method that does what the C++ member does, loop for loop, and is proved against
 * the reference definitions of module Fields. A `string&` that the C++ writes
 * through is a value passed in and the new value returned.
 */
module HelperFunctions {
  import opened Wrappers
  import opened StdString
  import opened Fields

  // ---------------------------------------------------------------- parseString

  /**
   * parseString(line, str_pos, out): the text between the quotes of the
   * `strPos`-th `"..."` pair of `line`, counting pairs from 1. On success it is
   * both returned and stored in `out`; on failure the empty string is returned and
   * `out` keeps its value `outBefore`. The pairs are fields 1, 3, 5, ... of `line`
   * split at '"', so the pair exists exactly when the line has `2 * strPos` quotes.
   */
  method ParseString(line: string, strPos: int, outBefore: string) returns (r: string, out: string)
    ensures var fields := Split(line, '"');
            if 0 < strPos && 2 * strPos < |fields|
            then r == fields[2 * strPos - 1] && out == r
            else r == "" && out == outBefore
    ensures '"' !in r
  {
    out := outBefore;
    if line == "" {
      return "", out;
    }
    if strPos <= 0 {
      return "", out;
    }
    var pos: nat, beg: nat := 0, 0;
    var n := strPos;
    ghost var k: nat := 0;    // pairs passed so far
    while n > 0
      invariant n == strPos - k && n >= 0
      invariant PairsPassed(line, pos, k)
      invariant k > 0 ==> QuoteOpens(line, beg, pos, k)
    {
      var open := FindChar(line, '"', pos);
      OpeningQuote(line, pos, k);
      if open.None? {
        return "", out;
      }
      beg := open.value;
      var close := FindChar(line, '"', beg + 1);
      ClosingQuote(line, beg, k);
      if close.None? {
        return "", out;
      }
      pos := close.value + 1;
      n := n - 1;
      k := k + 1;
    }
    out := Substr(line, beg + 1, Some(pos - beg - 2));
    r := out;
    QuotedFieldFound(line, strPos, beg, pos);
  }

  /** `pos` is 0 or just past a '"', and `k` quote pairs lie before it. */
  predicate PairsPassed(line: string, pos: nat, k: nat) {
    pos <= |line| && (pos == 0 || line[pos - 1] == '"') && Count(line[..pos], '"') == 2 * k
  }

  /** The `k`-th pair of quotes sits at `beg` and `pos - 1`. */
  predicate QuoteOpens(line: string, beg: nat, pos: nat, k: nat) {
    0 < k && beg + 1 < pos <= |line| && line[beg] == '"' && line[pos - 1] == '"' &&
    '"' !in line[beg + 1..pos - 1] && Count(line[..beg + 1], '"') == 2 * k - 1
  }

  /** After `k` pairs, either there is no further '"' and the line has 2k + 1 fields, or the next one opens pair k + 1. */
  lemma OpeningQuote(line: string, pos: nat, k: nat)
    requires PairsPassed(line, pos, k)
    ensures var f := FindChar(line, '"', pos);
            if f.None? then |Split(line, '"')| == 2 * k + 1
            else Count(line[..f.value + 1], '"') == 2 * k + 1
  {
    var f := FindChar(line, '"', pos);
    if f.None? {
      CountRest(line, '"', pos);
    } else {
      CountExtend(line, '"', pos, f.value);
    }
  }

  /** After the opening quote of pair k + 1, either the line ends with 2k + 2 fields, or the next '"' closes that pair. */
  lemma ClosingQuote(line: string, beg: nat, k: nat)
    requires beg < |line| && line[beg] == '"' && Count(line[..beg + 1], '"') == 2 * k + 1
    ensures var f := FindChar(line, '"', beg + 1);
            if f.None? then |Split(line, '"')| == 2 * k + 2
            else PairsPassed(line, f.value + 1, k + 1) && QuoteOpens(line, beg, f.value + 1, k + 1)
  {
    var f := FindChar(line, '"', beg + 1);
    if f.None? {
      CountRest(line, '"', beg + 1);
    } else {
      CountExtend(line, '"', beg + 1, f.value);
    }
  }

  /** The stretch between the quotes at `beg` and `pos - 1` is the `k`-th quoted text. */
  lemma QuotedFieldFound(line: string, k: nat, beg: nat, pos: nat)
    requires QuoteOpens(line, beg, pos, k)
    ensures 2 * k < |Split(line, '"')|
    ensures Substr(line, beg + 1, Some(pos - beg - 2)) == Split(line, '"')[2 * k - 1]
    ensures '"' !in Split(line, '"')[2 * k - 1]
  {
    assert Substr(line, beg + 1, Some(pos - beg - 2)) == line[beg + 1..pos - 1];
    CountUpTo(line, '"', beg + 1, pos - 1);
    FieldAt(line, '"', beg + 1, pos - 1);
  }

  // ------------------------------------------------------------------ parsePath

  /** The `/`-separated field that parsePath(path, count) returns: field count + 1, cyclically. */
  function PathFieldIndex(path: string, count: int): (k: nat)
    ensures k < |Split(path, '/')|
  {
    (if count < 0 then 0 else count + 1) % |Split(path, '/')|
  }

  /** Arithmetic used to step the field counter of parsePath modulo the number of fields. */
  lemma MulStep(b: nat, n: nat)
    ensures (b + 1) * n == b * n + n
  {
  }

  lemma {:induction false} MulMono(a: nat, b: nat, n: nat)
    requires a <= b
    ensures a * n <= b * n
    decreases b - a
  {
    if a < b {
      MulMono(a + 1, b, n);
      MulStep(a, n);
    }
  }

  lemma ModUnique(x: nat, n: nat, q: nat, r: nat)
    requires n > 0 && r < n && x == q * n + r
    ensures x % n == r
  {
    var q' := x / n;
    var r' := x % n;
    assert x == q' * n + r';
    if q' < q {
      MulMono(q' + 1, q, n);
      MulStep(q', n);
    } else if q' > q {
      MulMono(q + 1, q', n);
      MulStep(q, n);
    }
  }

  lemma ModStep(j: nat, n: nat)
    requires n > 0
    ensures (j + 1) % n == if j % n == n - 1 then 0 else j % n + 1
  {
    var q := j / n;
    assert j == q * n + j % n;
    MulStep(q, n);
    if j % n == n - 1 {
      ModUnique(j + 1, n, q + 1, 0);
    } else {
      ModUnique(j + 1, n, q, j % n + 1);
    }
  }

  /**
   * parsePath(path, count): the `count`-th component of an absolute path, counting
   * from 0 (for /sys/devices/x/y/z, 0 gives sys and 4 gives z). The loop moves `beg`
   * past one more '/' for each of the count + 1 rounds; when no '/' is left,
   * npos + 1 wraps `beg` back to 0, so the field index cycles through the fields of
   * the path split at '/' (whose field 0 is the empty text before the leading '/').
   */
  method ParsePath(path: string, count: int) returns (r: string)
    ensures r == Split(path, '/')[PathFieldIndex(path, count)]
    ensures 0 <= count && count + 1 < |Split(path, '/')| ==> r == Split(path, '/')[count + 1]
    ensures path == "" ==> r == ""
    ensures '/' !in r
  {
    if path == "" {
      assert Split(path, '/') == [[]];
      assert PathFieldIndex(path, count) == 0 by {
        var x := if count < 0 then 0 else count + 1;
        ModUnique(x, 1, x, 0);
      }
      return path;
    }
    // Line 303-304 lower `end` when the path starts with '/'; `end` is reassigned
    // before it is read, so the step has no effect.
    var beg: nat := 0;
    var i := count;
    ghost var j: nat := 0;
    while i >= 0
      invariant FieldStart(path, beg, Rounds(|Split(path, '/')|, j))
      invariant i == count - j && (count < 0 ==> j == 0) && i >= (if count < 0 then count else -1)
    {
      AdvanceField(path, beg, j);
      var f := FindChar(path, '/', beg);
      beg := if f.None? then 0 else f.value + 1;   // npos + 1 == 0
      i := i - 1;
      j := j + 1;
    }
    var end := FindChar(path, '/', beg);
    // `end - beg` for end == npos (-1 as an int) is at least the rest of the path.
    r := Substr(path, beg, if end.None? then None else Some(end.value - beg));
    PathFieldFound(path, count, beg, j);
  }

  /** `b` starts field `t` of `s` split at '/': it is 0 or follows the `t`-th '/'. */
  predicate FieldStart(s: string, b: nat, t: nat) {
    b <= |s| && (b == 0 || s[b - 1] == '/') &&
    t < |Split(s, '/')| && Count(s[..b], '/') == t
  }

  /**
   * One round of the parsePath loop: from the start of field `t`, the next '/'
   * leads to the start of field t + 1; when there is none, npos + 1 == 0 leads back
   * to field 0, and t + 1 is then the number of fields.
   */
  lemma AdvanceField(s: string, b: nat, j: nat)
    requires FieldStart(s, b, Rounds(|Split(s, '/')|, j))
    ensures var f := FindChar(s, '/', b);
            FieldStart(s, if f.None? then 0 else f.value + 1, Rounds(|Split(s, '/')|, j + 1))
  {
    var f := FindChar(s, '/', b);
    if f.None? {
      CountRest(s, '/', b);
      assert s[..0] == [];
    } else {
      NextDelimiter(s, '/', b, f.value);
    }
  }

  /** After count + 1 rounds (none for a negative count) the final find and substr give the field parsePath promises. */
  lemma PathFieldFound(s: string, count: int, b: nat, j: nat)
    requires j == (if count < 0 then 0 else count + 1)
    requires FieldStart(s, b, Rounds(|Split(s, '/')|, j))
    ensures var e := FindChar(s, '/', b);
            var r := Substr(s, b, if e.None? then None else Some(e.value - b));
            r == Split(s, '/')[PathFieldIndex(s, count)] &&
            (0 <= count && count + 1 < |Split(s, '/')| ==> r == Split(s, '/')[count + 1]) &&
            '/' !in r
  {
    var n := |Split(s, '/')|;
    FieldFromStart(s, b, Rounds(n, j));
    RoundsMod(n, j);
    if 0 <= count && count + 1 < n {
      ModUnique(count + 1, n, 0, count + 1);
    }
  }

  /** The field reached after `j` rounds of a counter that wraps from n - 1 back to 0. */
  function Rounds(n: nat, j: nat): (t: nat)
    requires n > 0
    ensures t < n
  {
    if j == 0 then 0
    else if Rounds(n, j - 1) == n - 1 then 0
    else Rounds(n, j - 1) + 1
  }

  /** The wrapping counter is the remainder of the number of rounds. */
  lemma {:induction false} RoundsMod(n: nat, j: nat)
    requires n > 0
    ensures Rounds(n, j) == j % n
  {
    if j > 0 {
      RoundsMod(n, j - 1);
      ModStep(j - 1, n);
    }
  }

  /** From the start of field `t`, parsePath's final find and substr give that field. */
  lemma FieldFromStart(s: string, b: nat, t: nat)
    requires FieldStart(s, b, t)
    ensures var e := FindChar(s, '/', b);
            var r := Substr(s, b, if e.None? then None else Some(e.value - b));
            r == Split(s, '/')[t] && '/' !in r
  {
    var e := FindChar(s, '/', b);
    FieldAt(s, '/', b, if e.None? then |s| else e.value);
    SplitFieldsLackDelimiter(s, '/');
  }

  /** Passing the next delimiter at `f` moves on to the next field, which exists. */
  lemma NextDelimiter(s: string, c: char, b: nat, f: nat)
    requires b <= f < |s| && s[f] == c && c !in s[b..f]
    ensures Count(s[..f + 1], c) == Count(s[..b], c) + 1
    ensures Count(s[..f + 1], c) < |Split(s, c)|
  {
    CountExtend(s, c, b, f);
    CountAppend(s[..f + 1], s[f + 1..], c);
    assert s[..f + 1] + s[f + 1..] == s;
  }

  /**
   * The fields of /sys/devices/x/y/z: counts 0, 1, 2 and 4 select sys, devices, x
   * and z, and count 5, one past the last component, wraps around to the empty
   * field before the leading '/'.
   */
  lemma ParsePathExample()
    ensures var p := "/sys/devices/x/y/z";
            var fields := Split(p, '/');
            fields == ["", "sys", "devices", "x", "y", "z"] &&
            fields[PathFieldIndex(p, 0)] == "sys" && fields[PathFieldIndex(p, 1)] == "devices" &&
            fields[PathFieldIndex(p, 2)] == "x" && fields[PathFieldIndex(p, 4)] == "z" &&
            fields[PathFieldIndex(p, 5)] == ""
  {
    var p1: seq<string> := [""];
    var p2 := p1 + ["sys"];
    var p3 := p2 + ["devices"];
    var p4 := p3 + ["x"];
    var p5 := p4 + ["y"];
    var ps := p5 + ["z"];
    JoinSnoc(p1, "sys", '/');
    JoinSnoc(p2, "devices", '/');
    JoinSnoc(p3, "x", '/');
    JoinSnoc(p4, "y", '/');
    JoinSnoc(p5, "z", '/');
    assert ps == ["", "sys", "devices", "x", "y", "z"];
    assert Join(ps, '/') == "/sys/devices/x/y/z";
    SplitJoin(ps, '/');
  }

  // -------------------------------------------------------------------- dropDir

  /**
   * The largest index below `hi`, other than 0, that holds '/', or 0 when there is
   * none: where a dropDir loop that starts above `hi` and walks down stops.
   */
  function LastSlashBefore(s: string, hi: nat): (i: nat)
    requires hi <= |s|
    ensures i == 0 || (i < hi && s[i] == '/')
    ensures forall k :: i < k < hi ==> s[k] != '/'
    decreases hi
  {
    if hi <= 1 then 0 else if s[hi - 1] == '/' then hi - 1 else LastSlashBefore(s, hi - 1)
  }

  /** Where the second dropDir loop stops on a path `s`: the last '/' in s[1..|s| - 1], or 0. */
  function Anchor(s: string): nat
    requires |s| >= 1
  {
    LastSlashBefore(s, |s| - 1)
  }

  /** The C string that dropDir(char*) leaves: the path up to and including the anchor. */
  function DroppedC(s: string): string
  {
    if |s| <= 1 then [] else s[..Anchor(s) + 1]
  }

  /** The string that dropDir(string&) leaves: the path up to the anchor. */
  function DroppedS(s: string): string
  {
    if |s| <= 1 then [] else s[..Anchor(s)]
  }

  /**
   * The two loops that both dropDir overloads run on a buffer holding a C string of
   * length `len`; `i` is the loop index after the second loop.
   */
  method EraseLastEntry(p: array<char>, len: nat) returns (i: nat, ret: int)
    requires 0 < len < p.Length && p[len] == NUL
    modifies p
    ensures ret == 1
    ensures i == Anchor(old(p[..len]))
    ensures var kept := |DroppedC(old(p[..len]))|;
            p[..] == old(p[..])[..kept] + Nuls(len + 1 - kept) + old(p[..])[len + 1..]
  {
    ghost var a0 := p[..];
    ghost var s := p[..len];
    ghost var i1 := LastSlashBefore(s, len);
    ghost var i2 := LastSlashBefore(s, len - 1);
    ret := 0;
    // walk back over the last component, clearing it
    i := len;
    while i > 0 && p[i] != '/'
      invariant i1 <= i <= len
      invariant forall k :: 0 <= k < p.Length ==> p[k] == (if i < k <= len then NUL else a0[k])
      decreases i
    {
      p[i] := NUL;
      i := i - 1;
    }
    assert i == i1;
    // clear the character before the old terminator
    p[len - 1] := NUL;
    ghost var mid := p[..];
    assert i2 <= i1;
    i := len;
    while i > 0 && p[i] != '/'
      invariant i2 <= i <= len
      invariant i < len ==> ret == 1
      invariant forall k :: 0 <= k < p.Length ==> p[k] == (if i < k <= len then NUL else mid[k])
      decreases i
    {
      p[i] := NUL;
      i := i - 1;
      ret := 1;
    }
    assert i == i2;
    ghost var kept := |DroppedC(s)|;
    assert kept == if len == 1 then 0 else i2 + 1;
    assert forall k :: 0 <= k < p.Length ==> p[k] == (if kept <= k <= len then NUL else a0[k]);
    NulsBetween(a0, p[..], kept, len);
  }

  /** A buffer that differs from `a` only by NULs at indices `lo` to `hi`. */
  lemma NulsBetween(a: seq<char>, b: seq<char>, lo: nat, hi: nat)
    requires lo <= hi < |a| == |b|
    requires forall k :: 0 <= k < |b| ==> b[k] == (if lo <= k <= hi then NUL else a[k])
    ensures b == a[..lo] + Nuls(hi + 1 - lo) + a[hi + 1..]
  {
  }

  /**
   * dropDir(char*): on an empty C string, 0 and nothing changes. Otherwise 1, and the
   * bytes after what DroppedC keeps, up to the terminator, become NUL.
   */
  method DropDir(filePath: array<char>) returns (ret: int)
    requires NUL in filePath[..]
    modifies filePath
    ensures var s := CStr(old(filePath[..]));
            var kept := |DroppedC(s)|;
            if s == [] then ret == 0 && filePath[..] == old(filePath[..])
            else ret == 1 &&
                 filePath[..] == old(filePath[..])[..kept] + Nuls(|s| + 1 - kept) + old(filePath[..])[|s| + 1..]
    ensures NUL in filePath[..] && CStr(filePath[..]) == DroppedC(CStr(old(filePath[..])))
  {
    var len := StrLen(filePath[..]);
    if len <= 0 {
      return 0;
    }
    ghost var s := filePath[..len];
    assert s == CStr(filePath[..]);
    ghost var after := filePath[len + 1..];
    var i;
    i, ret := EraseLastEntry(filePath, len);
    ghost var kept := |DroppedC(s)|;
    assert filePath[..] == s[..kept] + [NUL] + (Nuls(len - kept) + after);
    CStrTerminated(s[..kept], Nuls(len - kept) + after);
  }

  /**
   * dropDir(string&): the same loops on a strdup copy, then one more NUL at the
   * loop index, which also removes the separating '/'. The string becomes the copy
   * read back as a C string.
   */
  method DropDirString(path: string) returns (ret: int, newPath: string)
    requires NUL !in path
    ensures ret == (if path == [] then 0 else 1)
    ensures newPath == DroppedS(path)
    ensures path != [] ==> |newPath| < |path| && newPath == path[..|newPath|]
  {
    var len := |path|;
    if len <= 0 {
      return 0, path;
    }
    var p := new char[len + 1](k => if 0 <= k < len then path[k] else NUL);
    assert p[..len] == path;
    var i;
    i, ret := EraseLastEntry(p, len);
    p[i] := NUL;
    ghost var kept := |DroppedS(path)|;
    assert p[..] == path[..kept] + [NUL] + Nuls(len - kept);
    CStrTerminated(path[..kept], Nuls(len - kept));
    newPath := CStr(p[..]);
  }

  /**
   * dropDir leaves a strict prefix of a non-empty path: bytes are only ever
   * overwritten with NUL from the end. The char* overload keeps one character more
   * than the string& overload: the separating '/' (or, on a path whose only '/' is
   * the first character or that has none, the first character).
   */
  lemma DropDirPrefixes(s: string)
    requires s != []
    ensures |DroppedC(s)| < |s| && DroppedC(s) == s[..|DroppedC(s)|]
    ensures |DroppedS(s)| < |s| && DroppedS(s) == s[..|DroppedS(s)|]
    ensures |s| >= 2 ==> DroppedC(s) == DroppedS(s) + [s[|DroppedS(s)|]]
    ensures |s| >= 2 && |DroppedS(s)| > 0 ==> s[|DroppedS(s)|] == '/'
  {
  }

  /** /a/b/c and /a/b/c/ both become /a/b through the string& overload; /a/b/c becomes /a/b/ through char*. */
  lemma DropDirExamples()
    ensures DroppedS("/a/b/c") == "/a/b" && DroppedS("/a/b/c/") == "/a/b"
    ensures DroppedC("/a/b/c") == "/a/b/" && DroppedC("/a/b/c/") == "/a/b/"
    ensures DroppedS("abc") == "" && DroppedC("abc") == "a"
  {
    assert Anchor("/a/b/c") == 4;
    assert LastSlashBefore("/a/b/c/", 5) == 4;
    assert Anchor("/a/b/c/") == 4;
    assert "/a/b/c"[..4] == "/a/b" && "/a/b/c/"[..4] == "/a/b";
  }

  /** Only the characters below `h` decide where the walk down from `h` stops. */
  lemma {:induction false} LastSlashBeforePrefix(s: string, t: string, h: nat)
    requires h <= |s|
    ensures LastSlashBefore(s + t, h) == LastSlashBefore(s, h)
    decreases h
  {
    if h > 1 {
      assert (s + t)[h - 1] == s[h - 1];
      LastSlashBeforePrefix(s, t, h - 1);
    }
  }

  /** A trailing '/' after a path that does not end in '/' makes no difference to dropDir(string&). */
  lemma DropDirIgnoresTrailingSlash(s: string)
    requires s != [] && s[|s| - 1] != '/'
    ensures DroppedS(s + "/") == DroppedS(s)
  {
    var n := |s|;
    var s' := s + "/";
    assert s'[..n] == s;
    if n >= 2 {
      assert s'[n - 1] == s[n - 1];
      LastSlashBeforePrefix(s, "/", n - 1);
      assert Anchor(s') == LastSlashBefore(s', n - 1);
    }
  }

  /**
   * On a path that does not end in '/', dropDir(string&) removes the last
   * '/'-separated component and its separator: what is left is the other
   * components joined again.
   */
  lemma DropDirRemovesLastComponent(s: string)
    requires s != [] && s[|s| - 1] != '/'
    ensures var fields := Split(s, '/');
            DroppedS(s) == Join(fields[..|fields| - 1], '/')
  {
    var n := |s|;
    var fields := Split(s, '/');
    var a := if n >= 2 then Anchor(s) else 0;
    if s[a] == '/' {
      var head, tail := s[..a], s[a + 1..];
      assert '/' !in tail;
      assert fields == Split(head, '/') + [tail] by {
        assert s == head + ['/'] + tail;
        SplitDelimited(head, tail, '/');
        SplitWithout(tail, '/');
      }
      assert fields[..|fields| - 1] == Split(head, '/');
      assert DroppedS(s) == head;
      JoinSplit(head, '/');
    } else {
      assert '/' !in s;
      SplitWithout(s, '/');
    }
  }

  // ------------------------------------------------------------------- str2chr

  /** str2chr(str1, s): a fresh array of |s| + 1 characters, `s` followed by NUL. */
  method Str2Chr(s: string) returns (str1: array<char>)
    ensures fresh(str1)
    ensures str1.Length == |s| + 1 && str1[..|s|] == s && str1[|s|] == NUL
    ensures NUL !in s ==> NUL in str1[..] && CStr(str1[..]) == s
  {
    str1 := new char[|s| + 1];
    var i := 0;
    while i < |s|
      invariant 0 <= i <= |s|
      invariant str1[..i] == s[..i]
    {
      str1[i] := s[i];
      i := i + 1;
    }
    str1[i] := NUL;
    if NUL !in s {
      assert str1[..] == s + [NUL] + [];
      CStrTerminated(s, []);
    }
  }

  // ---------------------------------------------------------------- fs_fixPath

  /** The path that fs_fixPath(char*) returns: one trailing '/' removed. */
  function TrimTrailingSlash(s: string): string
  {
    if |s| > 0 && s[|s| - 1] == '/' then s[..|s| - 1] else s
  }

  /**
   * At most one trailing '/' goes: the result is `s` or `s` without its last
   * character, it ends in '/' only if `s` ended in "//", and "//" becomes "/".
   */
  lemma TrimTrailingSlashRemovesOne(s: string)
    ensures var t := TrimTrailingSlash(s);
            t == s[..|t|] && |s| - 1 <= |t| <= |s| &&
            (|t| < |s| <==> |s| > 0 && s[|s| - 1] == '/') &&
            (|t| > 0 && t[|t| - 1] == '/' ==> |s| >= 2 && s[|s| - 2..] == "//")
    ensures TrimTrailingSlash("//") == "/"
  {
  }

  /**
   * fs_fixPath(char*): NULL gives NULL; otherwise a fresh strdup copy whose last
   * character is overwritten with NUL when it is '/'. The input is only read.
   */
  method FsFixPathC(pathIn: array?<char>) returns (path: array?<char>)
    requires pathIn != null ==> NUL in pathIn[..] && StrLen(pathIn[..]) > 0
    ensures pathIn == null ==> path == null
    ensures pathIn != null ==> path != null && fresh(path)
    ensures pathIn != null ==>
              var s := CStr(pathIn[..]);
              path.Length == |s| + 1 && path[..|s| - 1] == s[..|s| - 1] && path[|s|] == NUL &&
              path[|s| - 1] == (if s[|s| - 1] == '/' then NUL else s[|s| - 1]) &&
              NUL in path[..] && CStr(path[..]) == TrimTrailingSlash(s)
  {
    if pathIn == null {
      return null;
    }
    var len := StrLen(pathIn[..]);
    ghost var s := pathIn[..len];
    path := new char[len + 1](k reads pathIn => if 0 <= k < len then pathIn[k] else NUL);
    assert path[..] == s + [NUL];
    if path[len - 1] == '/' {
      path[len - 1] := NUL;
      assert path[..] == s[..len - 1] + [NUL] + [NUL];
      CStrTerminated(s[..len - 1], [NUL]);
    } else {
      assert path[..] == s + [NUL] + [];
      CStrTerminated(s, []);
    }
  }

  /** Some character of `s` is not NUL. */
  predicate HasNonNul(s: string) {
    exists m :: 0 <= m < |s| && s[m] != NUL
  }

  /** The index of the last character of `s` that is not NUL. */
  function LastNonNul(s: string): (k: nat)
    requires HasNonNul(s)
    ensures k < |s| && s[k] != NUL && forall m :: k < m < |s| ==> s[m] == NUL
  {
    if s[|s| - 1] != NUL then |s| - 1
    else
      var m :| 0 <= m < |s| && s[m] != NUL;
      assert s[..|s| - 1][m] != NUL;
      LastNonNul(s[..|s| - 1])
  }

  /** The string that fs_fixPath(string&) leaves: its last non-NUL '/' becomes NUL. */
  function NulTrailingSlash(s: string): string
    requires HasNonNul(s)
  {
    var k := LastNonNul(s);
    if s[k] == '/' then s[k := NUL] else s
  }

  /**
   * std::string::operator[] of a non-const string& such as fs_fixPath's: since C++11,
   * index |s| is valid and reads NUL.
   */
  function At(s: string, i: nat): (r: char)
    requires i <= |s|
    ensures r == (s + [NUL])[i]
  {
    if i < |s| then s[i] else NUL
  }

  /**
   * fs_fixPath(string&): walk down from index |str| past NULs to the last other
   * character and overwrite it with NUL when it is '/'. The length is kept and no
   * other character changes.
   */
  method FsFixPathString(str: string) returns (fixed: string)
    requires HasNonNul(str)
    ensures |fixed| == |str|
    ensures var k := LastNonNul(str);
            fixed[k] == (if str[k] == '/' then NUL else str[k]) &&
            forall m :: 0 <= m < |str| && m != k ==> fixed[m] == str[m]
    ensures fixed == NulTrailingSlash(str)
  {
    var i := |str|;
    ghost var k := LastNonNul(str);
    while At(str, i) == NUL
      invariant k <= i <= |str|
      decreases i
    {
      i := i - 1;
    }
    assert i == k;
    fixed := str;
    if str[i] == '/' {
      fixed := fixed[i := NUL];
    }
  }

  /**
   * On a non-empty string without NUL the two overloads agree: the string& one,
   * read back as a C string, gives what the char* one returns.
   */
  lemma FixPathOverloadsAgree(s: string)
    requires s != [] && NUL !in s
    ensures HasNonNul(s) && NUL in NulTrailingSlash(s) + [NUL]
    ensures CStr(NulTrailingSlash(s) + [NUL]) == TrimTrailingSlash(s)
  {
    var n := |s| - 1;
    assert s[n] != NUL;
    assert LastNonNul(s) == n;
    if s[n] == '/' {
      assert NulTrailingSlash(s) + [NUL] == s[..n] + [NUL] + [NUL];
      CStrTerminated(s[..n], [NUL]);
    } else {
      assert NulTrailingSlash(s) + [NUL] == s + [NUL] + [];
      CStrTerminated(s, []);
    }
  }

  // ------------------------------------------------------- countChar, contains

  /** countChar(str, c): the number of characters of `str` equal to `c`. */
  method CountChar(str: string, c: char) returns (ret: int)
    ensures ret == Count(str, c)
    ensures 0 <= ret <= |str|
  {
    ret := 0;
    var i := 0;
    while i < |str|
      invariant 0 <= i <= |str|
      invariant ret == Count(str[..i], c)
    {
      assert str[..i + 1][..i] == str[..i];
      if str[i] == c {
        ret := ret + 1;
      }
      i := i + 1;
    }
    assert str[..i] == str;
  }

  /**
   * What countChar's result means, collected from Fields for it: the count is the
   * number of indices holding `c` (CountIsIndexCount), is at most the length, and adds
   * up over concatenation (CountAppend).
   */
  lemma CountCharProperties(a: string, b: string, c: char)
    ensures Count(a, c) == |set i | 0 <= i < |a| && a[i] == c|
    ensures 0 <= Count(a, c) <= |a|
    ensures Count(a + b, c) == Count(a, c) + Count(b, c)
  {
    CountIsIndexCount(a, c);
    CountAppend(a, b, c);
  }

  /**
   * contains(vec, val): some item's value equals `val`. A DataItem is represented
   * by the string its getValue() returns.
   */
  method Contains(vec: seq<string>, val: string) returns (found: bool)
    ensures found <==> exists k :: 0 <= k < |vec| && vec[k] == val
    ensures vec == [] ==> !found
  {
    var i := 0;
    while i < |vec|
      invariant 0 <= i <= |vec|
      invariant forall k :: 0 <= k < i ==> vec[k] != val
    {
      if vec[i] == val {
        return true;
      }
      i := i + 1;
    }
    return false;
  }
}
