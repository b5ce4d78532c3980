/** An optional value; `None` also stands for std::string::npos. */
module Wrappers {
  datatype Option<T> = None | Some(value: T)
}

/**
 * The parts of the C and C++ libraries that the helpers call: std::string::find,
 * std::string::substr and the NUL-terminated C strings that strlen, strdup and
 * c_str deal in. Strings are sequences of characters; a position result of
 * `None` is std::string::npos.
 */
module StdString {
  import opened Wrappers

  /** The character that terminates a C string. */
  const NUL: char := '\0'

  /** std::string::find(c, from): the first index at or after `from` that holds `c`. */
  function FindChar(s: string, c: char, from: nat): (r: Option<nat>)
    ensures r.Some? ==> from <= r.value < |s| && s[r.value] == c
    ensures r.Some? ==> forall i :: from <= i < r.value ==> s[i] != c
    ensures r.None? ==> forall i :: from <= i < |s| ==> s[i] != c
    decreases |s| - from
  {
    if from >= |s| then None
    else if s[from] == c then Some(from)
    else FindChar(s, c, from + 1)
  }

  /** `t` occurs in `s` starting at index `i`. */
  predicate OccursAt(t: string, s: string, i: nat) {
    i + |t| <= |s| && s[i..i + |t|] == t
  }

  /** `t` occurs in `s` as a contiguous piece. */
  ghost predicate Occurs(t: string, s: string) {
    exists i: nat :: OccursAt(t, s, i)
  }

  /** std::string::find(t, from): the first index at or after `from` where `t` occurs. */
  function Find(s: string, t: string, from: nat): (r: Option<nat>)
    ensures r.Some? ==> from <= r.value && OccursAt(t, s, r.value)
    ensures r.Some? ==> forall i: nat :: from <= i < r.value ==> !OccursAt(t, s, i)
    ensures r.None? ==> forall i: nat :: from <= i ==> !OccursAt(t, s, i)
    decreases |s| - from
  {
    if from + |t| > |s| then None
    else if OccursAt(t, s, from) then Some(from)
    else Find(s, t, from + 1)
  }

  /** Searching from the start finds `t` exactly when `t` occurs in `s`. */
  lemma FindFromStart(s: string, t: string)
    ensures Find(s, t, 0).Some? <==> Occurs(t, s)
  {
    var r := Find(s, t, 0);
    if r.Some? {
      assert OccursAt(t, s, r.value);
    }
  }

  /**
   * std::string::substr(pos, len): the piece of at most `len` characters starting at
   * `pos`, where a `len` of npos means "to the end". The library throws
   * std::out_of_range when `pos` is past the end; here that is the precondition.
   */
  function Substr(s: string, pos: nat, len: Option<nat>): (r: string)
    requires pos <= |s|
    ensures |r| == (if len.Some? && len.value < |s| - pos then len.value else |s| - pos)
    ensures r == s[pos..pos + |r|]
  {
    if len.None? || pos + len.value >= |s| then s[pos..] else s[pos..pos + len.value]
  }

  /** strlen: the index of the first NUL. */
  function StrLen(s: seq<char>): (n: nat)
    requires NUL in s
    ensures n < |s| && s[n] == NUL && NUL !in s[..n]
  {
    if s[0] == NUL then 0 else 1 + StrLen(s[1..])
  }

  /** The C string held in a buffer: everything before the first NUL. */
  function CStr(s: seq<char>): (r: string)
    requires NUL in s
    ensures |r| < |s| && NUL !in r && r + [NUL] == s[..|r| + 1]
  {
    s[..StrLen(s)]
  }

  /** A string without NUL, followed by a terminator, reads back as itself. */
  lemma {:induction false} CStrTerminated(s: string, rest: seq<char>)
    requires NUL !in s
    ensures NUL in s + [NUL] + rest && StrLen(s + [NUL] + rest) == |s|
    ensures CStr(s + [NUL] + rest) == s
  {
    var b := s + [NUL] + rest;
    assert b[|s|] == NUL;
    if s != [] {
      assert b[1..] == s[1..] + [NUL] + rest;
      CStrTerminated(s[1..], rest);
    }
  }

  /** `n` NUL characters. */
  function Nuls(n: nat): (r: seq<char>)
    ensures |r| == n && forall i :: 0 <= i < n ==> r[i] == NUL
  {
    seq(n, _ => NUL)
  }
}
