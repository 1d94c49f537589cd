/**
 * The part of JavaScript's string semantics the task list relies on:
 * `String.prototype.trim` and the "undefined or blank" test that guards
 * every submission.
 */
module JsString {
  import opened Wrappers

  /**
   * The characters `trim` strips: ECMAScript's WhiteSpace production
   * (tab, vertical tab, form feed, space, no-break space, byte order mark
   * and the Unicode space separators) and its LineTerminator production
   * (line feed, carriage return, line and paragraph separators).
   */
  predicate IsWhitespace(c: char) {
    var n := c as int;
    n == 0x09 || n == 0x0A || n == 0x0B || n == 0x0C || n == 0x0D ||
    n == 0x20 || n == 0xA0 || n == 0x1680 ||
    (0x2000 <= n <= 0x200A) ||
    n == 0x2028 || n == 0x2029 || n == 0x202F || n == 0x205F ||
    n == 0x3000 || n == 0xFEFF
  }

  /** Every character of `s` is one that `trim` strips. */
  predicate AllWhitespace(s: string) {
    s == [] || (IsWhitespace(s[0]) && AllWhitespace(s[1..]))
  }

  /** `s` without its leading whitespace. */
  function TrimStart(s: string): (r: string)
    ensures |r| <= |s| && r == s[|s| - |r|..]
    ensures AllWhitespace(s[..|s| - |r|])
    ensures r == [] || !IsWhitespace(r[0])
  {
    if s != [] && IsWhitespace(s[0]) then
      var r := TrimStart(s[1..]);
      TrimStartStep(s, r);
      r
    else s
  }

  /** `s` without its trailing whitespace. */
  function TrimEnd(s: string): (r: string)
    ensures |r| <= |s| && r == s[..|r|]
    ensures AllWhitespace(s[|r|..])
    ensures r == [] || !IsWhitespace(r[|r| - 1])
  {
    if s != [] && IsWhitespace(s[|s| - 1]) then
      var r := TrimEnd(s[..|s| - 1]);
      TrimEndStep(s, r);
      r
    else s
  }

  /**
   * `s.trim()`: empty exactly when `s` is all whitespace, and otherwise
   * beginning and ending with a character `trim` keeps. `TrimIsSlice`
   * shows it is the part of `s` between the two stripped runs.
   */
  function Trim(s: string): (r: string)
    ensures |r| <= |s|
    ensures r == [] <==> AllWhitespace(s)
    ensures r == [] || (!IsWhitespace(r[0]) && !IsWhitespace(r[|r| - 1]))
  {
    var t := TrimStart(s);
    AllWhitespaceSplit(s, |s| - |t|);
    var r := TrimEnd(t);
    AllWhitespaceSplit(t, |r|);
    assert r == [] ==> t[|r|..] == t;
    assert r != [] ==> r[0] == t[0] && r[|r| - 1] == t[|r| - 1];
    r
  }

  /**
   * `s.trim()` is the slice of `s` that starts after the leading whitespace
   * run and is followed only by whitespace.
   */
  lemma TrimIsSlice(s: string)
    ensures StrippedAround(s, |s| - |TrimStart(s)|, Trim(s))
  {
    var t := TrimStart(s);
    var r := TrimEnd(t);
    TrimIsTrimEndOfTrimStart(s);
    PrefixOfSuffix(s, t, r);
  }

  /** `r` sits at offset `a` of `s`, with only whitespace before and after it. */
  predicate StrippedAround(s: string, a: int, r: string) {
    0 <= a && a + |r| <= |s| && r == s[a..a + |r|] &&
    AllWhitespace(s[..a]) && AllWhitespace(s[a + |r|..])
  }

  /** `trim` strips the end of what stripping the start leaves. */
  lemma TrimIsTrimEndOfTrimStart(s: string)
    ensures Trim(s) == TrimEnd(TrimStart(s))
  {
  }

  /** A prefix `r` of a suffix `t` of `s`, each cut off from whitespace only, is `s` stripped around `r`. */
  lemma PrefixOfSuffix(s: string, t: string, r: string)
    requires |t| <= |s| && t == s[|s| - |t|..] && AllWhitespace(s[..|s| - |t|])
    requires |r| <= |t| && r == t[..|r|] && AllWhitespace(t[|r|..])
    ensures StrippedAround(s, |s| - |t|, r)
  {
    assert t[|r|..] == s[|s| - |t| + |r|..];
  }

  /** What `TrimStart` keeps of `s[1..]` is what it keeps of `s` when `s[0]` is whitespace. */
  lemma TrimStartStep(s: string, r: string)
    requires s != [] && IsWhitespace(s[0])
    requires |r| < |s| && r == s[1..][|s| - 1 - |r|..]
    requires AllWhitespace(s[1..][..|s| - 1 - |r|])
    ensures r == s[|s| - |r|..] && AllWhitespace(s[..|s| - |r|])
  {
    var n := |s| - |r|;
    assert s[1..][n - 1..] == s[n..];
    assert s[..n][1..] == s[1..][..n - 1];
  }

  /** What `TrimEnd` keeps of `s[..|s| - 1]` is what it keeps of `s` when its last character is whitespace. */
  lemma TrimEndStep(s: string, r: string)
    requires s != [] && IsWhitespace(s[|s| - 1])
    requires |r| < |s| && r == s[..|s| - 1][..|r|]
    requires AllWhitespace(s[..|s| - 1][|r|..])
    ensures r == s[..|r|] && AllWhitespace(s[|r|..])
  {
    var k := |r|;
    var rest := s[k..];
    var m := |rest| - 1;
    AllWhitespaceSplit(rest, m);
    assert rest[..m] == s[..|s| - 1][k..];
    assert rest[m..] == [s[|s| - 1]];
    assert [s[|s| - 1]][1..] == [];
  }

  /** A string is all whitespace exactly when both parts of any split are. */
  lemma {:induction false} AllWhitespaceSplit(s: string, k: nat)
    requires k <= |s|
    ensures AllWhitespace(s) <==> AllWhitespace(s[..k]) && AllWhitespace(s[k..])
  {
    if k == 0 {
      assert s[..0] == [] && s[0..] == s;
    } else {
      AllWhitespaceSplit(s[1..], k - 1);
      assert s[..k][1..] == s[1..][..k - 1];
      assert s[1..][k - 1..] == s[k..];
    }
  }

  /**
   * The guard `x === undefined || x.trim() === ''` that every submission
   * checks: the value is absent or consists of whitespace only.
   */
  predicate IsBlank(x: Option<string>) {
    x.None? || AllWhitespace(x.value)
  }

  /** `IsBlank` is exactly the guard as the code writes it, through `trim`. */
  lemma IsBlankIsTrimGuard(x: Option<string>)
    ensures IsBlank(x) <==> x.None? || Trim(x.value) == ""
  {
  }
}
