/** The three string operations the refresh strategy applies to the
    Authorization header, with ECMAScript's meaning. */
module JsString {
  import opened Common

  /** ECMAScript's WhiteSpace and LineTerminator code points, which
      `String.prototype.trim` removes. */
  predicate IsJsWhitespace(c: char) {
    var n := c as int;
    || n == 0x0009 || n == 0x000B || n == 0x000C || n == 0x0020 || n == 0x00A0 || n == 0xFEFF
    || n == 0x000A || n == 0x000D || n == 0x2028 || n == 0x2029
    || n == 0x1680 || (0x2000 <= n <= 0x200A) || n == 0x202F || n == 0x205F || n == 0x3000
  }

  /** No whitespace at either end. */
  predicate IsTrimmed(s: string) {
    s == [] || (!IsJsWhitespace(s[0]) && !IsJsWhitespace(s[|s| - 1]))
  }

  /** The string without its leading whitespace: a suffix of `s`, everything
      dropped is whitespace, and what is kept does not start with whitespace. */
  function TrimStart(s: string): (r: string)
    ensures |r| <= |s| && r == s[|s| - |r|..]
    ensures forall i :: 0 <= i < |s| - |r| ==> IsJsWhitespace(s[i])
    ensures r != [] ==> !IsJsWhitespace(r[0])
  {
    if s != [] && IsJsWhitespace(s[0]) then TrimStart(s[1..]) else s
  }

  /** The string without its trailing whitespace: a prefix of `s`, everything
      dropped is whitespace, and what is kept does not end with whitespace. */
  function TrimEnd(s: string): (r: string)
    ensures |r| <= |s| && r == s[..|r|]
    ensures forall i :: |r| <= i < |s| ==> IsJsWhitespace(s[i])
    ensures r != [] ==> !IsJsWhitespace(r[|r| - 1])
  {
    if s != [] && IsJsWhitespace(s[|s| - 1]) then TrimEnd(s[..|s| - 1]) else s
  }

  /** `r` sits in `s` at offset `i` and everything around it is whitespace. */
  predicate InfixAmidWhitespace(s: string, r: string, i: int) {
    && 0 <= i <= |s| - |r| && r == s[i..i + |r|]
    && (forall k :: 0 <= k < i ==> IsJsWhitespace(s[k]))
    && (forall k :: i + |r| <= k < |s| ==> IsJsWhitespace(s[k]))
  }

  /** Trimming the end of a string that does not start with whitespace
      leaves a string with no whitespace at either end. */
  lemma TrimEndKeepsStart(t: string)
    requires t == [] || !IsJsWhitespace(t[0])
    ensures IsTrimmed(TrimEnd(t))
  {
    var r := TrimEnd(t);
    if r != [] {
      assert r[0] == t[0];
    }
  }

  /** A prefix of a suffix of `s` is the slice of `s` between them. */
  lemma PrefixOfSuffix(s: string, t: string, r: string)
    requires |t| <= |s| && t == s[|s| - |t|..]
    requires |r| <= |t| && r == t[..|r|]
    ensures r == s[|s| - |t|..|s| - |t| + |r|]
  {
  }

  /** Whitespace after the prefix `r` of the suffix `t` of `s` is
      whitespace of `s` after `r`'s last character. */
  lemma TrailingWhitespace(s: string, t: string, r: string)
    requires |t| <= |s| && t == s[|s| - |t|..] && |r| <= |t|
    requires forall k :: |r| <= k < |t| ==> IsJsWhitespace(t[k])
    ensures forall k :: |s| - |t| + |r| <= k < |s| ==> IsJsWhitespace(s[k])
  {
    var i := |s| - |t|;
    forall k | i + |r| <= k < |s| ensures IsJsWhitespace(s[k]) {
      assert s[k] == t[k - i];
    }
  }

  /** Dropping leading and then trailing whitespace leaves an infix of the
      original surrounded by whitespace only. */
  lemma TrimStartEndInfix(s: string, t: string, r: string)
    requires t == TrimStart(s) && r == TrimEnd(t)
    ensures InfixAmidWhitespace(s, r, |s| - |t|)
  {
    PrefixOfSuffix(s, t, r);
    TrailingWhitespace(s, t, r);
  }

  /** `String.prototype.trim`: the longest infix with no whitespace at
      either end, obtained by dropping only whitespace. */
  function Trim(s: string): (r: string)
    ensures IsTrimmed(r)
    ensures exists i :: InfixAmidWhitespace(s, r, i)
  {
    var t := TrimStart(s);
    TrimEndKeepsStart(t);
    TrimStartEndInfix(s, t, TrimEnd(t));
    TrimEnd(t)
  }

  /** A string with nothing to trim is its own trim. */
  lemma {:induction false} TrimOfTrimmed(s: string)
    requires IsTrimmed(s)
    ensures Trim(s) == s
  {
    assert TrimStart(s) == s;
    assert TrimEnd(s) == s;
  }

  /** Trimming is idempotent. */
  lemma TrimIdempotent(s: string)
    ensures Trim(Trim(s)) == Trim(s)
  {
    TrimOfTrimmed(Trim(s));
  }

  predicate OccursAt(s: string, pattern: string, i: int) {
    0 <= i && i + |pattern| <= |s| && s[i..i + |pattern|] == pattern
  }

  /** `String.prototype.indexOf`: the first position where the pattern
      occurs, or none. */
  function IndexOf(s: string, pattern: string): (r: Option<nat>)
    ensures r.Some? ==> OccursAt(s, pattern, r.value) && forall j :: 0 <= j < r.value ==> !OccursAt(s, pattern, j)
    ensures r.None? ==> forall j :: 0 <= j <= |s| ==> !OccursAt(s, pattern, j)
    decreases |s|
  {
    if |pattern| > |s| then None
    else if s[..|pattern|] == pattern then Some(0)
    else
      var rest := IndexOf(s[1..], pattern);
      assert !OccursAt(s, pattern, 0);
      assert forall j :: 1 <= j <= |s| ==> (OccursAt(s, pattern, j) <==> OccursAt(s[1..], pattern, j - 1)) by {
        forall j | 1 <= j <= |s| ensures OccursAt(s, pattern, j) <==> OccursAt(s[1..], pattern, j - 1) {
          OccursAtTail(s, pattern, j);
        }
      }
      if rest.None? then None else Some(rest.value + 1)
  }

  /** An occurrence past the first character is an occurrence in the tail,
      one position earlier. */
  lemma OccursAtTail(s: string, pattern: string, j: int)
    requires 1 <= j <= |s|
    ensures OccursAt(s, pattern, j) <==> OccursAt(s[1..], pattern, j - 1)
  {
    if j + |pattern| <= |s| {
      var a, b := s[j..j + |pattern|], s[1..][j - 1..j - 1 + |pattern|];
      assert |a| == |b|;
      forall k | 0 <= k < |a| ensures a[k] == b[k] {
        assert a[k] == s[j + k] && b[k] == s[1..][j - 1 + k];
      }
      assert a == b;
    }
  }

  /** `s.replace(pattern, replacement)` with a string pattern: only the
      first occurrence is replaced; no occurrence leaves `s` as it is. */
  function ReplaceFirst(s: string, pattern: string, replacement: string): (r: string)
    ensures IndexOf(s, pattern).None? ==> r == s
    ensures IndexOf(s, pattern).Some? ==>
      var i := IndexOf(s, pattern).value;
      r == s[..i] + replacement + s[i + |pattern|..]
  {
    match IndexOf(s, pattern)
    case None => s
    case Some(i) => s[..i] + replacement + s[i + |pattern|..]
  }

  /** A string that starts with the pattern loses exactly that prefix. */
  lemma ReplacePrefix(pattern: string, t: string)
    ensures ReplaceFirst(pattern + t, pattern, "") == t
  {
    assert (pattern + t)[..|pattern|] == pattern;
    assert (pattern + t)[|pattern|..] == t;
  }
}
