/** Whitespace and trimming, as JavaScript's String.prototype.trim performs them. */
module Text {

  /** The code points ECMAScript classes as WhiteSpace or LineTerminator. */
  predicate IsSpace(c: char) {
    || c == '\t' || c == '\n' || c == '\U{000B}' || c == '\U{000C}' || c == '\r' || c == ' '
    || c == '\U{00A0}' || c == '\U{1680}' || ('\U{2000}' <= c && c <= '\U{200A}')
    || c == '\U{2028}' || c == '\U{2029}' || c == '\U{202F}' || c == '\U{205F}'
    || c == '\U{3000}' || c == '\U{FEFF}'
  }

  /** Every character is whitespace; the empty string is blank. */
  predicate IsBlank(s: string) {
    forall i | 0 <= i < |s| :: IsSpace(s[i])
  }

  /** Drops leading whitespace: the result is the suffix of `s` after a blank prefix. */
  function TrimStart(s: string): (r: string)
    ensures |r| <= |s| && r == s[|s| - |r|..]
    ensures IsBlank(s[..|s| - |r|])
    ensures r != [] ==> !IsSpace(r[0])
  {
    if s != [] && IsSpace(s[0]) then
      var r := TrimStart(s[1..]);
      assert s[..|s| - |r|] == [s[0]] + s[1..][..|s| - 1 - |r|];
      r
    else s
  }

  /** Drops trailing whitespace: the result is the prefix of `s` before a blank suffix. */
  function TrimEnd(s: string): (r: string)
    ensures |r| <= |s| && r == s[..|r|]
    ensures IsBlank(s[|r|..])
    ensures r != [] ==> !IsSpace(r[|r| - 1])
  {
    if s != [] && IsSpace(s[|s| - 1]) then
      var r := TrimEnd(s[..|s| - 1]);
      assert s[|r|..] == s[..|s| - 1][|r|..] + [s[|s| - 1]];
      r
    else s
  }

  /**
   * `s` without leading and trailing whitespace. The result is empty exactly when `s` is
   * blank, is what remains of `s` between a blank prefix and a blank suffix, and is left
   * unchanged by trimming again.
   */
  function Trim(s: string): (r: string)
    ensures r == [] <==> IsBlank(s)
    ensures IsTrimmed(r)
  {
    var t := TrimStart(s);
    var r := TrimEnd(t);
    StrippedAt(s, t, r);
    r
  }

  /** A string with no whitespace at either end, the empty one included, is its own trim. */
  predicate IsTrimmed(s: string) {
    s == [] || (!IsSpace(s[0]) && !IsSpace(s[|s| - 1]))
  }

  /** Trimming an already trimmed string changes nothing; in particular Trim is idempotent. */
  lemma TrimOfTrimmed(s: string)
    requires IsTrimmed(s)
    ensures Trim(s) == s
  {
    assert TrimStart(s) == s;
    assert TrimEnd(s) == s;
  }

  /** Trim removes a blank prefix and a blank suffix and nothing else. */
  lemma TrimIsInfix(s: string)
    ensures exists i | 0 <= i <= |s| - |Trim(s)| :: IsStrippedAt(s, Trim(s), i)
  {
    var t := TrimStart(s);
    StrippedAt(s, t, TrimEnd(t));
    assert IsStrippedAt(s, Trim(s), |s| - |t|);
  }

  /** `r` is `s` with the blank prefix `s[..i]` and a blank suffix removed. */
  ghost predicate IsStrippedAt(s: string, r: string, i: int)
    requires 0 <= i <= |s| - |r|
  {
    s == s[..i] + r + s[i + |r|..] && IsBlank(s[..i]) && IsBlank(s[i + |r|..])
  }

  /**
   * What TrimStart and TrimEnd promise, put together: `t` is `s` after a blank prefix and
   * `r` is `t` before a blank suffix.
   */
  lemma StrippedAt(s: string, t: string, r: string)
    requires |t| <= |s| && t == s[|s| - |t|..] && IsBlank(s[..|s| - |t|])
    requires t != [] ==> !IsSpace(t[0])
    requires |r| <= |t| && r == t[..|r|] && IsBlank(t[|r|..])
    ensures IsStrippedAt(s, r, |s| - |t|)
    ensures IsBlank(s) <==> r == []
  {
    var i := |s| - |t|;
    assert s == s[..i] + t;
    assert t == r + t[|r|..];
    assert s[i + |r|..] == t[|r|..];
  }
}
