/**
 * The string helpers of Go's standard library that the inventory code uses:
 * bytes.TrimSpace / strings.TrimSpace, strings.HasPrefix and
 * strings.TrimPrefix. A Go string is a sequence of bytes; here it is a
 * `string`, and only ASCII white space is recognised.
 */
module Text {

  /** The ASCII characters TrimSpace removes: '\t', '\n', '\v', '\f', '\r' and ' '. */
  predicate IsSpace(c: char) {
    c == ' ' || c == '\t' || c == '\n' || c == '\U{000B}' || c == '\U{000C}' || c == '\r'
  }

  predicate AllSpace(s: string) {
    forall i :: 0 <= i < |s| ==> IsSpace(s[i])
  }

  /** Neither end of `s` is white space. */
  predicate IsTrimmed(s: string) {
    s == [] || (!IsSpace(s[0]) && !IsSpace(s[|s| - 1]))
  }

  /** The length of the longest all-space prefix of `s`. */
  function LeadingSpaces(s: string): (n: nat)
    ensures n <= |s|
    ensures AllSpace(s[..n])
    ensures n == |s| || !IsSpace(s[n])
  {
    if s == [] || !IsSpace(s[0]) then 0 else 1 + LeadingSpaces(s[1..])
  }

  /** The length of the longest all-space suffix of `s`. */
  function TrailingSpaces(s: string): (n: nat)
    ensures n <= |s|
    ensures AllSpace(s[|s| - n..])
    ensures n == |s| || !IsSpace(s[|s| - n - 1])
  {
    if s == [] || !IsSpace(s[|s| - 1]) then 0 else 1 + TrailingSpaces(s[..|s| - 1])
  }

  /**
   * TrimSpace: `s` without its leading and trailing white space. The result
   * is the middle of `s`, it is trimmed, and what was cut off on either
   * side is white space.
   */
  function TrimSpace(s: string): (r: string)
    ensures IsTrimmed(r)
    ensures LeadingSpaces(s) + |r| <= |s|
    ensures s[LeadingSpaces(s)..LeadingSpaces(s) + |r|] == r
    ensures AllSpace(s[..LeadingSpaces(s)]) && AllSpace(s[LeadingSpaces(s) + |r|..])
  {
    var i := LeadingSpaces(s);
    var t := s[i..];
    var r := t[..|t| - TrailingSpaces(t)];
    assert r == [] || r[0] == s[i];
    r
  }

  /** Padding a trimmed string with white space on both sides and trimming it again gives it back. */
  lemma TrimSpacePadded(a: string, m: string, b: string)
    requires AllSpace(a) && AllSpace(b) && IsTrimmed(m)
    ensures TrimSpace(a + m + b) == m
  {
    var s := a + m + b;
    var i := LeadingSpaces(s);
    var r := TrimSpace(s);
    if m == [] {
      assert AllSpace(s) by { assert s == a + b; }
      assert i == |s|;
    } else {
      assert s[|a|] == m[0];
      assert s[|a| + |m| - 1] == m[|m| - 1];
      assert AllSpace(s[..|a|]) && AllSpace(s[|a| + |m|..]) by {
        assert s[..|a|] == a && s[|a| + |m|..] == b;
      }
      assert s[|a|..|a| + |m|] == m;
    }
  }

  /** TrimSpace is idempotent. */
  lemma TrimSpaceIdempotent(s: string)
    ensures TrimSpace(TrimSpace(s)) == TrimSpace(s)
  {
    var r := TrimSpace(s);
    TrimSpacePadded("", r, "");
    assert "" + r + "" == r;
  }

  /** strings.TrimPrefix: `s` without `prefix` when it starts with it, `s` unchanged otherwise. */
  function TrimPrefix(s: string, prefix: string): (r: string)
    ensures prefix <= s ==> prefix + r == s
    ensures !(prefix <= s) ==> r == s
  {
    if prefix <= s then s[|prefix|..] else s
  }

  /** Only one copy of the prefix is removed, however many follow each other. */
  lemma TrimPrefixOnce(prefix: string, rest: string)
    ensures TrimPrefix(prefix + rest, prefix) == rest
  {
    assert prefix <= prefix + rest;
    assert (prefix + rest)[|prefix|..] == rest;
  }
}
