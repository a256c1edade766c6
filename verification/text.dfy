/** Strings as the record services see them: JavaScript's `String.prototype.trim`. */
module Text {

  /** The characters `trim` removes: ECMAScript WhiteSpace (TAB, VT, FF, ZWNBSP and
      every space separator) and LineTerminator (LF, CR, LS, PS). */
  predicate IsSpace(c: char) {
    || c == '\t' || c == '\n' || c == '\U{B}' || c == '\U{C}' || c == '\r'
    || c == ' ' || c == '\U{A0}' || c == '\U{1680}'
    || ('\U{2000}' <= c <= '\U{200A}')
    || c == '\U{2028}' || c == '\U{2029}' || c == '\U{202F}' || c == '\U{205F}'
    || c == '\U{3000}' || c == '\U{FEFF}'
  }

  predicate AllSpace(s: string) {
    forall i :: 0 <= i < |s| ==> IsSpace(s[i])
  }

  /** Drops leading white space: the result is the suffix of `s` that starts at its
      first non-space character. */
  function TrimStart(s: string): (r: string)
    ensures |r| <= |s| && r == s[|s| - |r|..]
    ensures AllSpace(s[..|s| - |r|])
    ensures r == [] || !IsSpace(r[0])
  {
    if |s| > 0 && IsSpace(s[0]) then
      var r := TrimStart(s[1..]);
      assert s[..|s| - |r|] == [s[0]] + s[1..][..|s| - 1 - |r|];
      assert s[|s| - |r|..] == s[1..][|s| - 1 - |r|..];
      r
    else
      s
  }

  /** Drops trailing white space: the result is the prefix of `s` that ends at its
      last non-space character. */
  function TrimEnd(s: string): (r: string)
    ensures |r| <= |s| && r == s[..|r|]
    ensures AllSpace(s[|r|..])
    ensures r == [] || !IsSpace(r[|r| - 1])
  {
    if |s| > 0 && IsSpace(s[|s| - 1]) then
      var r := TrimEnd(s[..|s| - 1]);
      assert s[|r|..] == s[..|s| - 1][|r|..] + [s[|s| - 1]];
      r
    else
      s
  }

  /** The number of leading white-space characters of `s`. */
  function LeadLength(s: string): (n: nat)
    ensures n <= |s| && AllSpace(s[..n])
  {
    |s| - |TrimStart(s)|
  }

  /** `s.trim()`: the slice of `s` that starts after its leading white space, has
      only white space after it, and neither starts nor ends with white space. */
  function Trim(s: string): (r: string)
    ensures LeadLength(s) + |r| <= |s|
    ensures r == s[LeadLength(s)..LeadLength(s) + |r|]
    ensures AllSpace(s[LeadLength(s) + |r|..])
    ensures r == [] || (!IsSpace(r[0]) && !IsSpace(r[|r| - 1]))
  {
    var t := TrimStart(s);
    var r := TrimEnd(t);
    SuffixSlices(s, |s| - |t|, |r|);
    assert r == [] || r[0] == t[0];
    r
  }

  /** Slicing the suffix that starts at `n` is slicing `s` shifted by `n`. */
  lemma SuffixSlices(s: string, n: nat, m: nat)
    requires n + m <= |s|
    ensures s[n..][..m] == s[n..n + m]
    ensures s[n..][m..] == s[n + m..]
  {
  }

  /** `!x || !x.trim()` for a string `x`: empty or white space only. */
  predicate Blank(s: string) {
    Trim(s) == []
  }

  /** A string is blank exactly when every character of it is white space. */
  lemma BlankIffAllSpace(s: string)
    ensures Blank(s) <==> AllSpace(s)
  {
    var n := LeadLength(s);
    if Trim(s) == [] {
      assert s == s[..n] + s[n..];
    } else {
      assert Trim(s)[0] == s[n];
    }
  }

  /** A string without surrounding white space is its own trim. */
  lemma TrimOfTrimmed(s: string)
    requires s == [] || (!IsSpace(s[0]) && !IsSpace(s[|s| - 1]))
    ensures Trim(s) == s
  {
  }

  /** Trimming twice is trimming once. */
  lemma TrimIdempotent(s: string)
    ensures Trim(Trim(s)) == Trim(s)
  {
    TrimOfTrimmed(Trim(s));
  }
}
