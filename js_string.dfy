/** The part of ECMAScript's String.prototype.trim that the entry form relies on:
    the input is stripped of leading and trailing white space and line terminators. */
module JsString {

  /** ECMAScript WhiteSpace (TAB, VT, FF, ZWNBSP and every space separator) or LineTerminator
      (LF, CR, LS, PS): the characters trim removes from both ends. */
  predicate IsWhiteSpace(c: char) {
    c == '\t' || c == '\n' || c == '\U{000B}' || c == '\U{000C}' || c == '\r' || c == ' '
    || c == '\U{00A0}' || c == '\U{1680}' || ('\U{2000}' <= c <= '\U{200A}')
    || c == '\U{2028}' || c == '\U{2029}' || c == '\U{202F}' || c == '\U{205F}'
    || c == '\U{3000}' || c == '\U{FEFF}'
  }

  /** Every character of s at a position in [lo, hi) is white space. */
  predicate WhiteBetween(s: string, lo: int, hi: int) {
    forall k :: lo <= k < hi && 0 <= k < |s| ==> IsWhiteSpace(s[k])
  }

  predicate AllWhiteSpace(s: string) {
    WhiteBetween(s, 0, |s|)
  }

  /** The length of the longest white-space prefix of s. */
  function LeadingWhiteSpace(s: string): (n: nat)
    ensures n <= |s| && WhiteBetween(s, 0, n)
    ensures n < |s| ==> !IsWhiteSpace(s[n])
  {
    if s != [] && IsWhiteSpace(s[0]) then
      var n := 1 + LeadingWhiteSpace(s[1..]);
      assert forall k :: 1 <= k < n ==> s[k] == s[1..][k - 1];
      n
    else 0
  }

  /** The position where the longest white-space suffix of s begins. */
  function TrailingWhiteSpace(s: string): (n: nat)
    ensures n <= |s| && WhiteBetween(s, n, |s|)
    ensures n > 0 ==> !IsWhiteSpace(s[n - 1])
  {
    if s != [] && IsWhiteSpace(s[|s| - 1]) then
      var n := TrailingWhiteSpace(s[..|s| - 1]);
      assert forall k :: n <= k < |s| - 1 ==> s[k] == s[..|s| - 1][k];
      n
    else |s|
  }

  /** The two counts above are the only ones with their properties. */
  lemma LeadingWhiteSpaceIs(s: string, n: nat)
    requires n <= |s| && WhiteBetween(s, 0, n)
    requires n < |s| ==> !IsWhiteSpace(s[n])
    ensures LeadingWhiteSpace(s) == n
  {
  }

  lemma TrailingWhiteSpaceIs(s: string, n: nat)
    requires n <= |s| && WhiteBetween(s, n, |s|)
    requires n > 0 ==> !IsWhiteSpace(s[n - 1])
    ensures TrailingWhiteSpace(s) == n
  {
  }

  /** String.prototype.trim: the leading white space goes first, then the trailing white
      space of what is left. The result is empty exactly when the input is all white space,
      and a non-empty result neither starts nor ends with white space. */
  function Trim(s: string): (r: string)
    ensures r == [] <==> AllWhiteSpace(s)
    ensures r != [] ==> !IsWhiteSpace(r[0]) && !IsWhiteSpace(r[|r| - 1])
  {
    var i := LeadingWhiteSpace(s);
    var t := s[i..];
    var j := TrailingWhiteSpace(t);
    assert j > 0 ==> t[0] == s[i];
    t[..j]
  }

  /** Trim keeps one contiguous slice of its input and drops only white space around it. */
  lemma TrimIsSlice(s: string)
    ensures var i := LeadingWhiteSpace(s);
            var j := i + |Trim(s)|;
            j <= |s| && Trim(s) == s[i..j] && WhiteBetween(s, 0, i) && WhiteBetween(s, j, |s|)
  {
    var i := LeadingWhiteSpace(s);
    var t := s[i..];
    var j := TrailingWhiteSpace(t);
    WhiteSuffixOfSlice(s, i, j);
    assert Trim(s) == t[..j] == s[i..i + j];
  }

  /** White space from position j of s[i..] on is white space from position i + j of s on. */
  lemma WhiteSuffixOfSlice(s: string, i: nat, j: nat)
    requires i <= |s| && WhiteBetween(s[i..], j, |s| - i)
    ensures WhiteBetween(s, i + j, |s|)
  {
    forall k | i + j <= k < |s| ensures IsWhiteSpace(s[k]) {
      assert s[i..][k - i] == s[k];
    }
  }

  /** Trim is characterised independently of how it is computed: whenever s is white space,
      then m, then white space, and m has no white space at either end, Trim(s) is m. */
  lemma TrimUnique(a: string, m: string, b: string)
    requires AllWhiteSpace(a) && AllWhiteSpace(b)
    requires m == [] || (!IsWhiteSpace(m[0]) && !IsWhiteSpace(m[|m| - 1]))
    ensures Trim(a + m + b) == m
  {
    var s := a + m + b;
    if m == [] {
      forall k | 0 <= k < |s| ensures IsWhiteSpace(s[k]) {
        if k < |a| { assert s[k] == a[k]; } else { assert s[k] == b[k - |a|]; }
      }
    } else {
      forall k | 0 <= k < |a| ensures IsWhiteSpace(s[k]) { assert s[k] == a[k]; }
      assert s[|a|] == m[0];
      LeadingWhiteSpaceIs(s, |a|);
      var t := s[|a|..];
      assert t == m + b;
      forall k | |m| <= k < |t| ensures IsWhiteSpace(t[k]) { assert t[k] == b[k - |m|]; }
      assert t[|m| - 1] == m[|m| - 1];
      TrailingWhiteSpaceIs(t, |m|);
      assert t[..|m|] == m;
    }
  }

  /** Trimming twice is trimming once. */
  lemma TrimIdempotent(s: string)
    ensures Trim(Trim(s)) == Trim(s)
  {
    var r := Trim(s);
    TrimUnique([], r, []);
    assert [] + r + [] == r;
  }
}
