/** JavaScript's `String.prototype.trim`, as a pure function over `seq<char>`. */
module JsString {

  /** The characters `trim` removes: the WhiteSpace and LineTerminator
      code points of ECMA-262 (sections 12.2 and 12.3), the former being
      TAB, VT, FF, SPACE, NBSP, ZWNBSP and the Unicode category Zs. */
  predicate IsWhitespace(c: char) {
    || c == '\t' || c == '\U{000B}' || c == '\U{000C}' || c == ' '
    || c == '\U{00A0}' || c == '\U{FEFF}'
    || c == '\n' || c == '\r' || c == '\U{2028}' || c == '\U{2029}'
    || c == '\U{1680}' || ('\U{2000}' <= c <= '\U{200A}')
    || c == '\U{202F}' || c == '\U{205F}' || c == '\U{3000}'
  }

  predicate AllWhitespace(s: string) {
    forall k :: 0 <= k < |s| ==> IsWhitespace(s[k])
  }

  /** Neither end of `s` is whitespace (vacuously so for the empty string). */
  predicate IsTrimmed(s: string) {
    |s| == 0 || (!IsWhitespace(s[0]) && !IsWhitespace(s[|s| - 1]))
  }

  /** `s[lo..hi]` is what is left of `s` once a maximal whitespace prefix
      and a maximal whitespace suffix are cut off: the reference meaning
      of trimming, independent of how `Trim` computes it. */
  predicate IsTrimAt(s: string, lo: int, hi: int) {
    && 0 <= lo <= hi <= |s|
    && (forall k :: 0 <= k < lo ==> IsWhitespace(s[k]))
    && (forall k :: hi <= k < |s| ==> IsWhitespace(s[k]))
    && (lo < hi ==> !IsWhitespace(s[lo]) && !IsWhitespace(s[hi - 1]))
  }

  /** Length of the maximal whitespace prefix of `s`. */
  function LeadingWhitespace(s: string): (n: nat)
    ensures n <= |s|
    ensures forall k :: 0 <= k < n ==> IsWhitespace(s[k])
    ensures n < |s| ==> !IsWhitespace(s[n])
  {
    if |s| > 0 && IsWhitespace(s[0]) then 1 + LeadingWhitespace(s[1..]) else 0
  }

  /** Length of the maximal whitespace suffix of `s`. */
  function TrailingWhitespace(s: string): (n: nat)
    ensures n <= |s|
    ensures forall k :: |s| - n <= k < |s| ==> IsWhitespace(s[k])
    ensures n < |s| ==> !IsWhitespace(s[|s| - n - 1])
  {
    if |s| > 0 && IsWhitespace(s[|s| - 1]) then 1 + TrailingWhitespace(s[..|s| - 1]) else 0
  }

  /** `String.prototype.trim`: the text between the maximal whitespace
      prefix and the maximal whitespace suffix. */
  function Trim(s: string): (r: string)
    ensures var lo := LeadingWhitespace(s);
      lo + |r| <= |s| && IsTrimAt(s, lo, lo + |r|) && r == s[lo..lo + |r|]
  {
    var t := s[LeadingWhitespace(s)..];
    t[..|t| - TrailingWhitespace(t)]
  }

  /** `Trim` agrees with the reference meaning: whenever `s[lo..hi]` is a
      maximal-whitespace cut of `s`, `Trim(s)` is exactly that text. */
  lemma TrimMatchesReference(s: string, lo: int, hi: int)
    requires IsTrimAt(s, lo, hi)
    ensures Trim(s) == s[lo..hi]
  {
  }

  /** `trim()` yields the empty string exactly when every character is whitespace. */
  lemma TrimEmptyIff(s: string)
    ensures Trim(s) == [] <==> AllWhitespace(s)
  {
  }

  /** The result of `trim()` starts and ends with a non-whitespace character. */
  lemma TrimIsTrimmed(s: string)
    ensures IsTrimmed(Trim(s))
  {
  }

  /** A string without whitespace at its ends is its own trim. */
  lemma TrimOfTrimmed(s: string)
    requires IsTrimmed(s)
    ensures Trim(s) == s
  {
  }

  /** `trim()` is idempotent. */
  lemma TrimIdempotent(s: string)
    ensures Trim(Trim(s)) == Trim(s)
  {
  }
}
