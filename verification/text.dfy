/**
 The client's blank-title check: JavaScript's `String.prototype.trim`, and
 "blank" meaning that the trimmed string is the empty (falsy) string.
 */
module Text {

  /** The code points `trim` strips: ECMAScript WhiteSpace (TAB, VT, FF,
      ZWNBSP and every Zs space separator) and LineTerminator (LF, CR,
      LS, PS). */
  const Whitespace: set<char> := {
    '\t', '\n', '\U{000B}', '\U{000C}', '\r', ' ', '\U{00A0}', '\U{1680}',
    '\U{2000}', '\U{2001}', '\U{2002}', '\U{2003}', '\U{2004}', '\U{2005}',
    '\U{2006}', '\U{2007}', '\U{2008}', '\U{2009}', '\U{200A}',
    '\U{2028}', '\U{2029}', '\U{202F}', '\U{205F}', '\U{3000}', '\U{FEFF}'
  }

  predicate IsWhitespace(c: char) {
    c in Whitespace
  }

  predicate AllWhitespace(s: string) {
    forall i :: 0 <= i < |s| ==> IsWhitespace(s[i])
  }

  /** How many whitespace characters open `s`: `trim` starts its result
      at this position. */
  function LeadingWhitespace(s: string): (n: nat)
    ensures n <= |s|
    ensures forall i :: 0 <= i < n ==> IsWhitespace(s[i])
    ensures n < |s| ==> !IsWhitespace(s[n])
    decreases |s|
  {
    if |s| > 0 && IsWhitespace(s[0]) then 1 + LeadingWhitespace(s[1..]) else 0
  }

  /** Where `trim` ends its result: moving back from `end` past the
      whitespace, but never before `start`. */
  function TrailingCut(s: string, start: nat, end: nat): (e: nat)
    requires start <= end <= |s|
    ensures start <= e <= end
    ensures forall i :: e <= i < end ==> IsWhitespace(s[i])
    ensures e > start ==> !IsWhitespace(s[e - 1])
    decreases end
  {
    if end > start && IsWhitespace(s[end - 1]) then TrailingCut(s, start, end - 1) else end
  }

  /** `s.trim()`: the slice of `s` between its leading and its trailing
      whitespace, which is empty exactly when `s` is all whitespace and
      otherwise starts and ends with a character that is not whitespace. */
  function Trim(s: string): (r: string)
    ensures LeadingWhitespace(s) + |r| <= |s|
    ensures r == s[LeadingWhitespace(s)..LeadingWhitespace(s) + |r|]
    ensures forall i :: LeadingWhitespace(s) + |r| <= i < |s| ==> IsWhitespace(s[i])
    ensures |r| == 0 <==> AllWhitespace(s)
    ensures |r| > 0 ==> !IsWhitespace(r[0]) && !IsWhitespace(r[|r| - 1])
  {
    var start := LeadingWhitespace(s);
    var end := TrailingCut(s, start, |s|);
    s[start..end]
  }

  /** A title with nothing left after trimming, which the handlers that
      create or save refuse. */
  predicate IsBlank(s: string) {
    |Trim(s)| == 0
  }

  /** A title is refused exactly when it has no character other than
      whitespace; in particular the empty title is refused and any title
      holding a visible character is accepted. */
  lemma BlankIffAllWhitespace(s: string)
    ensures IsBlank(s) <==> AllWhitespace(s)
    ensures IsBlank("")
    ensures forall i :: 0 <= i < |s| && !IsWhitespace(s[i]) ==> !IsBlank(s)
  {
  }
}
