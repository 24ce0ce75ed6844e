/** Characters and the null-byte sanitisation applied to extracted page text. */
module Text {

  /** The null character, which the page store refuses in text columns. */
  const NUL: char := '\0'

  /** U+FFFD, the Unicode replacement character that stands in for NUL. */
  const REPLACEMENT: char := '\U{FFFD}'

  /** The characters Python's argument-less `str.split()` treats as
      separators: those whose bidirectional class is WS, B or S, or whose
      general category is Zs. */
  predicate IsSpace(c: char) {
    || ('\t' <= c <= '\r')
    || ('\U{1C}' <= c <= '\U{1F}')
    || c == ' '
    || c == '\U{85}'
    || c == '\U{A0}'
    || c == '\U{1680}'
    || ('\U{2000}' <= c <= '\U{200A}')
    || c == '\U{2028}'
    || c == '\U{2029}'
    || c == '\U{202F}'
    || c == '\U{205F}'
    || c == '\U{3000}'
  }

  /** `t` is `s` with every NUL replaced by REPLACEMENT, one character for
      one, and every other character left in place. */
  ghost predicate SanitizedOf(t: string, s: string) {
    && |t| == |s|
    && forall k :: 0 <= k < |s| ==> t[k] == (if s[k] == NUL then REPLACEMENT else s[k])
  }

  /** Replaces every NUL with U+FFFD, one character for one. */
  function Sanitize(s: string): (t: string)
    ensures SanitizedOf(t, s)
    ensures NUL !in t
  {
    if s == [] then []
    else [if s[0] == NUL then REPLACEMENT else s[0]] + Sanitize(s[1..])
  }

  /** Sanitising twice is sanitising once. */
  lemma SanitizeIdempotent(s: string)
    ensures Sanitize(Sanitize(s)) == Sanitize(s)
  {
    var t := Sanitize(s);
    assert forall k :: 0 <= k < |t| ==> t[k] != NUL;
  }

  /** A string without NUL is already sanitised. */
  lemma SanitizeFixesClean(s: string)
    requires NUL !in s
    ensures Sanitize(s) == s
  {
    assert forall k :: 0 <= k < |s| ==> s[k] != NUL;
  }

  /** Sanitisation neither creates nor removes separators: neither NUL nor
      U+FFFD is whitespace, so each position keeps its classification. */
  lemma SanitizeKeepsSpaces(s: string)
    ensures forall k :: 0 <= k < |s| ==> IsSpace(Sanitize(s)[k]) == IsSpace(s[k])
  {
    assert !IsSpace(NUL) && !IsSpace(REPLACEMENT);
  }
}
