/** ASCII case mapping: the part of Foundation's `lowercased()`, `capitalized` and
    `caseInsensitiveCompare` that the playground's keys and words exercise. */
module Ascii {

  function LowerChar(c: char): char {
    if 'A' <= c <= 'Z' then (c as int + 32) as char else c
  }

  function UpperChar(c: char): char {
    if 'a' <= c <= 'z' then (c as int - 32) as char else c
  }

  /** `s.lowercased()`. */
  function Lower(s: string): (r: string)
    ensures |r| == |s|
    ensures forall i :: 0 <= i < |s| ==> r[i] == LowerChar(s[i])
  {
    seq(|s|, i requires 0 <= i < |s| => LowerChar(s[i]))
  }

  /** `a.caseInsensitiveCompare(b) == .orderedSame`, for ASCII text. */
  predicate SameIgnoringCase(a: string, b: string) {
    Lower(a) == Lower(b)
  }

  lemma LowerAppend(a: string, b: string)
    ensures Lower(a + b) == Lower(a) + Lower(b)
  {
    assert forall i :: 0 <= i < |a + b| ==> Lower(a + b)[i] == (Lower(a) + Lower(b))[i];
  }

  lemma LowerIdempotent(s: string)
    ensures Lower(Lower(s)) == Lower(s)
  {
  }

  /** Case mapping never produces or removes a hyphen. */
  lemma CaseKeepsHyphens(c: char)
    ensures LowerChar(c) == '-' <==> c == '-'
    ensures UpperChar(c) == '-' <==> c == '-'
    ensures LowerChar(UpperChar(c)) == LowerChar(c)
  {
  }
}
