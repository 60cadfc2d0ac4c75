/**
 * Letter case as the game uses it. Python's `str.lower` and `str.upper` are
 * modelled on the ASCII letters only: every other character is left as it is.
 */
module Text {

  predicate IsUpper(c: char) { 'A' <= c <= 'Z' }

  predicate IsLower(c: char) { 'a' <= c <= 'z' }

  function Lower(c: char): char
  {
    if IsUpper(c) then (c as int + 32) as char else c
  }

  function Upper(c: char): char
  {
    if IsLower(c) then (c as int - 32) as char else c
  }

  /** `s.lower()` */
  function LowerStr(s: string): (r: string)
    ensures |r| == |s|
  {
    seq(|s|, i requires 0 <= i < |s| => Lower(s[i]))
  }

  /** `s.upper()` */
  function UpperStr(s: string): (r: string)
    ensures |r| == |s|
  {
    seq(|s|, i requires 0 <= i < |s| => Upper(s[i]))
  }

  /** Lower-casing maps the upper-case letters onto the lower-case ones and back. */
  lemma CaseRoundTrip(c: char)
    ensures IsUpper(c) ==> IsLower(Lower(c)) && Upper(Lower(c)) == c
    ensures IsLower(c) ==> IsUpper(Upper(c)) && Lower(Upper(c)) == c
    ensures !IsUpper(c) && !IsLower(c) ==> Lower(c) == c && Upper(c) == c
  {
  }

  /** Lower-casing twice is lower-casing once. */
  lemma LowerStrIdempotent(s: string)
    ensures LowerStr(LowerStr(s)) == LowerStr(s)
  {
  }
}
