/**
 * `str::to_lowercase`, restricted to ASCII: `A`..`Z` map to `a`..`z` and
 * every other character is kept.
 */
module Ascii {

  predicate IsUpper(c: char) { 'A' <= c <= 'Z' }

  predicate IsLower(c: char) { 'a' <= c <= 'z' }

  function LowerChar(c: char): (l: char)
    ensures !IsUpper(l)
  {
    if IsUpper(c) then (c as int + 32) as char else c
  }

  function UpperChar(c: char): char
    requires IsLower(c)
  {
    (c as int - 32) as char
  }

  function ToLowercase(s: string): (r: string)
    ensures |r| == |s|
    ensures forall i :: 0 <= i < |s| ==> r[i] == LowerChar(s[i])
  {
    if s == [] then [] else [LowerChar(s[0])] + ToLowercase(s[1..])
  }

  /** A word of lower-case ASCII letters, such as a verb. */
  predicate IsLowerWord(w: string) { forall i :: 0 <= i < |w| ==> IsLower(w[i]) }

  /**
   * A string lower-cases to a lower-case word exactly when it spells that
   * word letter by letter in either case.
   */
  lemma LowercaseMatchesWord(s: string, w: string)
    requires IsLowerWord(w)
    ensures ToLowercase(s) == w <==>
      |s| == |w| && forall i :: 0 <= i < |w| ==> s[i] == w[i] || s[i] == UpperChar(w[i])
  {
    forall i | 0 <= i < |s| && i < |w|
      ensures LowerChar(s[i]) == w[i] <==> s[i] == w[i] || s[i] == UpperChar(w[i])
    {
      LowerCharMatches(s[i], w[i]);
    }
    if |s| == |w| && forall i :: 0 <= i < |w| ==> s[i] == w[i] || s[i] == UpperChar(w[i]) {
      assert forall i :: 0 <= i < |w| ==> ToLowercase(s)[i] == w[i];
    }
  }

  lemma LowerCharMatches(c: char, l: char)
    requires IsLower(l)
    ensures LowerChar(c) == l <==> c == l || c == UpperChar(l)
  {
  }
}
