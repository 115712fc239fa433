/** The two string primitives the search boxes use: `toLowerCase` and
    `includes`. Lower-casing is modelled on ASCII letters only. */
module Text {

  /** `toLowerCase` on one character: 'A'..'Z' become 'a'..'z', anything else stays. */
  function Lower(c: char): (d: char)
    ensures 'A' <= c <= 'Z' ==> 'a' <= d <= 'z' && d as int - c as int == 32
    ensures !('A' <= c <= 'Z') ==> d == c
  {
    if 'A' <= c <= 'Z' then (c as int + 32) as char else c
  }

  /** `toLowerCase` on a string, character by character. */
  function LowerStr(s: string): (r: string)
    ensures |r| == |s|
    ensures forall i :: 0 <= i < |s| ==> r[i] == Lower(s[i])
  {
    if s == [] then [] else [Lower(s[0])] + LowerStr(s[1..])
  }

  /** A lower-cased string has no upper-case ASCII letter left. */
  lemma LowerStrHasNoUpper(s: string)
    ensures forall i :: 0 <= i < |s| ==> !('A' <= LowerStr(s)[i] <= 'Z')
  {
  }

  /** Lower-casing twice is lower-casing once. */
  lemma LowerStrIdempotent(s: string)
    ensures LowerStr(LowerStr(s)) == LowerStr(s)
  {
  }

  /** `t` occurs in `s` starting at position `i`. */
  predicate OccursAt(s: string, t: string, i: nat) {
    i + |t| <= |s| && s[i..i + |t|] == t
  }

  /** `s.includes(t)`: `t` occurs in `s` at some position. */
  function Contains(s: string, t: string): (b: bool)
    ensures b ==> |t| <= |s|
    ensures OccursAt(s, t, 0) ==> b
  {
    exists i :: 0 <= i <= |s| - |t| && OccursAt(s, t, i)
  }

  /** Every string includes the empty string. */
  lemma ContainsEmpty(s: string)
    ensures Contains(s, "")
  {
  }

  /** An occurrence survives lower-casing of both strings. */
  lemma OccursAtLowered(s: string, t: string, i: nat)
    requires OccursAt(s, t, i)
    ensures OccursAt(LowerStr(s), LowerStr(t), i)
  {
  }

  /** If the first character of a non-empty `t` occurs nowhere in `s`,
      then `s` does not include `t`. */
  lemma NotContainsForeignChar(s: string, t: string)
    requires t != "" && t[0] !in s
    ensures !Contains(s, t)
  {
  }
}
