/** The string operations the code uses: `toLowerCase`, `includes` and the
    `length` of a JavaScript string. */
module Text {

  /** The UTF-16 code units one character takes: two for a character outside
      the Basic Multilingual Plane (a surrogate pair), one otherwise. */
  function CodeUnits(c: char): nat
  {
    if c as int >= 0x10000 then 2 else 1
  }

  /** A JavaScript string's `length`: it counts UTF-16 code units, not
      characters, so it lies between one and two units per character and
      equals the character count exactly when no character needs a pair. */
  function Utf16Length(s: string): (r: nat)
    ensures |s| <= r <= 2 * |s|
    ensures r == |s| <==> forall i :: 0 <= i < |s| ==> s[i] as int < 0x10000
  {
    if |s| == 0 then 0
    else
      var front := s[..|s| - 1];
      assert forall i :: 0 <= i < |front| ==> front[i] == s[i];
      Utf16Length(front) + CodeUnits(s[|s| - 1])
  }

  /** `toLowerCase` on one character, for the ASCII letters. */
  function LowerChar(c: char): char
  {
    if 'A' <= c <= 'Z' then (c as int + 32) as char else c
  }

  /** `toLowerCase` on a string, character by character. */
  function ToLower(s: string): (r: string)
    ensures |r| == |s|
    ensures forall i :: 0 <= i < |s| ==> r[i] == LowerChar(s[i])
  {
    seq(|s|, i requires 0 <= i < |s| => LowerChar(s[i]))
  }

  /** Lower-casing twice is lower-casing once. */
  lemma ToLowerIdempotent(s: string)
    ensures ToLower(ToLower(s)) == ToLower(s)
  {
  }

  /** `t` occurs in `s` starting at position `i`. */
  predicate OccursAt(s: string, t: string, i: nat)
  {
    i + |t| <= |s| && s[i..i + |t|] == t
  }

  /** `s.includes(t)`: `t` occurs in `s` as a contiguous block. */
  predicate Contains(s: string, t: string)
  {
    exists i: nat :: i <= |s| && OccursAt(s, t, i)
  }

  /** Every string includes the empty string. */
  lemma ContainsEmpty(s: string)
    ensures Contains(s, "")
  {
    assert OccursAt(s, "", 0);
  }

  /** Every string includes itself. */
  lemma ContainsSelf(s: string)
    ensures Contains(s, s)
  {
    assert OccursAt(s, s, 0);
  }
}
