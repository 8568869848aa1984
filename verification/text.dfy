/** The text primitives user lookups rely on: case folding (JavaScript
    `toLowerCase`, SQL `lower`) and the `ILIKE '%q%'` containment test. */
module Text {

  /** Lower-cases one character; only the ASCII letters are folded. */
  function LowerChar(c: char): char
  {
    if 'A' <= c <= 'Z' then (c as int + 32) as char else c
  }

  /** Lower-cases a whole string, character by character. */
  function Lower(s: string): string
  {
    seq(|s|, i requires 0 <= i < |s| => LowerChar(s[i]))
  }

  /** Folding twice is folding once, so a stored lower-cased email compares
      equal to the lower-cased query it was written from. */
  lemma LowerIdempotent(s: string)
    ensures Lower(Lower(s)) == Lower(s)
  {
  }

  /** `needle` occurs somewhere inside `haystack`. */
  predicate Contains(haystack: string, needle: string)
  {
    exists i | 0 <= i <= |haystack| - |needle| :: needle <= haystack[i..]
  }

  /** `haystack ILIKE '%needle%'`, read without wildcards inside `needle`. */
  predicate ContainsIgnoringCase(haystack: string, needle: string)
  {
    Contains(Lower(haystack), Lower(needle))
  }
}
