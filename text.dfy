/**
 * Characters as the tokenizer sees them. The regular-expression class `\w`
 * and `str.lower` are Unicode-aware in Python; here both are restricted to
 * ASCII: word characters are letters, digits and underscore, and lowering
 * maps 'A'..'Z' to 'a'..'z' and leaves every other character alone.
 */
module Text {

  predicate IsUpper(c: char) { 'A' <= c <= 'Z' }

  /** Membership in the regular-expression class `\w` (ASCII). */
  predicate IsWordChar(c: char)
  {
    'a' <= c <= 'z' || IsUpper(c) || '0' <= c <= '9' || c == '_'
  }

  /** The distance from a capital to its lower-case letter. */
  const CaseShift: int := 'a' as int - 'A' as int

  /** `c.lower()` (ASCII): a capital becomes its lower-case letter, anything else stays. */
  function ToLower(c: char): (r: char)
    ensures IsUpper(c) ==> r as int == c as int + CaseShift
    ensures !IsUpper(c) ==> r == c
    ensures !IsUpper(r)
    ensures IsWordChar(r) == IsWordChar(c)
  {
    if IsUpper(c) then (c as int + CaseShift) as char else c
  }

  /** `str.lower()`: lowers every character, keeps the length and the word/non-word pattern. */
  function Lower(s: string): (r: string)
    ensures |r| == |s|
    ensures forall i :: 0 <= i < |r| ==> r[i] == ToLower(s[i])
    ensures forall i :: 0 <= i < |r| ==> !IsUpper(r[i])
    ensures forall i :: 0 <= i < |r| ==> IsWordChar(r[i]) == IsWordChar(s[i])
    ensures forall i :: 0 <= i < |r| && !IsUpper(s[i]) ==> r[i] == s[i]
  {
    seq(|s|, i requires 0 <= i < |s| => ToLower(s[i]))
  }

  /** `a` and `b` are the same character, or the capital and lower-case forms of one letter. */
  predicate SameUpToCase(a: char, b: char)
  {
    a == b
    || (IsUpper(a) && b as int == a as int + CaseShift)
    || (IsUpper(b) && a as int == b as int + CaseShift)
  }

  /** Two strings of the same length whose characters agree up to case. */
  predicate EqualIgnoringCase(s: string, t: string)
  {
    |s| == |t| && forall i :: 0 <= i < |s| ==> SameUpToCase(s[i], t[i])
  }

  /** Two characters lower to the same character exactly when they agree up to case. */
  lemma ToLowerMerges(a: char, b: char)
    ensures ToLower(a) == ToLower(b) <==> SameUpToCase(a, b)
  {
  }

  /** Lowering makes two strings equal exactly when they agree up to case. */
  lemma LowerIgnoresCase(s: string, t: string)
    ensures Lower(s) == Lower(t) <==> EqualIgnoringCase(s, t)
  {
    if EqualIgnoringCase(s, t) {
      forall i | 0 <= i < |s| ensures Lower(s)[i] == Lower(t)[i] {
        ToLowerMerges(s[i], t[i]);
      }
    }
    if Lower(s) == Lower(t) {
      forall i | 0 <= i < |s| ensures SameUpToCase(s[i], t[i]) {
        assert Lower(s)[i] == Lower(t)[i];
        ToLowerMerges(s[i], t[i]);
      }
    }
  }
}
