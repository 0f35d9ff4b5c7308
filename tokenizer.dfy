/**
 * The tokenizer `re.findall(r'\b\w+\b', s)`: the maximal runs of word
 * characters of `s`, left to right. A greedy `\w+` always consumes a whole
 * run, and both `\b` anchors then hold, so each match is exactly one run.
 */
module Tokenizer {
  import opened Seqs
  import opened Text

  /** Length of the run of word characters at the front of `s`: maximal by its contract. */
  function RunLength(s: string): (n: nat)
    ensures n <= |s|
    ensures forall i :: 0 <= i < n ==> IsWordChar(s[i])
    ensures n == |s| || !IsWordChar(s[n])
  {
    if s == [] || !IsWordChar(s[0]) then 0 else 1 + RunLength(s[1..])
  }

  /** The matches of `\b\w+\b` in `s`, in order: each non-empty, all word characters, all taken from `s`. */
  function Tokens(s: string): (r: seq<string>)
    ensures forall i :: 0 <= i < |r| ==> |r[i]| > 0
    ensures forall i, c :: 0 <= i < |r| && c in r[i] ==> IsWordChar(c) && c in s
    decreases |s|
  {
    if s == [] then []
    else if !IsWordChar(s[0]) then
      SuffixChars(s, 1);
      Tokens(s[1..])
    else
      var n := RunLength(s);
      var rest := Tokens(s[n..]);
      SuffixChars(s, n);
      WordPrefixChars(s, n);
      assert forall i :: 0 < i < |rest| + 1 ==> ([s[..n]] + rest)[i] == rest[i - 1];
      [s[..n]] + rest
  }

  /** Every character of a suffix is a character of the whole string. */
  lemma SuffixChars(s: string, n: nat)
    requires n <= |s|
    ensures forall c :: c in s[n..] ==> c in s
  {
    forall c | c in s[n..] ensures c in s {
      var j :| 0 <= j < |s[n..]| && s[n..][j] == c;
      assert s[n + j] == c;
    }
  }

  /** The characters of a leading run of word characters are word characters of the string. */
  lemma WordPrefixChars(s: string, n: nat)
    requires n <= |s|
    requires forall i :: 0 <= i < n ==> IsWordChar(s[i])
    ensures forall c :: c in s[..n] ==> IsWordChar(c) && c in s
  {
    forall c | c in s[..n] ensures IsWordChar(c) && c in s {
      var j :| 0 <= j < n && s[..n][j] == c;
      assert s[j] == c;
    }
  }

  /**
   * An independent one-pass count of the maximal runs of word characters:
   * a run starts at every word character that follows a non-word character
   * or the start of the text. `afterWord` says whether the previous
   * character was a word character.
   */
  function RunStarts(s: string, afterWord: bool): nat
  {
    if s == [] then 0
    else (if IsWordChar(s[0]) && !afterWord then 1 else 0) + RunStarts(s[1..], IsWordChar(s[0]))
  }

  /** The word characters of `s`, in order, with everything else dropped. */
  function WordChars(s: string): string
  {
    if s == [] then [] else (if IsWordChar(s[0]) then [s[0]] else []) + WordChars(s[1..])
  }

  /** Scanning past the rest of a run leaves the run count unchanged. */
  lemma {:induction false} SkipRun(s: string)
    ensures RunStarts(s, true) == RunStarts(s[RunLength(s)..], false)
    decreases |s|
  {
    if s != [] && IsWordChar(s[0]) {
      SkipRun(s[1..]);
      assert s[1..][RunLength(s[1..])..] == s[RunLength(s)..];
    }
  }

  /** There is one token per maximal run of word characters. */
  lemma {:induction false} TokenCount(s: string)
    ensures |Tokens(s)| == RunStarts(s, false)
    decreases |s|
  {
    if s == [] {
    } else if !IsWordChar(s[0]) {
      TokenCount(s[1..]);
    } else {
      var n := RunLength(s);
      TokenCount(s[n..]);
      SkipRun(s[1..]);
      assert s[1..][RunLength(s[1..])..] == s[n..];
    }
  }

  lemma {:induction false} WordCharsSplit(s: string, n: nat)
    requires n <= |s|
    requires forall i :: 0 <= i < n ==> IsWordChar(s[i])
    ensures WordChars(s) == s[..n] + WordChars(s[n..])
    decreases n
  {
    if n > 0 {
      WordCharsSplit(s[1..], n - 1);
      assert s[1..][n - 1..] == s[n..];
      assert s[..n] == [s[0]] + s[1..][..n - 1];
    }
  }

  /** The tokens, joined back together, are exactly the word characters of `s`: none is lost or invented. */
  lemma {:induction false} TokensCover(s: string)
    ensures Flatten(Tokens(s)) == WordChars(s)
    decreases |s|
  {
    if s == [] {
    } else if !IsWordChar(s[0]) {
      TokensCover(s[1..]);
    } else {
      var n := RunLength(s);
      TokensCover(s[n..]);
      WordCharsSplit(s, n);
      assert ([s[..n]] + Tokens(s[n..]))[1..] == Tokens(s[n..]);
    }
  }

  /** Lowering keeps the word/non-word pattern, so it keeps the run count. */
  lemma {:induction false} RunStartsLower(s: string, afterWord: bool)
    ensures RunStarts(Lower(s), afterWord) == RunStarts(s, afterWord)
    decreases |s|
  {
    if s != [] {
      assert Lower(s)[1..] == Lower(s[1..]);
      RunStartsLower(s[1..], IsWordChar(s[0]));
    }
  }

  /** Tokens of lowered text contain no upper-case letter. */
  lemma LowerTokens(s: string)
    ensures forall w :: w in Tokens(Lower(s)) ==> forall c :: c in w ==> !IsUpper(c)
  {
    var t := Lower(s);
    forall w, c | w in Tokens(t) && c in w ensures !IsUpper(c) {
      var i :| 0 <= i < |Tokens(t)| && Tokens(t)[i] == w;
      assert c in t;
    }
  }

  lemma {:induction false} RunLengthOfWord(w: string, rest: string)
    requires forall i :: 0 <= i < |w| ==> IsWordChar(w[i])
    requires rest == [] || !IsWordChar(rest[0])
    ensures RunLength(w + rest) == |w|
    decreases |w|
  {
    if w == [] {
      assert w + rest == rest;
    } else {
      assert (w + rest)[1..] == w[1..] + rest;
      RunLengthOfWord(w[1..], rest);
    }
  }

  /** A non-empty word followed by a non-word character (or nothing) is the next token. */
  lemma TokensOfWord(w: string, rest: string)
    requires |w| > 0
    requires forall i :: 0 <= i < |w| ==> IsWordChar(w[i])
    requires rest == [] || !IsWordChar(rest[0])
    ensures Tokens(w + rest) == [w] + Tokens(rest)
  {
    RunLengthOfWord(w, rest);
    assert (w + rest)[..|w|] == w;
    assert (w + rest)[|w|..] == rest;
  }

  /** A leading non-word character produces no token. */
  lemma TokensOfSeparator(c: char, rest: string)
    requires !IsWordChar(c)
    ensures Tokens([c] + rest) == Tokens(rest)
  {
    assert ([c] + rest)[1..] == rest;
  }
}
