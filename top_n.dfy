/**
 * `word_counts.most_common(top_n)` and the unpacking `words, counts =
 * zip(*top_words)` of `visualize_top_words`. `most_common` is
 * `heapq.nlargest(n, items, key=count)`, which returns the same list as a
 * stable sort by count, descending, cut to its first `n` entries: between
 * equal counts the entry that comes first in the table wins. For `n <= 0`
 * it returns the empty list.
 */
module TopN {
  import opened Seqs
  import opened Faults
  import opened Counter
  import opened Text
  import opened Tokenizer
  import opened MapReduce

  predicate NonIncreasing(s: seq<Entry>)
  {
    forall i, j :: 0 <= i < j < |s| ==> s[i].count >= s[j].count
  }

  /** The entries of `s` whose count is `c`, in their order in `s`. */
  function WithCount(s: seq<Entry>, c: nat): seq<Entry>
  {
    if s == [] then [] else (if s[0].count == c then [s[0]] else []) + WithCount(s[1..], c)
  }

  /** Puts `e` in front of the first entry whose count does not exceed its own. */
  function InsertByCount(e: Entry, s: seq<Entry>): (r: seq<Entry>)
    requires NonIncreasing(s)
    ensures NonIncreasing(r)
    ensures |r| == |s| + 1
    ensures multiset(r) == multiset(s) + multiset{e}
    ensures r[0] == e || (s != [] && r[0] == s[0])
  {
    if s == [] || s[0].count <= e.count then [e] + s
    else
      var r' := InsertByCount(e, s[1..]);
      InsertStep(e, s, r');
      [s[0]] + r'
  }

  /** Inserting behind a head with a larger count: the head stays in front. */
  lemma InsertStep(e: Entry, s: seq<Entry>, r': seq<Entry>)
    requires NonIncreasing(s) && s != [] && e.count < s[0].count
    requires NonIncreasing(r') && multiset(r') == multiset(s[1..]) + multiset{e}
    requires r'[0] == e || (s[1..] != [] && r'[0] == s[1..][0])
    ensures NonIncreasing([s[0]] + r')
    ensures multiset([s[0]] + r') == multiset(s) + multiset{e}
  {
    assert r'[0].count <= s[0].count by {
      if r'[0] != e { assert s[1..][0] == s[1]; }
    }
    ConsNonIncreasing(s[0], r');
    assert s == [s[0]] + s[1..];
  }

  /** A head no smaller than the first count of a non-increasing list keeps it non-increasing. */
  lemma ConsNonIncreasing(h: Entry, r: seq<Entry>)
    requires NonIncreasing(r)
    requires r != [] ==> r[0].count <= h.count
    ensures NonIncreasing([h] + r)
  {
    forall i, j | 0 <= i < j < |[h] + r| ensures ([h] + r)[i].count >= ([h] + r)[j].count {
      if i == 0 {
        assert ([h] + r)[j] == r[j - 1];
        assert r[0].count >= r[j - 1].count || j - 1 == 0;
      }
    }
  }

  /** `sorted(t, key=count, reverse=True)`: the entries by count, descending, stable. */
  function SortByCount(t: seq<Entry>): (r: seq<Entry>)
    ensures NonIncreasing(r)
    ensures |r| == |t|
    ensures multiset(r) == multiset(t)
  {
    if t == [] then [] else
      MultisetCons(t);
      InsertByCount(t[0], SortByCount(t[1..]))
  }

  lemma MultisetCons(t: seq<Entry>)
    requires t != []
    ensures multiset(t) == multiset(t[1..]) + multiset{t[0]}
  {
    assert t == [t[0]] + t[1..];
  }

  /** `most_common(n)`. */
  function MostCommon(t: Table, n: int): seq<Entry>
  {
    if n <= 0 then [] else var s := SortByCount(t); s[..Min(n, |s|)]
  }

  function Counts(s: seq<Entry>): (cs: seq<nat>)
    ensures |cs| == |s|
    ensures forall i :: 0 <= i < |s| ==> cs[i] == s[i].count
  {
    if s == [] then [] else [s[0].count] + Counts(s[1..])
  }

  /** `words, counts = zip(*t.most_common(n))`: the two columns, or the unpacking error on an empty selection. */
  function TopWords(t: Table, n: int): Result<(seq<string>, seq<nat>)>
  {
    var top := MostCommon(t, n);
    if top == [] then Err(NothingToUnpack) else Ok((Keys(top), Counts(top)))
  }

  // ---------------------------------------------------------------------
  // Stability.

  lemma {:induction false} InsertStable(e: Entry, s: seq<Entry>, c: nat)
    requires NonIncreasing(s)
    ensures WithCount(InsertByCount(e, s), c) == if e.count == c then [e] + WithCount(s, c) else WithCount(s, c)
  {
    var r := InsertByCount(e, s);
    if s == [] || s[0].count <= e.count {
      assert r == [e] + s && r[1..] == s;
    } else {
      var r' := InsertByCount(e, s[1..]);
      InsertStable(e, s[1..], c);
      assert r == [s[0]] + r' && r[1..] == r';
    }
  }

  /** Sorting keeps the table order among entries with equal counts. */
  lemma {:induction false} SortStable(t: seq<Entry>, c: nat)
    ensures WithCount(SortByCount(t), c) == WithCount(t, c)
  {
    if t != [] {
      SortStable(t[1..], c);
      InsertStable(t[0], SortByCount(t[1..]), c);
    }
  }

  lemma {:induction false} WithCountPrefix(s: seq<Entry>, m: nat, c: nat)
    requires m <= |s|
    ensures WithCount(s[..m], c) <= WithCount(s, c)
  {
    if m > 0 {
      WithCountPrefix(s[1..], m - 1, c);
      assert s[..m] == [s[0]] + s[1..][..m - 1];
      assert s[..m][1..] == s[1..][..m - 1];
    }
  }

  // ---------------------------------------------------------------------
  // What most_common promises.

  lemma MostCommonLength(t: Table, n: int)
    requires n > 0
    ensures |MostCommon(t, n)| == Min(n, |t|)
  {
    assert |SortByCount(t)| == |t|;
  }

  /** A prefix holds no more of each entry than the whole. */
  lemma PrefixMultiset(s: seq<Entry>, m: nat)
    requires m <= |s|
    ensures multiset(s[..m]) <= multiset(s)
  {
    assert s == s[..m] + s[m..];
  }

  lemma MostCommonEntries(t: Table, n: int)
    requires n > 0
    ensures multiset(MostCommon(t, n)) <= multiset(t)
    ensures n >= |t| ==> multiset(MostCommon(t, n)) == multiset(t)
  {
    var s := SortByCount(t);
    PrefixMultiset(s, Min(n, |s|));
    if n >= |t| {
      assert s[..Min(n, |s|)] == s;
    }
  }

  /** In a non-increasing list, an entry outside the first `m` has a count at most that of entry `m - 1`. */
  lemma SortedTail(s: seq<Entry>, m: nat, e: Entry)
    requires NonIncreasing(s)
    requires 0 < m <= |s|
    requires e in s && e !in s[..m]
    ensures e.count <= s[m - 1].count
  {
    forall i | 0 <= i < m ensures s[i] != e {
      assert s[..m][i] == s[i];
    }
    var j :| 0 <= j < |s| && s[j] == e;
    assert j >= m;
  }

  /** No entry of `t` left out of the first `m` of its sorted permutation `s` outranks entry `m - 1`. */
  lemma SortedPrefixThreshold(t: seq<Entry>, s: seq<Entry>, m: nat)
    requires NonIncreasing(s) && multiset(s) == multiset(t)
    requires 0 < m <= |s|
    ensures forall e :: e in t && e !in s[..m] ==> e.count <= s[m - 1].count
  {
    forall e | e in t && e !in s[..m] ensures e.count <= s[m - 1].count {
      assert e in multiset(t);
      SortedTail(s, m, e);
    }
  }

  lemma MostCommonThreshold(t: Table, n: int)
    requires n > 0
    ensures var r := MostCommon(t, n);
            forall e :: e in t && e !in r ==> e.count <= r[|r| - 1].count
  {
    var s := SortByCount(t);
    if t != [] {
      SortedPrefixThreshold(t, s, Min(n, |s|));
    }
  }

  lemma MostCommonStable(t: Table, n: int, c: nat)
    requires n > 0
    ensures WithCount(MostCommon(t, n), c) <= WithCount(t, c)
  {
    var s := SortByCount(t);
    WithCountPrefix(s, Min(n, |s|), c);
    SortStable(t, c);
  }

  /**
   * For `n > 0`, `most_common(n)` returns `min(n, len(t))` entries of the
   * table, with counts non-increasing; no entry left out has a count above
   * the last one returned; among equal counts the returned entries are the
   * first ones in table order, in table order; and with `n >= len(t)` every
   * entry is returned.
   */
  lemma MostCommonSpec(t: Table, n: int)
    requires n > 0
    ensures var r := MostCommon(t, n);
            && |r| == Min(n, |t|)
            && multiset(r) <= multiset(t)
            && NonIncreasing(r)
            && (forall e :: e in t && e !in r ==> e.count <= r[|r| - 1].count)
            && (forall c: nat :: WithCount(r, c) <= WithCount(t, c))
            && (n >= |t| ==> multiset(r) == multiset(t))
  {
    MostCommonLength(t, n);
    MostCommonEntries(t, n);
    MostCommonThreshold(t, n);
    forall c: nat ensures WithCount(MostCommon(t, n), c) <= WithCount(t, c) {
      MostCommonStable(t, n, c);
    }
  }

  /** The selection is empty exactly when `n <= 0` or the table is empty, and then the unpacking fails. */
  lemma TopWordsOutcome(t: Table, n: int)
    ensures MostCommon(t, n) == [] <==> n <= 0 || t == []
    ensures TopWords(t, n).Err? <==> n <= 0 || t == []
    ensures TopWords(t, n).Err? ==> TopWords(t, n).fault == NothingToUnpack
    ensures TopWords(t, n).Ok? ==>
              var top := MostCommon(t, n);
              var (words, counts) := TopWords(t, n).value;
              |words| == |counts| == |top| > 0 &&
              forall i :: 0 <= i < |top| ==> words[i] == top[i].token && counts[i] == top[i].count
  {
    if n > 0 {
      MostCommonSpec(t, n);
    }
  }

  // ---------------------------------------------------------------------
  // The tie-break on a small text.

  lemma TokensOfSatMat()
    ensures Tokens(Lower("sat mat")) == ["sat", "mat"]
  {
    var s := "sat mat";
    assert Lower(s) == s by {
      assert forall i :: 0 <= i < |s| ==> !IsUpper(s[i]);
    }
    assert s == "sat" + ([' '] + ("mat" + ""));
    TokensOfWord("mat", "");
    TokensOfSeparator(' ', "mat" + "");
    TokensOfWord("sat", [' '] + ("mat" + ""));
  }

  lemma CounterOfSatMat()
    ensures FromTokens(["sat", "mat"]) == [Entry("sat", 1), Entry("mat", 1)]
  {
    assert ["sat", "mat"][..1] == ["sat"];
    assert FromTokens(["sat"]) == [Entry("sat", 1)];
    assert "sat"[0] != "mat"[0];
    assert [Entry("sat", 1)][1..] == [];
    assert Increment([Entry("sat", 1)], "mat") == [Entry("sat", 1)] + Increment([], "mat");
  }

  lemma SortSatMat()
    ensures MostCommon([Entry("sat", 1), Entry("mat", 1)], 1) == [Entry("sat", 1)]
  {
    var t := [Entry("sat", 1), Entry("mat", 1)];
    assert SortByCount(t[1..]) == [Entry("mat", 1)];
    assert SortByCount(t) == t;
  }

  /**
   * Equal counts are ranked by first occurrence, not alphabetically: in
   * "sat mat" both words occur once and `most_common(1)` picks "sat".
   */
  lemma TieGoesToFirstOccurrence()
    ensures WordCount("sat mat", 1) == Ok([Entry("sat", 1), Entry("mat", 1)])
    ensures MostCommon(WordCount("sat mat", 1).value, 1) == [Entry("sat", 1)]
  {
    SingleWorker("sat mat");
    TokensOfSatMat();
    CounterOfSatMat();
    SortSatMat();
  }
}
