/**
 * `mapreduce_word_count`: cut the text into fixed-width slices, count the
 * words of each slice (`map_words`), and add the partial Counters together
 * (`reduce_counts`). The thread pool is an ordered, sequential map: the
 * workers share nothing and `executor.map` returns results in input order.
 */
module MapReduce {
  import opened Seqs
  import opened Faults
  import opened Text
  import opened Tokenizer
  import opened Counter

  // ---------------------------------------------------------------------
  // Partitioner.

  /** Python's `a // b`: the floor of the quotient, also for a negative divisor. */
  function FloorDiv(a: int, b: int): (q: int)
    requires b != 0
    ensures b > 0 ==> q * b <= a < q * b + b
    ensures b < 0 ==> q * b + b < a <= q * b
  {
    if b > 0 then a / b else (-a) / (-b)
  }

  /** `[text[j:j + w] for j in range(i, len(text), w)]`, the slice clamped at the end of the text. */
  function Chunks(text: string, i: nat, w: nat): seq<string>
    requires w > 0
    decreases |text| - i
  {
    if i >= |text| then [] else [text[i..Min(i + w, |text|)]] + Chunks(text, i + w, w)
  }

  /**
   * Lines 30-31: the slice width is `len(text) // num_threads`. A zero
   * divisor and a zero width raise; a negative width makes the `range`
   * empty.
   */
  function Partition(text: string, workers: int): Result<seq<string>>
  {
    if workers == 0 then Err(ZeroDivision)
    else
      var w := FloorDiv(|text|, workers);
      if w == 0 then Err(ZeroSliceStep)
      else if w < 0 then Ok([])
      else Ok(Chunks(text, 0, w))
  }

  // ---------------------------------------------------------------------
  // Mapper, reducer and the pipeline.

  /** `map_words`: Counter of the tokens of the lowered text. */
  function MapWords(text: string): Table
  {
    FromTokens(Tokens(Lower(text)))
  }

  /** `list(executor.map(map_words, chunks))`: one table per chunk, in chunk order. */
  function MapAll(chunks: seq<string>): (ts: seq<Table>)
    ensures |ts| == |chunks|
    ensures forall i :: 0 <= i < |chunks| ==> ts[i] == MapWords(chunks[i])
  {
    seq(|chunks|, i requires 0 <= i < |chunks| => MapWords(chunks[i]))
  }

  /** `functools.reduce(lambda x, y: x + y, ...)` from an accumulator over the remaining tables. */
  function FoldAdd(acc: Table, rest: seq<Table>): Table
    decreases |rest|
  {
    if rest == [] then acc else FoldAdd(Add(acc, rest[0]), rest[1..])
  }

  /** `reduce_counts`: a left fold with no initial value, which raises on an empty list. */
  function ReduceCounts(tables: seq<Table>): (r: Result<Table>)
    ensures r.Err? <==> tables == []
    ensures r.Err? ==> r.fault == EmptyReduce
  {
    if tables == [] then Err(EmptyReduce) else Ok(FoldAdd(tables[0], tables[1..]))
  }

  /** `mapreduce_word_count(text, num_threads)`. */
  function WordCount(text: string, workers: int): Result<Table>
  {
    match Partition(text, workers)
    case Err(f) => Err(f)
    case Ok(chunks) =>
      if workers <= 0 then Err(NonPositiveWorkers)  // ThreadPoolExecutor(max_workers <= 0)
      else ReduceCounts(MapAll(chunks))
  }

  // ---------------------------------------------------------------------
  // Sums over a list of partial tables.

  function BagSum(ts: seq<Table>): multiset<string>
  {
    if ts == [] then multiset{} else Bag(ts[0]) + BagSum(ts[1..])
  }

  /** The sum of the counts of `k` across the tables. */
  function CountSum(ts: seq<Table>, k: string): nat
  {
    if ts == [] then 0 else Lookup(ts[0], k) + CountSum(ts[1..], k)
  }

  /** The sum of the totals of the tables. */
  function TotalSum(ts: seq<Table>): nat
  {
    if ts == [] then 0 else Total(ts[0]) + TotalSum(ts[1..])
  }

  /** The number of maximal word-character runs summed over the chunks. */
  function RunSum(chunks: seq<string>): nat
  {
    if chunks == [] then 0 else RunStarts(chunks[0], false) + RunSum(chunks[1..])
  }

  /** The token lists the workers produce, one per chunk, in chunk order. */
  function Fragments(chunks: seq<string>): (fs: seq<seq<string>>)
    ensures |fs| == |chunks|
  {
    seq(|chunks|, i requires 0 <= i < |chunks| => Tokens(Lower(chunks[i])))
  }

  // ---------------------------------------------------------------------
  // Partitioner properties.

  lemma {:induction false} MulMono(a: int, b: int, w: nat)
    requires a <= b
    ensures a * w <= b * w
    decreases b - a
  {
    if a < b {
      MulMono(a, b - 1, w);
      assert b * w == (b - 1) * w + w;
    }
  }

  /** Unfolding `Chunks` at a start inside the text. */
  lemma ChunksCons(text: string, i: nat, w: nat)
    requires w > 0 && i < |text|
    ensures Chunks(text, i, w) == [text[i..Min(i + w, |text|)]] + Chunks(text, i + w, w)
    ensures i + w >= |text| ==> Chunks(text, i + w, w) == []
  {
  }

  /** The slices join back to the text. */
  lemma {:induction false} ChunksFlatten(text: string, i: nat, w: nat)
    requires w > 0 && i <= |text|
    ensures Flatten(Chunks(text, i, w)) == text[i..]
    decreases |text| - i
  {
    if i < |text| {
      var head := text[i..Min(i + w, |text|)];
      ChunksCons(text, i, w);
      if i + w >= |text| {
        assert Flatten([head]) == head + Flatten([]);
      } else {
        var rest := Chunks(text, i + w, w);
        ChunksFlatten(text, i + w, w);
        assert ([head] + rest)[1..] == rest;
        assert text[i..] == head + text[i + w..];
      }
    }
  }

  /** There are `ceil((len - i) / w)` slices. */
  lemma {:induction false} ChunksCount(text: string, i: nat, w: nat)
    requires w > 0 && i <= |text|
    ensures var n := |Chunks(text, i, w)|; (n - 1) * w < |text| - i <= n * w
    decreases |text| - i
  {
    if i < |text| {
      ChunksCons(text, i, w);
      if i + w < |text| {
        ChunksCount(text, i + w, w);
        var n := |Chunks(text, i + w, w)|;
        assert (n + 1) * w == n * w + w;
      }
    }
  }

  /** Every slice but the last has length `w`; every slice has length between 1 and `w`. */
  lemma {:induction false} ChunksLengths(text: string, i: nat, w: nat)
    requires w > 0 && i <= |text|
    ensures forall k :: 0 <= k < |Chunks(text, i, w)| - 1 ==> |Chunks(text, i, w)[k]| == w
    ensures forall k :: 0 <= k < |Chunks(text, i, w)| ==> 1 <= |Chunks(text, i, w)[k]| <= w
    decreases |text| - i
  {
    if i < |text| {
      var head := text[i..Min(i + w, |text|)];
      ChunksCons(text, i, w);
      if i + w < |text| {
        var rest := Chunks(text, i + w, w);
        ChunksLengths(text, i + w, w);
        forall k | 0 < k < |rest| + 1 ensures ([head] + rest)[k] == rest[k - 1] { }
      }
    }
  }

  /**
   * With `0 < P <= len(text)` the width `w = len // P` is at least 1; the
   * slices join back to the text; every slice but the last has length `w`
   * and the last between 1 and `w`; there are `ceil(len / w)` slices, which
   * is at least `P` and may be more.
   */
  lemma PartitionShape(text: string, workers: int)
    requires 0 < workers <= |text|
    ensures Partition(text, workers).Ok?
    ensures var chunks := Partition(text, workers).value;
            var w := |text| / workers;
            && w >= 1
            && Flatten(chunks) == text
            && |chunks| >= workers
            && (|chunks| - 1) * w < |text| <= |chunks| * w
            && (forall k :: 0 <= k < |chunks| - 1 ==> |chunks[k]| == w)
            && 1 <= |chunks[|chunks| - 1]| <= w
  {
    var w := |text| / workers;
    WidthBounds(|text|, workers);
    assert FloorDiv(|text|, workers) == w;
    var chunks := Chunks(text, 0, w);
    assert Partition(text, workers) == Ok(chunks);
    ChunksFlatten(text, 0, w);
    ChunksCount(text, 0, w);
    ChunksLengths(text, 0, w);
    SliceCountBound(|text|, workers, w, |chunks|);
  }

  /** With `0 < P <= len` the width `len / P` is at least 1 and `P` slices of it fit in the text. */
  lemma WidthBounds(len: nat, workers: int)
    requires 0 < workers <= len
    ensures len / workers >= 1
    ensures workers * (len / workers) <= len
  {
    var w := len / workers;
    assert workers * w <= len;
    MulMono(1, w, workers);
  }

  /** `n` slices of width `w` cover `len`, and `P` of them fit in it: so `n >= P`. */
  lemma SliceCountBound(len: nat, workers: int, w: nat, n: nat)
    requires 0 < workers && w >= 1
    requires workers * w <= len
    requires len <= n * w
    ensures n >= workers
  {
    if n < workers {
      MulMono(n, workers, w);
      assert (workers - 1) * w + w == workers * w;
      MulMono(n, workers - 1, w);
    }
  }

  /** The slice width `len // P` is zero or negative exactly on these inputs. */
  lemma FloorDivOfLength(len: nat, workers: int)
    requires workers != 0
    ensures FloorDiv(len, workers) == 0 <==> (0 < workers && len < workers) || (workers < 0 && len == 0)
    ensures FloorDiv(len, workers) < 0 <==> workers < 0 && len > 0
  {
    var q := FloorDiv(len, workers);
    if workers > 0 {
      if len < workers {
        assert q == 0;
      } else {
        assert q >= 1;
      }
    } else {
      var d := -workers;
      if len == 0 {
        assert q == 0;
      } else {
        assert (-(len as int)) / d < 0;
      }
    }
  }

  /** Every failure of the pipeline, with the exception it raises; it succeeds exactly when `0 < P <= len(text)`. */
  lemma WordCountOutcome(text: string, workers: int)
    ensures workers == 0 ==> WordCount(text, workers) == Err(ZeroDivision)
    ensures (0 < workers && |text| < workers) || (workers < 0 && |text| == 0) ==>
              WordCount(text, workers) == Err(ZeroSliceStep)
    ensures workers < 0 && |text| > 0 ==> WordCount(text, workers) == Err(NonPositiveWorkers)
    ensures WordCount(text, workers).Ok? <==> 0 < workers <= |text|
  {
    if 0 < workers <= |text| {
      PartitionShape(text, workers);
    } else if workers != 0 {
      FloorDivOfLength(|text|, workers);
    }
  }

  // ---------------------------------------------------------------------
  // Mapper properties.

  /**
   * `map_words(t)`: a valid table whose keys are non-empty, made of word
   * characters and free of upper case; each count is the number of
   * occurrences of the token, and the counts add up to the number of
   * maximal word-character runs of `t`.
   */
  lemma MapWordsSpec(text: string)
    ensures Valid(MapWords(text))
    ensures forall k :: HasKey(MapWords(text), k) ==>
              |k| > 0 && forall c :: c in k ==> IsWordChar(c) && !IsUpper(c)
    ensures forall k :: Lookup(MapWords(text), k) == multiset(Tokens(Lower(text)))[k]
    ensures Total(MapWords(text)) == RunStarts(text, false)
  {
    MapWordsKeys(text);
    MapWordsTotal(text);
  }

  lemma MapWordsKeys(text: string)
    ensures Valid(MapWords(text))
    ensures forall k :: HasKey(MapWords(text), k) ==>
              |k| > 0 && forall c :: c in k ==> IsWordChar(c) && !IsUpper(c)
    ensures forall k :: Lookup(MapWords(text), k) == multiset(Tokens(Lower(text)))[k]
  {
    var ws := Tokens(Lower(text));
    FromTokensBag(ws);
    forall k | HasKey(MapWords(text), k)
      ensures |k| > 0 && forall c :: c in k ==> IsWordChar(c) && !IsUpper(c)
    {
      TokenShape(text, k);
    }
  }

  lemma TokenShape(text: string, k: string)
    requires k in Tokens(Lower(text))
    ensures |k| > 0 && forall c :: c in k ==> IsWordChar(c) && !IsUpper(c)
  {
    LowerTokens(text);
    TokenOfLowered(Tokens(Lower(text)), k);
  }

  /** A member of a token list that holds only non-empty, lower-case word-character tokens is such a token. */
  lemma TokenOfLowered(ws: seq<string>, k: string)
    requires k in ws
    requires forall i :: 0 <= i < |ws| ==> |ws[i]| > 0
    requires forall i, c :: 0 <= i < |ws| && c in ws[i] ==> IsWordChar(c)
    requires forall w :: w in ws ==> forall c :: c in w ==> !IsUpper(c)
    ensures |k| > 0 && forall c :: c in k ==> IsWordChar(c) && !IsUpper(c)
  {
    var i :| 0 <= i < |ws| && ws[i] == k;
    forall c | c in k ensures IsWordChar(c) {
      assert c in ws[i];
    }
  }

  lemma MapWordsTotal(text: string)
    ensures Total(MapWords(text)) == RunStarts(text, false)
  {
    var ws := Tokens(Lower(text));
    FromTokensBag(ws);
    TotalIsBagSize(MapWords(text));
    TokenCount(Lower(text));
    RunStartsLower(text, false);
  }

  // ---------------------------------------------------------------------
  // Reducer properties.

  lemma {:induction false} FoldAddValid(acc: Table, rest: seq<Table>)
    requires UniqueKeys(acc)
    requires forall i :: 0 <= i < |rest| ==> UniqueKeys(rest[i])
    ensures UniqueKeys(FoldAdd(acc, rest))
    ensures Valid(acc) ==> Valid(FoldAdd(acc, rest))
    decreases |rest|
  {
    if rest != [] {
      var tail := rest[1..];
      AddValid(acc, rest[0]);
      assert forall i :: 0 <= i < |tail| ==> tail[i] == rest[i + 1];
      FoldAddValid(Add(acc, rest[0]), tail);
    }
  }

  /** One step of `FoldAddBag`: from the fold over the tail to the fold over the whole list. */
  lemma FoldAddBagStep(acc: Table, rest: seq<Table>)
    requires rest != [] && UniqueKeys(acc) && UniqueKeys(rest[0])
    requires Bag(FoldAdd(Add(acc, rest[0]), rest[1..])) == Bag(Add(acc, rest[0])) + BagSum(rest[1..])
    ensures Bag(FoldAdd(acc, rest)) == Bag(acc) + BagSum(rest)
  {
    AddSums(acc, rest[0]);
  }

  /** Folding the additions over the tables adds up their multisets. */
  lemma {:induction false} FoldAddBag(acc: Table, rest: seq<Table>)
    requires UniqueKeys(acc)
    requires forall i :: 0 <= i < |rest| ==> UniqueKeys(rest[i])
    ensures Bag(FoldAdd(acc, rest)) == Bag(acc) + BagSum(rest)
    decreases |rest|
  {
    if rest != [] {
      var tail := rest[1..];
      AddValid(acc, rest[0]);
      assert forall i :: 0 <= i < |tail| ==> tail[i] == rest[i + 1];
      FoldAddBag(Add(acc, rest[0]), tail);
      FoldAddBagStep(acc, rest);
    }
  }

  lemma {:induction false} BagSumCount(ts: seq<Table>, k: string)
    requires forall i :: 0 <= i < |ts| ==> UniqueKeys(ts[i])
    ensures BagSum(ts)[k] == CountSum(ts, k)
  {
    if ts != [] {
      BagLookup(ts[0], k);
      BagSumCount(ts[1..], k);
    }
  }

  lemma {:induction false} BagSumSize(ts: seq<Table>)
    ensures |BagSum(ts)| == TotalSum(ts)
  {
    if ts != [] {
      TotalIsBagSize(ts[0]);
      BagSumSize(ts[1..]);
    }
  }

  lemma {:induction false} CountSumPresent(ts: seq<Table>, k: string)
    requires forall i :: 0 <= i < |ts| ==> Valid(ts[i])
    ensures CountSum(ts, k) > 0 <==> exists i :: 0 <= i < |ts| && HasKey(ts[i], k)
  {
    if ts != [] {
      CountSumPresent(ts[1..], k);
      PresentIffCounted(ts[0], k);
      if exists i :: 0 <= i < |ts| && HasKey(ts[i], k) {
        var i :| 0 <= i < |ts| && HasKey(ts[i], k);
        if i > 0 {
          assert HasKey(ts[1..][i - 1], k);
        }
      }
      if exists i :: 0 <= i < |ts[1..]| && HasKey(ts[1..][i], k) {
        var i :| 0 <= i < |ts[1..]| && HasKey(ts[1..][i], k);
        assert HasKey(ts[i + 1], k);
      }
    }
  }

  /**
   * `reduce_counts` over a non-empty list of valid tables: the result is
   * valid; each token's count is the sum of its counts across the tables;
   * its keys are exactly the union of their keys, so no token is dropped;
   * and its total is the sum of their totals.
   */
  lemma ReduceSpec(ts: seq<Table>)
    requires |ts| > 0
    requires forall i :: 0 <= i < |ts| ==> Valid(ts[i])
    ensures ReduceCounts(ts).Ok?
    ensures Valid(ReduceCounts(ts).value)
    ensures Bag(ReduceCounts(ts).value) == BagSum(ts)
    ensures forall k :: Lookup(ReduceCounts(ts).value, k) == CountSum(ts, k)
    ensures forall k :: HasKey(ReduceCounts(ts).value, k) <==> exists i :: 0 <= i < |ts| && HasKey(ts[i], k)
    ensures Total(ReduceCounts(ts).value) == TotalSum(ts)
  {
    var r := ReduceCounts(ts).value;
    FoldAddValid(ts[0], ts[1..]);
    FoldAddBag(ts[0], ts[1..]);
    assert BagSum(ts) == Bag(ts[0]) + BagSum(ts[1..]);
    forall k
      ensures Lookup(r, k) == CountSum(ts, k)
      ensures HasKey(r, k) <==> exists i :: 0 <= i < |ts| && HasKey(ts[i], k)
    {
      BagLookup(r, k);
      BagSumCount(ts, k);
      PresentIffCounted(r, k);
      CountSumPresent(ts, k);
    }
    TotalIsBagSize(r);
    BagSumSize(ts);
  }

  lemma {:induction false} BagSumAppend(a: seq<Table>, b: seq<Table>)
    ensures BagSum(a + b) == BagSum(a) + BagSum(b)
  {
    if a == [] {
      assert a + b == b;
    } else {
      assert (a + b)[1..] == a[1..] + b;
      BagSumAppend(a[1..], b);
    }
  }

  lemma {:induction false} BagSumPermutation(ts: seq<Table>, us: seq<Table>)
    requires multiset(ts) == multiset(us)
    ensures BagSum(ts) == BagSum(us)
    decreases |ts|
  {
    if ts == [] {
      assert |us| == |multiset(us)| == 0;
    } else {
      assert ts[0] in multiset(us);
      var j :| 0 <= j < |us| && us[j] == ts[0];
      var others := us[..j] + us[j + 1..];
      assert us == us[..j] + [us[j]] + us[j + 1..];
      assert ts == [ts[0]] + ts[1..];
      assert multiset(ts) == multiset{ts[0]} + multiset(ts[1..]);
      assert multiset(us) == multiset(us[..j]) + multiset{us[j]} + multiset(us[j + 1..]);
      assert multiset(others) == multiset(us[..j]) + multiset(us[j + 1..]);
      forall z ensures multiset(ts[1..])[z] == multiset(others)[z] {
        assert multiset(ts)[z] == multiset(us)[z];
      }
      assert multiset(ts[1..]) == multiset(others);
      BagSumPermutation(ts[1..], others);
      BagSumAppend(us[..j] + [us[j]], us[j + 1..]);
      BagSumAppend(us[..j], [us[j]]);
      BagSumAppend(us[..j], us[j + 1..]);
      assert BagSum([us[j]]) == Bag(us[j]);
    }
  }

  /**
   * Merging is order-independent: any permutation of the partial tables
   * reduces to the same token-to-count mapping with the same key set.
   */
  lemma ReduceOrderIndependent(ts: seq<Table>, us: seq<Table>)
    requires |ts| > 0
    requires forall i :: 0 <= i < |ts| ==> Valid(ts[i])
    requires multiset(ts) == multiset(us)
    ensures ReduceCounts(ts).Ok? && ReduceCounts(us).Ok?
    ensures Bag(ReduceCounts(ts).value) == Bag(ReduceCounts(us).value)
    ensures forall k :: Lookup(ReduceCounts(ts).value, k) == Lookup(ReduceCounts(us).value, k)
    ensures forall k :: HasKey(ReduceCounts(ts).value, k) <==> HasKey(ReduceCounts(us).value, k)
  {
    assert |us| == |multiset(us)| == |multiset(ts)| == |ts|;
    forall i | 0 <= i < |us| ensures Valid(us[i]) {
      assert us[i] in multiset(ts);
    }
    ReduceSpec(ts);
    ReduceSpec(us);
    BagSumPermutation(ts, us);
    SameBagSameCounts(ReduceCounts(ts).value, ReduceCounts(us).value);
  }

  // ---------------------------------------------------------------------
  // The whole pipeline.

  lemma {:induction false} FoldAddFromTokens(a: seq<string>, ts: seq<Table>, ws: seq<seq<string>>)
    requires |ts| == |ws|
    requires forall i :: 0 <= i < |ts| ==> ts[i] == FromTokens(ws[i])
    ensures FoldAdd(FromTokens(a), ts) == FromTokens(a + Flatten(ws))
    decreases |ts|
  {
    if ts == [] {
      assert Flatten(ws) == [];
      assert a + Flatten(ws) == a;
    } else {
      var head := a + ws[0];
      var rest := Flatten(ws[1..]);
      assert Flatten(ws) == ws[0] + rest;
      assert head + rest == a + Flatten(ws);
      assert forall i :: 0 <= i < |ts[1..]| ==> ts[1..][i] == FromTokens(ws[1..][i]);
      FoldAddFromTokens(head, ts[1..], ws[1..]);
      AddFromTokens(a, ws[0]);
      calc {
        FoldAdd(FromTokens(a), ts);
        FoldAdd(Add(FromTokens(a), ts[0]), ts[1..]);
        { assert ts[0] == FromTokens(ws[0]); }
        FoldAdd(FromTokens(head), ts[1..]);
        FromTokens(head + rest);
      }
    }
  }

  /**
   * On success the reduced table is, entry for entry and in order, the
   * Counter of all chunk tokens in text order: adding Counters chunk by
   * chunk keeps first-occurrence order.
   */
  lemma WordCountIsCounterOfFragments(text: string, workers: int)
    requires 0 < workers <= |text|
    ensures Partition(text, workers).Ok?
    ensures WordCount(text, workers) == Ok(FromTokens(Flatten(Fragments(Partition(text, workers).value))))
  {
    PartitionShape(text, workers);
    var chunks := Partition(text, workers).value;
    var fs := Fragments(chunks);
    var ts := MapAll(chunks);
    assert Flatten(fs) == fs[0] + Flatten(fs[1..]);
    FoldAddFromTokens(fs[0], ts[1..], fs[1..]);
  }

  lemma {:induction false} TotalSumRuns(chunks: seq<string>)
    ensures TotalSum(MapAll(chunks)) == RunSum(chunks)
  {
    if chunks != [] {
      MapWordsTotal(chunks[0]);
      TotalSumRuns(chunks[1..]);
      assert MapAll(chunks)[0] == MapWords(chunks[0]);
      assert MapAll(chunks)[1..] == MapAll(chunks[1..]);
    }
  }

  /**
   * `mapreduce_word_count(text, P)` with `0 < P <= len(text)`: a valid table
   * whose keys are non-empty lower-case word-character strings; each count
   * is the sum of that token's counts over the chunks, so the total number
   * of tokens is conserved: it equals the number of word runs summed over
   * the chunks.
   */
  lemma WordCountSpec(text: string, workers: int)
    requires 0 < workers <= |text|
    ensures WordCount(text, workers).Ok?
    ensures var r := WordCount(text, workers).value;
            var partials := MapAll(Partition(text, workers).value);
            && Valid(r)
            && (forall k :: HasKey(r, k) ==> |k| > 0 && forall c :: c in k ==> IsWordChar(c) && !IsUpper(c))
            && (forall k :: Lookup(r, k) == CountSum(partials, k))
            && Total(r) == TotalSum(partials) == RunSum(Partition(text, workers).value)
  {
    PartitionShape(text, workers);
    var chunks := Partition(text, workers).value;
    var partials := MapAll(chunks);
    forall i | 0 <= i < |partials| ensures Valid(partials[i]) {
      MapWordsSpec(chunks[i]);
    }
    ReduceSpec(partials);
    var r := WordCount(text, workers).value;
    forall k | HasKey(r, k) ensures |k| > 0 && forall c :: c in k ==> IsWordChar(c) && !IsUpper(c) {
      var i :| 0 <= i < |partials| && HasKey(partials[i], k);
      MapWordsSpec(chunks[i]);
    }
    TotalSumRuns(chunks);
  }

  /**
   * The reduced table lists its tokens in order of first occurrence in the
   * stream of chunk tokens, which is the order `most_common` keeps between
   * equal counts.
   */
  lemma WordCountOrder(text: string, workers: int)
    requires 0 < workers <= |text|
    ensures WordCount(text, workers).Ok?
    ensures var r := WordCount(text, workers).value;
            var stream := Flatten(Fragments(Partition(text, workers).value));
            && (forall i :: 0 <= i < |r| ==> r[i].token in stream)
            && (forall i, j :: 0 <= i < j < |r| ==>
                  FirstIndex(stream, r[i].token) < FirstIndex(stream, r[j].token))
  {
    WordCountIsCounterOfFragments(text, workers);
    FromTokensOrder(Flatten(Fragments(Partition(text, workers).value)));
  }

  /** With one worker the only chunk is the whole text, so the result is `map_words(text)`. */
  lemma SingleWorker(text: string)
    requires |text| > 0
    ensures WordCount(text, 1) == Ok(MapWords(text))
  {
    PartitionShape(text, 1);
    var chunks := Partition(text, 1).value;
    assert |text| / 1 == |text|;
    assert |chunks| == 1;
    assert chunks[0] == text by {
      assert Flatten(chunks) == chunks[0] + Flatten(chunks[1..]);
    }
  }

  lemma FourSingleChunks()
    ensures Partition("aaaa", 4) == Ok(["a", "a", "a", "a"])
  {
    var text := "aaaa";
    assert FloorDiv(|text|, 4) == 1;
    assert text[3..4] == text[2..3] == text[1..2] == text[0..1] == "a";
    assert Chunks(text, 4, 1) == [];
    assert Chunks(text, 3, 1) == ["a"];
    assert Chunks(text, 2, 1) == ["a", "a"];
    assert Chunks(text, 1, 1) == ["a", "a", "a"];
    assert Chunks(text, 0, 1) == ["a", "a", "a", "a"];
  }

  lemma TokensOfA()
    ensures Tokens(Lower("a")) == ["a"]
  {
    var s := "a";
    assert |Lower(s)| == 1 && Lower(s)[0] == 'a';
    assert Lower(s) == s;
    assert s[1..] == [] && s[..1] == s;
    assert RunLength(s) == 1;
    assert Tokens(s) == [s] + Tokens(s[1..]);
  }

  lemma FourAs()
    ensures FromTokens(["a", "a", "a", "a"]) == [Entry("a", 4)]
  {
    assert FromTokens(["a"]) == [Entry("a", 1)];
    assert ["a", "a"][..1] == ["a"];
    assert FromTokens(["a", "a"]) == [Entry("a", 2)];
    assert ["a", "a", "a"][..2] == ["a", "a"];
    assert FromTokens(["a", "a", "a"]) == [Entry("a", 3)];
    assert ["a", "a", "a", "a"][..3] == ["a", "a", "a"];
  }

  /** A word that straddles the cuts is counted as fragments: "aaaa" with 4 workers gives {"a": 4}. */
  lemma StraddledWord()
    ensures WordCount("aaaa", 4) == Ok([Entry("a", 4)])
  {
    FourSingleChunks();
    var chunks := ["a", "a", "a", "a"];
    var fs := [["a"], ["a"], ["a"], ["a"]];
    assert Fragments(chunks) == fs by {
      TokensOfA();
    }
    assert Flatten(fs) == ["a", "a", "a", "a"] by {
      assert fs[1..] == [["a"], ["a"], ["a"]];
      assert fs[1..][1..] == [["a"], ["a"]];
      assert fs[1..][1..][1..] == [["a"]];
    }
    WordCountIsCounterOfFragments("aaaa", 4);
    FourAs();
  }

  // ---------------------------------------------------------------------
  // Case: `text.lower()` makes the count case-insensitive.

  /** Texts that agree up to the case of their letters have the same `map_words`, entry for entry. */
  lemma MapWordsIgnoresCase(s: string, t: string)
    requires EqualIgnoringCase(s, t)
    ensures MapWords(s) == MapWords(t)
  {
    LowerIgnoresCase(s, t);
  }

  lemma TokensOfTheThe()
    ensures Tokens(Lower("The the")) == ["the", "the"]
  {
    var s := "The the";
    assert Lower(s) == "the the" by {
      assert Lower(s)[0] == ToLower('T') == 't';
      forall i | 1 <= i < |s| ensures Lower(s)[i] == "the the"[i] {
        assert !IsUpper(s[i]);
      }
    }
    assert "the the" == "the" + ([' '] + ("the" + ""));
    TokensOfWord("the", "");
    TokensOfSeparator(' ', "the" + "");
    TokensOfWord("the", [' '] + ("the" + ""));
  }

  /** "The" and "the" are one token: `map_words("The the")` is `{"the": 2}`. */
  lemma CaseVariantsMerge()
    ensures MapWords("The the") == [Entry("the", 2)]
  {
    TokensOfTheThe();
    assert ["the", "the"][..1] == ["the"];
    assert FromTokens(["the"]) == [Entry("the", 1)];
  }
}
