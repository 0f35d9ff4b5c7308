/**
 * Python's `collections.Counter` as used by the word count: a table of
 * (token, count) entries kept in dictionary insertion order. Looking up a
 * missing token gives 0. Its abstract value is the multiset `Bag(t)`.
 */
module Counter {

  datatype Entry = Entry(token: string, count: nat)

  type Table = seq<Entry>

  /** The tokens of a table, in insertion order. */
  function Keys(t: Table): (ks: seq<string>)
    ensures |ks| == |t|
    ensures forall i :: 0 <= i < |t| ==> ks[i] == t[i].token
  {
    if t == [] then [] else [t[0].token] + Keys(t[1..])
  }

  predicate HasKey(t: Table, k: string) { k in Keys(t) }

  /** No token occurs in two entries (dictionary keys are unique). */
  predicate UniqueKeys(t: Table)
  {
    t == [] || (t[0].token !in Keys(t[1..]) && UniqueKeys(t[1..]))
  }

  predicate Positive(t: Table)
  {
    forall i :: 0 <= i < |t| ==> t[i].count > 0
  }

  /** The invariant of every table the word count builds. */
  predicate Valid(t: Table) { UniqueKeys(t) && Positive(t) }

  /** `t[k]`: the count of `k`, or 0 when `k` is missing. */
  function Lookup(t: Table, k: string): nat
  {
    if t == [] then 0 else if t[0].token == k then t[0].count else Lookup(t[1..], k)
  }

  /** Sum of the counts (Counter.total()). */
  function Total(t: Table): nat
  {
    if t == [] then 0 else t[0].count + Total(t[1..])
  }

  /** `n` copies of `k`. */
  function Copies(k: string, n: nat): (m: multiset<string>)
    ensures |m| == n
    ensures forall x :: m[x] == if x == k then n else 0
  {
    if n == 0 then multiset{} else Copies(k, n - 1) + multiset{k}
  }

  /** The multiset a table stands for: each token repeated as often as its count. */
  function Bag(t: Table): multiset<string>
  {
    if t == [] then multiset{} else Copies(t[0].token, t[0].count) + Bag(t[1..])
  }

  // ---------------------------------------------------------------------
  // Counter(words): one increment per word, left to right.

  /** `t[w] += 1`: an existing entry is bumped where it stands, a new token is appended with count 1. */
  function Increment(t: Table, w: string): Table
  {
    if t == [] then [Entry(w, 1)]
    else if t[0].token == w then [Entry(w, t[0].count + 1)] + t[1..]
    else [t[0]] + Increment(t[1..], w)
  }

  /** `Counter(words)`. */
  function FromTokens(ws: seq<string>): Table
  {
    if ws == [] then [] else Increment(FromTokens(ws[..|ws| - 1]), ws[|ws| - 1])
  }

  // ---------------------------------------------------------------------
  // Counter addition `x + y`: the entries of x in order with y's count added
  // (kept when the sum is positive), then the entries of y whose token x
  // lacks (kept when positive).

  function AddLeft(xs: Table, y: Table): Table
  {
    if xs == [] then []
    else
      var n := xs[0].count + Lookup(y, xs[0].token);
      (if n > 0 then [Entry(xs[0].token, n)] else []) + AddLeft(xs[1..], y)
  }

  function AddRight(ys: Table, x: Table): Table
  {
    if ys == [] then []
    else (if !HasKey(x, ys[0].token) && ys[0].count > 0 then [ys[0]] else []) + AddRight(ys[1..], x)
  }

  /** `x + y` for two Counters. */
  function Add(x: Table, y: Table): Table
  {
    AddLeft(x, y) + AddRight(y, x)
  }

  // ---------------------------------------------------------------------
  // Basic facts about tables.

  lemma {:induction false} KeysAppend(a: Table, b: Table)
    ensures Keys(a + b) == Keys(a) + Keys(b)
  {
    if a != [] {
      assert (a + b)[1..] == a[1..] + b;
      KeysAppend(a[1..], b);
    }
  }

  lemma {:induction false} LookupAbsent(t: Table, k: string)
    requires !HasKey(t, k)
    ensures Lookup(t, k) == 0
  {
    if t != [] {
      LookupAbsent(t[1..], k);
    }
  }

  lemma {:induction false} LookupAppend(a: Table, b: Table, k: string)
    ensures Lookup(a + b, k) == if HasKey(a, k) then Lookup(a, k) else Lookup(b, k)
  {
    if a == [] {
      assert a + b == b;
    } else {
      assert (a + b)[1..] == a[1..] + b;
      LookupAppend(a[1..], b, k);
    }
  }

  lemma {:induction false} UniqueAppend(a: Table, b: Table)
    requires UniqueKeys(a) && UniqueKeys(b)
    requires forall k :: HasKey(a, k) ==> !HasKey(b, k)
    ensures UniqueKeys(a + b)
  {
    if a == [] {
      assert a + b == b;
    } else {
      assert (a + b)[1..] == a[1..] + b;
      assert Keys(a) == [a[0].token] + Keys(a[1..]);
      assert HasKey(a, a[0].token);
      KeysAppend(a[1..], b);
      UniqueAppend(a[1..], b);
    }
  }

  /** For a valid table, a token is present exactly when its count is positive. */
  lemma {:induction false} PresentIffCounted(t: Table, k: string)
    requires Valid(t)
    ensures HasKey(t, k) <==> Lookup(t, k) > 0
  {
    if t != [] {
      assert t[0].count > 0;
      assert Keys(t) == [t[0].token] + Keys(t[1..]);
      PresentIffCounted(t[1..], k);
    }
  }

  /** With unique keys, the multiset view counts each token as Lookup does. */
  lemma {:induction false} BagLookup(t: Table, k: string)
    requires UniqueKeys(t)
    ensures Bag(t)[k] == Lookup(t, k)
  {
    if t != [] {
      BagLookup(t[1..], k);
      if t[0].token == k {
        LookupAbsent(t[1..], k);
      }
    }
  }

  /** The total of the counts is the size of the multiset view. */
  lemma {:induction false} TotalIsBagSize(t: Table)
    ensures Total(t) == |Bag(t)|
  {
    if t != [] {
      TotalIsBagSize(t[1..]);
    }
  }

  /** Two unique-keyed tables with the same multiset view agree on every lookup and key. */
  lemma SameBagSameCounts(a: Table, b: Table)
    requires Valid(a) && Valid(b) && Bag(a) == Bag(b)
    ensures forall k :: Lookup(a, k) == Lookup(b, k)
    ensures forall k :: HasKey(a, k) <==> HasKey(b, k)
  {
    forall k ensures Lookup(a, k) == Lookup(b, k) && (HasKey(a, k) <==> HasKey(b, k)) {
      BagLookup(a, k);
      BagLookup(b, k);
      PresentIffCounted(a, k);
      PresentIffCounted(b, k);
    }
  }

  // ---------------------------------------------------------------------
  // Increment and Counter(words).

  lemma {:induction false} IncrementLookup(t: Table, w: string, k: string)
    ensures Lookup(Increment(t, w), k) == Lookup(t, k) + (if k == w then 1 else 0)
  {
    if t != [] && t[0].token != w {
      IncrementLookup(t[1..], w, k);
    }
  }

  lemma {:induction false} IncrementKeys(t: Table, w: string)
    ensures Keys(Increment(t, w)) == if HasKey(t, w) then Keys(t) else Keys(t) + [w]
  {
    if t != [] && t[0].token != w {
      IncrementKeys(t[1..], w);
    }
  }

  lemma {:induction false} IncrementValid(t: Table, w: string)
    requires Valid(t)
    ensures Valid(Increment(t, w))
  {
    if t != [] && t[0].token != w {
      IncrementValid(t[1..], w);
      IncrementKeys(t[1..], w);
    }
  }

  /** Bumping a token of the left part of a concatenation leaves the right part alone. */
  lemma {:induction false} IncrementAppendLeft(a: Table, b: Table, w: string)
    requires HasKey(a, w)
    ensures Increment(a + b, w) == Increment(a, w) + b
  {
    assert a != [];
    var rest := a[1..] + b;
    assert a + b == [a[0]] + rest;
    assert (a + b)[1..] == rest;
    if a[0].token != w {
      assert Keys(a) == [a[0].token] + Keys(a[1..]);
      IncrementAppendLeft(a[1..], b, w);
      assert Increment(a + b, w) == [a[0]] + Increment(rest, w);
    } else {
      assert Increment(a + b, w) == [Entry(w, a[0].count + 1)] + rest;
    }
  }

  /** A token the left part lacks is bumped (or appended) in the right part. */
  lemma {:induction false} IncrementAppendRight(a: Table, b: Table, w: string)
    requires !HasKey(a, w)
    ensures Increment(a + b, w) == a + Increment(b, w)
  {
    if a == [] {
      assert a + b == b;
    } else {
      assert (a + b)[1..] == a[1..] + b;
      IncrementAppendRight(a[1..], b, w);
    }
  }

  lemma {:induction false} FromTokensLast(ws: seq<string>, w: string)
    ensures FromTokens(ws + [w]) == Increment(FromTokens(ws), w)
  {
    assert (ws + [w])[..|ws + [w]| - 1] == ws;
  }

  /** `Counter(words)` is valid and counts each word by its number of occurrences. */
  lemma {:induction false} FromTokensCounts(ws: seq<string>)
    ensures Valid(FromTokens(ws))
    ensures forall k :: Lookup(FromTokens(ws), k) == multiset(ws)[k]
    decreases |ws|
  {
    if ws != [] {
      var init, w := ws[..|ws| - 1], ws[|ws| - 1];
      assert ws == init + [w];
      var t0 := FromTokens(init);
      assert FromTokens(ws) == Increment(t0, w);
      FromTokensCounts(init);
      IncrementValid(t0, w);
      forall k ensures Lookup(FromTokens(ws), k) == multiset(ws)[k] {
        IncrementLookup(t0, w, k);
      }
    }
  }

  /**
   * `Counter(words)` is a valid table whose multiset is exactly that of the
   * words: every word is a key, every key is a word, and each count is the
   * number of occurrences.
   */
  lemma FromTokensBag(ws: seq<string>)
    ensures Valid(FromTokens(ws))
    ensures Bag(FromTokens(ws)) == multiset(ws)
    ensures forall k :: Lookup(FromTokens(ws), k) == multiset(ws)[k]
    ensures forall k :: HasKey(FromTokens(ws), k) <==> k in ws
  {
    var t := FromTokens(ws);
    FromTokensCounts(ws);
    forall k ensures Bag(t)[k] == multiset(ws)[k] && (HasKey(t, k) <==> k in ws) {
      BagLookup(t, k);
      PresentIffCounted(t, k);
    }
  }

  /** Index of the first occurrence of `k` in `ws`. */
  function FirstIndex(ws: seq<string>, k: string): (i: nat)
    requires k in ws
    ensures i < |ws| && ws[i] == k
    ensures forall j :: 0 <= j < i ==> ws[j] != k
  {
    if ws[0] == k then 0 else 1 + FirstIndex(ws[1..], k)
  }

  lemma {:induction false} FirstIndexExtend(ws: seq<string>, w: string, k: string)
    requires k in ws
    ensures FirstIndex(ws + [w], k) == FirstIndex(ws, k)
  {
    var i := FirstIndex(ws, k);
    var j := FirstIndex(ws + [w], k);
    assert (ws + [w])[i] == k;
    assert ws[j] == k || j == |ws|;
  }

  /** Every token of `t` occurs in `ws`, and `t` lists them by first occurrence. */
  predicate InOrder(t: Table, ws: seq<string>)
  {
    && (forall i :: 0 <= i < |t| ==> t[i].token in ws)
    && (forall i, j :: 0 <= i < j < |t| ==> FirstIndex(ws, t[i].token) < FirstIndex(ws, t[j].token))
  }

  /** A later word does not move any first occurrence. */
  lemma InOrderExtend(t: Table, init: seq<string>, w: string)
    requires InOrder(t, init)
    ensures InOrder(t, init + [w])
  {
    forall i | 0 <= i < |t| ensures FirstIndex(init + [w], t[i].token) == FirstIndex(init, t[i].token) {
      FirstIndexExtend(init, w, t[i].token);
    }
  }

  /** Two tables listing the same tokens in the same order are in order together. */
  lemma InOrderSameKeys(t0: Table, t: Table, ws: seq<string>)
    requires InOrder(t0, ws)
    requires Keys(t) == Keys(t0)
    ensures InOrder(t, ws)
  {
    forall i | 0 <= i < |t| ensures t[i].token == t0[i].token {
      assert Keys(t)[i] == t[i].token && Keys(t0)[i] == t0[i].token;
    }
  }

  /** A word seen for the first time is appended after every earlier token. */
  lemma InOrderAppendNew(t0: Table, init: seq<string>, w: string)
    requires InOrder(t0, init)
    requires w !in init
    ensures InOrder(t0 + [Entry(w, 1)], init + [w])
  {
    var ws := init + [w];
    InOrderExtend(t0, init, w);
    assert FirstIndex(ws, w) == |init|;
  }

  /** Counting one more word keeps a table in order of first occurrence. */
  lemma IncrementOrder(t0: Table, init: seq<string>, w: string)
    requires InOrder(t0, init)
    requires HasKey(t0, w) <==> w in init
    ensures InOrder(Increment(t0, w), init + [w])
  {
    IncrementKeys(t0, w);
    if HasKey(t0, w) {
      InOrderExtend(t0, init, w);
      InOrderSameKeys(t0, Increment(t0, w), init + [w]);
    } else {
      assert t0 + [] == t0;
      IncrementAppendRight(t0, [], w);
      InOrderAppendNew(t0, init, w);
    }
  }

  /**
   * The keys of `Counter(words)` are in order of first occurrence: this is
   * the insertion order that `most_common` falls back on between equal counts.
   */
  lemma {:induction false} FromTokensOrder(ws: seq<string>)
    ensures forall i :: 0 <= i < |FromTokens(ws)| ==> FromTokens(ws)[i].token in ws
    ensures forall i, j :: 0 <= i < j < |FromTokens(ws)| ==>
              FirstIndex(ws, FromTokens(ws)[i].token) < FirstIndex(ws, FromTokens(ws)[j].token)
    decreases |ws|
  {
    if ws != [] {
      var init, w := ws[..|ws| - 1], ws[|ws| - 1];
      assert ws == init + [w];
      assert FromTokens(ws) == Increment(FromTokens(init), w);
      FromTokensOrder(init);
      FromTokensBag(init);
      IncrementOrder(FromTokens(init), init, w);
    }
  }

  // ---------------------------------------------------------------------
  // Counter addition.

  /** Unfolding `Increment` at a table written as head and tail. */
  lemma IncrementCons(e: Entry, rest: Table, w: string)
    ensures Increment([e] + rest, w) ==
              if e.token == w then [Entry(w, e.count + 1)] + rest else [e] + Increment(rest, w)
  {
    assert ([e] + rest)[1..] == rest;
  }

  /** Keys of a table written as head and tail. */
  lemma KeysCons(e: Entry, rest: Table)
    ensures Keys([e] + rest) == [e.token] + Keys(rest)
    ensures UniqueKeys([e] + rest) <==> e.token !in Keys(rest) && UniqueKeys(rest)
  {
    assert ([e] + rest)[1..] == rest;
  }

  /** Unfolding `AddLeft` at a positive head entry. */
  lemma AddLeftCons(e: Entry, tail: Table, y: Table)
    requires e.count > 0
    ensures AddLeft([e] + tail, y) == [Entry(e.token, e.count + Lookup(y, e.token))] + AddLeft(tail, y)
  {
    assert ([e] + tail)[1..] == tail;
  }

  lemma {:induction false} AddLeftShape(xs: Table, y: Table, k: string)
    requires UniqueKeys(xs)
    ensures HasKey(AddLeft(xs, y), k) ==> HasKey(xs, k)
    ensures UniqueKeys(AddLeft(xs, y))
    ensures Positive(AddLeft(xs, y))
  {
    if xs != [] {
      AddLeftShape(xs[1..], y, k);
      AddLeftShape(xs[1..], y, xs[0].token);
      var rest := AddLeft(xs[1..], y);
      var n := xs[0].count + Lookup(y, xs[0].token);
      assert Keys(xs) == [xs[0].token] + Keys(xs[1..]);
      if n > 0 {
        var e := Entry(xs[0].token, n);
        assert AddLeft(xs, y) == [e] + rest;
        KeysCons(e, rest);
      } else {
        assert AddLeft(xs, y) == rest;
      }
    }
  }

  /** Unfolding `Lookup` at a table written as head and tail. */
  lemma LookupCons(e: Entry, rest: Table, k: string)
    ensures Lookup([e] + rest, k) == if e.token == k then e.count else Lookup(rest, k)
  {
    assert ([e] + rest)[1..] == rest;
  }

  /** One step of `AddLeftLookup`, from the tail to the whole table. */
  lemma AddLeftLookupStep(x0: Entry, tail: Table, y: Table, k: string, tailHas: bool)
    requires x0.token == k ==> Lookup(AddLeft(tail, y), k) == 0
    requires Lookup(AddLeft(tail, y), k) == if tailHas then Lookup(tail, k) + Lookup(y, k) else 0
    ensures Lookup(AddLeft([x0] + tail, y), k) ==
              if x0.token == k || tailHas then Lookup([x0] + tail, k) + Lookup(y, k) else 0
  {
    var xs := [x0] + tail;
    assert xs[0] == x0 && xs[1..] == tail;
    var rest := AddLeft(tail, y);
    var n := x0.count + Lookup(y, x0.token);
    LookupCons(x0, tail, k);
    if n > 0 {
      assert AddLeft(xs, y) == [Entry(x0.token, n)] + rest;
      LookupCons(Entry(x0.token, n), rest, k);
    } else {
      assert AddLeft(xs, y) == rest;
    }
  }

  lemma {:induction false} AddLeftLookup(xs: Table, y: Table, k: string)
    requires UniqueKeys(xs)
    ensures Lookup(AddLeft(xs, y), k) == if HasKey(xs, k) then Lookup(xs, k) + Lookup(y, k) else 0
  {
    if xs != [] {
      var x0, tail := xs[0], xs[1..];
      assert xs == [x0] + tail;
      KeysCons(x0, tail);
      AddLeftLookup(tail, y, k);
      if x0.token == k {
        AddLeftShape(tail, y, k);
        LookupAbsent(AddLeft(tail, y), k);
      }
      AddLeftLookupStep(x0, tail, y, k, HasKey(tail, k));
    }
  }

  lemma AddLeftFacts(xs: Table, y: Table, k: string)
    requires UniqueKeys(xs)
    ensures HasKey(AddLeft(xs, y), k) ==> HasKey(xs, k)
    ensures UniqueKeys(AddLeft(xs, y))
    ensures Positive(AddLeft(xs, y))
    ensures Lookup(AddLeft(xs, y), k) == if HasKey(xs, k) then Lookup(xs, k) + Lookup(y, k) else 0
  {
    AddLeftShape(xs, y, k);
    AddLeftLookup(xs, y, k);
  }

  lemma {:induction false} AddRightShape(ys: Table, x: Table, k: string)
    requires UniqueKeys(ys)
    ensures HasKey(AddRight(ys, x), k) ==> HasKey(ys, k) && !HasKey(x, k)
    ensures UniqueKeys(AddRight(ys, x))
    ensures Positive(AddRight(ys, x))
  {
    if ys != [] {
      AddRightShape(ys[1..], x, k);
      AddRightShape(ys[1..], x, ys[0].token);
      var rest := AddRight(ys[1..], x);
      assert Keys(ys) == [ys[0].token] + Keys(ys[1..]);
      if !HasKey(x, ys[0].token) && ys[0].count > 0 {
        assert AddRight(ys, x) == [ys[0]] + rest;
        KeysCons(ys[0], rest);
      } else {
        assert AddRight(ys, x) == rest;
      }
    }
  }

  lemma {:induction false} AddRightLookup(ys: Table, x: Table, k: string)
    requires UniqueKeys(ys)
    ensures Lookup(AddRight(ys, x), k) == if HasKey(x, k) then 0 else Lookup(ys, k)
  {
    if ys != [] {
      AddRightLookup(ys[1..], x, k);
      var rest := AddRight(ys[1..], x);
      assert Keys(ys) == [ys[0].token] + Keys(ys[1..]);
      if ys[0].token == k {
        LookupAbsent(ys[1..], k);
        AddRightShape(ys[1..], x, k);
        LookupAbsent(rest, k);
      }
      if !HasKey(x, ys[0].token) && ys[0].count > 0 {
        assert AddRight(ys, x) == [ys[0]] + rest;
        assert ([ys[0]] + rest)[1..] == rest;
      } else {
        assert AddRight(ys, x) == rest;
      }
    }
  }

  lemma AddRightFacts(ys: Table, x: Table, k: string)
    requires UniqueKeys(ys)
    ensures HasKey(AddRight(ys, x), k) ==> HasKey(ys, k) && !HasKey(x, k)
    ensures UniqueKeys(AddRight(ys, x))
    ensures Positive(AddRight(ys, x))
    ensures Lookup(AddRight(ys, x), k) == if HasKey(x, k) then 0 else Lookup(ys, k)
  {
    AddRightShape(ys, x, k);
    AddRightLookup(ys, x, k);
  }

  /**
   * Counter addition of two unique-keyed tables gives a valid table that
   * sums counts pointwise and whose keys are the union of the inputs' keys
   * with a positive count.
   */
  lemma AddLookup(x: Table, y: Table, k: string)
    requires UniqueKeys(x) && UniqueKeys(y)
    ensures Lookup(Add(x, y), k) == Lookup(x, k) + Lookup(y, k)
  {
    AddLeftFacts(x, y, k);
    AddRightFacts(y, x, k);
    LookupAppend(AddLeft(x, y), AddRight(y, x), k);
    if !HasKey(AddLeft(x, y), k) {
      LookupAbsent(AddLeft(x, y), k);
    }
    if !HasKey(x, k) {
      LookupAbsent(x, k);
    }
  }

  lemma AddValid(x: Table, y: Table)
    requires UniqueKeys(x) && UniqueKeys(y)
    ensures Valid(Add(x, y))
  {
    var l, r := AddLeft(x, y), AddRight(y, x);
    forall k | HasKey(l, k) ensures !HasKey(r, k) {
      AddLeftFacts(x, y, k);
      AddRightFacts(y, x, k);
    }
    AddLeftFacts(x, y, "");
    AddRightFacts(y, x, "");
    UniqueAppend(l, r);
  }

  lemma AddSums(x: Table, y: Table)
    requires UniqueKeys(x) && UniqueKeys(y)
    ensures Valid(Add(x, y))
    ensures Bag(Add(x, y)) == Bag(x) + Bag(y)
  {
    AddValid(x, y);
    forall k ensures Bag(Add(x, y))[k] == (Bag(x) + Bag(y))[k] {
      AddLookup(x, y, k);
      BagLookup(Add(x, y), k);
      BagLookup(x, k);
      BagLookup(y, k);
    }
  }

  /** For valid tables the keys of the sum are exactly the union of the keys. */
  lemma AddKeys(x: Table, y: Table)
    requires Valid(x) && Valid(y)
    ensures forall k :: HasKey(Add(x, y), k) <==> HasKey(x, k) || HasKey(y, k)
  {
    AddValid(x, y);
    forall k ensures HasKey(Add(x, y), k) <==> HasKey(x, k) || HasKey(y, k) {
      AddLookup(x, y, k);
      PresentIffCounted(Add(x, y), k);
      PresentIffCounted(x, k);
      PresentIffCounted(y, k);
    }
  }

  /** Merging is commutative as a token-to-count mapping (not as an ordered table). */
  lemma MergeCommutes(x: Table, y: Table)
    requires UniqueKeys(x) && UniqueKeys(y)
    ensures Bag(Add(x, y)) == Bag(Add(y, x))
    ensures forall k :: Lookup(Add(x, y), k) == Lookup(Add(y, x), k)
  {
    forall k ensures Lookup(Add(x, y), k) == Lookup(Add(y, x), k) {
      AddLookup(x, y, k);
      AddLookup(y, x, k);
    }
    AddSums(x, y);
    AddSums(y, x);
    assert Bag(x) + Bag(y) == Bag(y) + Bag(x);
  }

  /** Merging is associative as a token-to-count mapping. */
  lemma MergeAssociates(x: Table, y: Table, z: Table)
    requires UniqueKeys(x) && UniqueKeys(y) && UniqueKeys(z)
    ensures Bag(Add(Add(x, y), z)) == Bag(Add(x, Add(y, z)))
    ensures forall k :: Lookup(Add(Add(x, y), z), k) == Lookup(Add(x, Add(y, z)), k)
  {
    AddSums(x, y);
    AddSums(y, z);
    AddSums(Add(x, y), z);
    AddSums(x, Add(y, z));
    assert Bag(Add(Add(x, y), z)) == Bag(x) + Bag(y) + Bag(z);
    forall k ensures Lookup(Add(Add(x, y), z), k) == Lookup(Add(x, Add(y, z)), k) {
      BagLookup(Add(Add(x, y), z), k);
      BagLookup(Add(x, Add(y, z)), k);
    }
  }

  /** The order is not commutative: between two single-entry tables the left operand's token comes first. */
  lemma MergeOrderMatters()
    ensures Add([Entry("a", 1)], [Entry("b", 1)]) == [Entry("a", 1), Entry("b", 1)]
    ensures Add([Entry("b", 1)], [Entry("a", 1)]) == [Entry("b", 1), Entry("a", 1)]
  {
    assert !HasKey([Entry("a", 1)], "b");
    assert !HasKey([Entry("b", 1)], "a");
  }

  // ---------------------------------------------------------------------
  // Counter(a) + Counter(b) == Counter(a + b), entry for entry and in order.

  lemma {:induction false} AddLeftKeys(xs: Table, y: Table)
    requires Positive(xs)
    ensures Keys(AddLeft(xs, y)) == Keys(xs)
  {
    if xs != [] {
      AddLeftKeys(xs[1..], y);
    }
  }

  /** One step of `AddLeftIncrement`: from the tail's equation to the whole table's. */
  lemma AddLeftIncrementStep(e: Entry, tail: Table, y: Table, w: string, tailHas: bool)
    requires e.count > 0
    requires e.token == w ==> !tailHas
    requires AddLeft(tail, Increment(y, w)) ==
               if tailHas then Increment(AddLeft(tail, y), w) else AddLeft(tail, y)
    ensures AddLeft([e] + tail, Increment(y, w)) ==
              if e.token == w || tailHas then Increment(AddLeft([e] + tail, y), w) else AddLeft([e] + tail, y)
  {
    IncrementLookup(y, w, e.token);
    AddLeftCons(e, tail, y);
    AddLeftCons(e, tail, Increment(y, w));
    var n := e.count + Lookup(y, e.token);
    IncrementCons(Entry(e.token, n), AddLeft(tail, y), w);
  }

  lemma {:induction false} AddLeftIncrement(xs: Table, y: Table, w: string)
    requires Valid(xs)
    ensures AddLeft(xs, Increment(y, w)) == if HasKey(xs, w) then Increment(AddLeft(xs, y), w) else AddLeft(xs, y)
  {
    if xs != [] {
      var e, tail := xs[0], xs[1..];
      assert xs == [e] + tail;
      KeysCons(e, tail);
      AddLeftIncrement(tail, y, w);
      AddLeftIncrementStep(e, tail, y, w, HasKey(tail, w));
    }
  }

  lemma {:induction false} AddRightIncrement(ys: Table, x: Table, w: string)
    requires Positive(ys)
    ensures AddRight(Increment(ys, w), x) == if HasKey(x, w) then AddRight(ys, x) else Increment(AddRight(ys, x), w)
  {
    if ys == [] {
      assert Increment(ys, w) == [Entry(w, 1)];
      assert [Entry(w, 1)][1..] == [];
    } else {
      var e, tail := ys[0], ys[1..];
      assert e.count > 0;
      var keep := !HasKey(x, e.token);
      if e.token != w {
        AddRightIncrement(tail, x, w);
        assert Increment(ys, w) == [e] + Increment(tail, w);
        assert ([e] + Increment(tail, w))[1..] == Increment(tail, w);
        if keep {
          assert AddRight(ys, x) == [e] + AddRight(tail, x);
          assert ([e] + AddRight(tail, x))[1..] == AddRight(tail, x);
          assert Increment([e] + AddRight(tail, x), w) == [e] + Increment(AddRight(tail, x), w);
          assert AddRight([e] + Increment(tail, w), x) == [e] + AddRight(Increment(tail, w), x);
        } else {
          assert AddRight(ys, x) == AddRight(tail, x);
          assert ([e] + Increment(tail, w))[1..] == Increment(tail, w);
          assert AddRight([e] + Increment(tail, w), x) == AddRight(Increment(tail, w), x);
        }
      } else {
        var bumped := Entry(w, e.count + 1);
        assert Increment(ys, w) == [bumped] + tail;
        assert ([bumped] + tail)[1..] == tail;
        if keep {
          assert AddRight([bumped] + tail, x) == [bumped] + AddRight(tail, x);
          assert AddRight(ys, x) == [e] + AddRight(tail, x);
          assert ([e] + AddRight(tail, x))[1..] == AddRight(tail, x);
          assert Increment([e] + AddRight(tail, x), w) == [bumped] + AddRight(tail, x);
        } else {
          assert AddRight([bumped] + tail, x) == AddRight(tail, x);
        }
      }
    }
  }

  lemma AddIncrement(x: Table, y: Table, w: string)
    requires Valid(x) && Valid(y)
    ensures Add(x, Increment(y, w)) == Increment(Add(x, y), w)
  {
    AddLeftIncrement(x, y, w);
    AddRightIncrement(y, x, w);
    AddLeftKeys(x, y);
    if HasKey(x, w) {
      IncrementAppendLeft(AddLeft(x, y), AddRight(y, x), w);
    } else {
      IncrementAppendRight(AddLeft(x, y), AddRight(y, x), w);
    }
  }

  lemma {:induction false} AddEmpty(x: Table)
    requires Positive(x)
    ensures Add(x, []) == x
  {
    if x != [] {
      AddEmpty(x[1..]);
    }
  }

  /**
   * Adding the Counters of two word lists gives, entry for entry and in the
   * same order, the Counter of the joined list.
   */
  lemma {:induction false} AddFromTokens(a: seq<string>, b: seq<string>)
    ensures Add(FromTokens(a), FromTokens(b)) == FromTokens(a + b)
    decreases |b|
  {
    FromTokensBag(a);
    if b == [] {
      assert a + b == a;
      AddEmpty(FromTokens(a));
    } else {
      var init, w := b[..|b| - 1], b[|b| - 1];
      assert b == init + [w];
      assert a + b == (a + init) + [w];
      AddFromTokens(a, init);
      FromTokensBag(init);
      FromTokensLast(init, w);
      FromTokensLast(a + init, w);
      AddIncrement(FromTokens(a), FromTokens(init), w);
    }
  }
}
