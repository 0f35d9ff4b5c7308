/** Small sequence helpers shared by the other modules. */
module Seqs {

  function Min(a: int, b: int): int { if a <= b then a else b }

  /** Concatenation of a sequence of sequences, left to right (Python's `''.join` / `itertools.chain`). */
  function Flatten<T>(ss: seq<seq<T>>): seq<T>
  {
    if ss == [] then [] else ss[0] + Flatten(ss[1..])
  }

  lemma {:induction false} FlattenAppend<T>(ss: seq<seq<T>>, tt: seq<seq<T>>)
    ensures Flatten(ss + tt) == Flatten(ss) + Flatten(tt)
  {
    if ss == [] {
      assert ss + tt == tt;
    } else {
      assert (ss + tt)[1..] == ss[1..] + tt;
      FlattenAppend(ss[1..], tt);
    }
  }
}
