/** Left folds over sequences: what a loop that updates one accumulator computes. */
module Folds {

  function Fold<M, E>(step: (M, E) -> M, m: M, s: seq<E>): M
    decreases |s|
  {
    if s == [] then m else Fold(step, step(m, s[0]), s[1..])
  }

  lemma {:induction false} FoldSplit<M, E>(step: (M, E) -> M, m: M, a: seq<E>, b: seq<E>)
    ensures Fold(step, m, a + b) == Fold(step, Fold(step, m, a), b)
    decreases |a|
  {
    if a == [] {
      assert a + b == b;
    } else {
      assert (a + b)[1..] == a[1..] + b;
      FoldSplit(step, step(m, a[0]), a[1..], b);
    }
  }

  lemma FoldOne<M, E>(step: (M, E) -> M, m: M, e: E)
    ensures Fold(step, m, [e]) == step(m, e)
  {
    assert [e][1..] == [];
  }

  lemma FoldLast<M, E>(step: (M, E) -> M, m: M, init: seq<E>, e: E)
    ensures Fold(step, m, init + [e]) == step(Fold(step, m, init), e)
  {
    FoldSplit(step, m, init, [e]);
    FoldOne(step, Fold(step, m, init), e);
  }
}
