/** Left folds, and what a fold over a stretch of a sequence owes to its parts. */
module Folds {

  function Fold<S, B>(f: (S, B) -> S, s: S, bs: seq<B>): S
    decreases |bs|
  {
    if |bs| == 0 then s else Fold(f, f(s, bs[0]), bs[1..])
  }

  lemma FoldOne<S, B>(f: (S, B) -> S, s: S, b: B)
    ensures Fold(f, s, [b]) == f(s, b)
  {
    assert [b][1..] == [];
  }

  lemma {:induction false} FoldAppend<S, B>(f: (S, B) -> S, s: S, a: seq<B>, b: seq<B>)
    ensures Fold(f, s, a + b) == Fold(f, Fold(f, s, a), b)
    decreases |a|
  {
    if |a| == 0 {
      assert a + b == b;
    } else {
      assert (a + b)[1..] == a[1..] + b;
      FoldAppend(f, f(s, a[0]), a[1..], b);
    }
  }

  lemma FoldStretch<S, B>(f: (S, B) -> S, s: S, bs: seq<B>, i: nat, j: nat, k: nat)
    requires i <= j <= k <= |bs|
    ensures Fold(f, s, bs[i..k]) == Fold(f, Fold(f, s, bs[i..j]), bs[j..k])
    ensures k == |bs| ==> bs[i..k] == bs[i..] && bs[j..k] == bs[j..]
    ensures i == j ==> Fold(f, s, bs[i..j]) == s
  {
    assert bs[i..k] == bs[i..j] + bs[j..k];
    FoldAppend(f, s, bs[i..j], bs[j..k]);
  }
}
