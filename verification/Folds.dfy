/** State machines over arbitrary states: running one over an input, and iterating a step. */
module Folds {

  function Run<S, I>(step: (S, I) -> S, s: S, input: seq<I>): S
    decreases |input|
  {
    if input == [] then s else Run(step, step(s, input[0]), input[1..])
  }

  function Iterate<S>(step: S -> S, s: S, k: nat): S
    decreases k
  {
    if k == 0 then s else Iterate(step, step(s), k - 1)
  }

  lemma {:induction false} RunAppend<S, I>(step: (S, I) -> S, s: S, a: seq<I>, b: seq<I>)
    ensures Run(step, s, a + b) == Run(step, Run(step, s, a), b)
    decreases |a|
  {
    if a == [] {
      assert a + b == b;
    } else {
      assert (a + b)[1..] == a[1..] + b;
      RunAppend(step, step(s, a[0]), a[1..], b);
    }
  }

  /** A machine whose every step is injective never forgets a difference. */
  lemma {:induction false} RunInjective<S(!new), I(!new)>(step: (S, I) -> S, x: S, y: S, input: seq<I>)
    requires forall p, q, i :: step(p, i) == step(q, i) ==> p == q
    requires Run(step, x, input) == Run(step, y, input)
    ensures x == y
    decreases |input|
  {
    if input != [] {
      RunInjective(step, step(x, input[0]), step(y, input[0]), input[1..]);
    }
  }

  lemma {:induction false} IterateInjective<S(!new)>(step: S -> S, x: S, y: S, k: nat)
    requires forall p, q :: step(p) == step(q) ==> p == q
    requires Iterate(step, x, k) == Iterate(step, y, k)
    ensures x == y
    decreases k
  {
    if k > 0 {
      IterateInjective(step, step(x), step(y), k - 1);
    }
  }

  lemma {:induction false} IterateFixed<S>(step: S -> S, s: S, k: nat)
    requires step(s) == s
    ensures Iterate(step, s, k) == s
    decreases k
  {
    if k > 0 {
      IterateFixed(step, s, k - 1);
    }
  }
}
