/**
 * The `Accuracy` metric (src/metrics.rs): a count of correct observations
 * and a count of all observations, whose ratio is the fitness score.
 */
module Metrics {

  /** Number of `true` entries in `obs`. */
  function CountTrue(obs: seq<bool>): (n: nat)
    ensures n <= |obs|
  {
    if obs == [] then 0 else CountTrue(obs[..|obs| - 1]) + (if obs[|obs| - 1] then 1 else 0)
  }

  class Accuracy {
    var correct: nat
    var total: nat

    /** `Accuracy::new`: starts from the given counts. */
    constructor (initialCorrect: nat, totalCounted: nat)
      ensures correct == initialCorrect && total == totalCounted
    {
      correct, total := initialCorrect, totalCounted;
    }

    /** At most every observation counted was correct. */
    ghost predicate Valid()
      reads this
    {
      correct <= total
    }

    /** `observe`: a correct observation raises both counts, any other only the total. */
    method Observe(value: bool)
      modifies this
      ensures correct == old(correct) + (if value then 1 else 0)
      ensures total == old(total) + 1
      ensures old(Valid()) ==> Valid()
    {
      var count := if value then 1 else 0;
      correct := correct + count;
      total := total + 1;
    }

    /** `calculate`: the share of correct observations; with no observation the division is 0/0. */
    function Calculate(): (r: real)
      reads this
      requires total > 0
      ensures Valid() ==> 0.0 <= r <= 1.0
      ensures r * total as real == correct as real
    {
      correct as real / total as real
    }
  }

  /** The counts `Observe` reaches from `(correct, total)` after the observations `obs`, in order. */
  function Observed(correct: nat, total: nat, obs: seq<bool>): (counts: (nat, nat))
    ensures counts.1 == total + |obs|
  {
    if obs == [] then (correct, total)
    else
      var before := Observed(correct, total, obs[..|obs| - 1]);
      (before.0 + (if obs[|obs| - 1] then 1 else 0), before.1 + 1)
  }

  /**
   * From `new(0, 0)`, `k` observations give `total == k` and as many correct
   * ones as there were `true`s, so the accuracy lies in [0, 1].
   */
  lemma {:induction false} ObservedFromZero(obs: seq<bool>)
    ensures Observed(0, 0, obs) == (CountTrue(obs), |obs|)
    ensures Observed(0, 0, obs).0 <= Observed(0, 0, obs).1
  {
    if obs != [] {
      ObservedFromZero(obs[..|obs| - 1]);
    }
  }
}
