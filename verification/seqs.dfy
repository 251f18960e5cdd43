/**
 Order and sign predicates on sequences of reals, shared by the integrator,
 the distance transforms and the interpolator.
 */
module Seqs {

  /** Every later element is strictly larger than every earlier one. */
  predicate StrictlyIncreasing(s: seq<real>) {
    forall i, j :: 0 <= i < j < |s| ==> s[i] < s[j]
  }

  /** Every later element is at least as large as every earlier one. */
  predicate NonDecreasing(s: seq<real>) {
    forall i, j :: 0 <= i <= j < |s| ==> s[i] <= s[j]
  }

  predicate AllNonNegative(s: seq<real>) {
    forall i :: 0 <= i < |s| ==> 0.0 <= s[i]
  }

  predicate AllPositive(s: seq<real>) {
    forall i :: 0 <= i < |s| ==> 0.0 < s[i]
  }

  /** Every element after the first is strictly positive (the first may be anything). */
  predicate PositiveAfterFirst(s: seq<real>) {
    forall i :: 1 <= i < |s| ==> 0.0 < s[i]
  }

  lemma StrictlyIncreasingIsNonDecreasing(s: seq<real>)
    requires StrictlyIncreasing(s)
    ensures NonDecreasing(s)
  {
  }

  /** Strict increase between neighbours gives strict increase between any two positions. */
  lemma {:induction false} StrictlyIncreasingFromSteps(s: seq<real>)
    requires forall k :: 0 <= k < |s| - 1 ==> s[k] < s[k + 1]
    ensures StrictlyIncreasing(s)
  {
    forall i, j | 0 <= i < j < |s|
      ensures s[i] < s[j]
    {
      StrictChain(s, i, j);
    }
  }

  lemma {:induction false} StrictChain(s: seq<real>, i: nat, j: nat)
    requires forall k :: 0 <= k < |s| - 1 ==> s[k] < s[k + 1]
    requires i < j < |s|
    ensures s[i] < s[j]
    decreases j - i
  {
    if i + 1 < j {
      StrictChain(s, i + 1, j);
    }
  }

  /** Non-decrease between neighbours gives non-decrease between any two positions. */
  lemma {:induction false} NonDecreasingFromSteps(s: seq<real>)
    requires forall k :: 0 <= k < |s| - 1 ==> s[k] <= s[k + 1]
    ensures NonDecreasing(s)
  {
    forall i, j | 0 <= i <= j < |s|
      ensures s[i] <= s[j]
    {
      WeakChain(s, i, j);
    }
  }

  lemma {:induction false} WeakChain(s: seq<real>, i: nat, j: nat)
    requires forall k :: 0 <= k < |s| - 1 ==> s[k] <= s[k + 1]
    requires i <= j < |s|
    ensures s[i] <= s[j]
    decreases j - i
  {
    if i < j {
      WeakChain(s, i + 1, j);
    }
  }
}
