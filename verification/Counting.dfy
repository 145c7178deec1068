/** Sums over the sequences in which the protocol models keep their tasks and requests. */
module Counting {

  function Sum<T>(xs: seq<T>, weight: T -> nat): nat {
    if xs == [] then 0 else Sum(xs[..|xs| - 1], weight) + weight(xs[|xs| - 1])
  }

  lemma SumAppend<T>(xs: seq<T>, x: T, weight: T -> nat)
    ensures Sum(xs + [x], weight) == Sum(xs, weight) + weight(x)
  {
    assert (xs + [x])[..|xs|] == xs;
  }

  lemma {:induction false} SumUpdate<T>(xs: seq<T>, i: nat, x: T, weight: T -> nat)
    requires i < |xs|
    ensures Sum(xs[i := x], weight) + weight(xs[i]) == Sum(xs, weight) + weight(x)
  {
    var n := |xs| - 1;
    if i == n {
      assert xs[i := x][..n] == xs[..n];
    } else {
      assert xs[i := x][..n] == xs[..n][i := x];
      SumUpdate(xs[..n], i, x, weight);
    }
  }

  lemma {:induction false} SumIsAtLeast<T>(xs: seq<T>, i: nat, weight: T -> nat)
    requires i < |xs|
    ensures weight(xs[i]) <= Sum(xs, weight)
  {
    if i < |xs| - 1 {
      SumIsAtLeast(xs[..|xs| - 1], i, weight);
    }
  }

  lemma {:induction false} SumOfTwo<T>(xs: seq<T>, i: nat, j: nat, weight: T -> nat)
    requires i < j < |xs|
    ensures weight(xs[i]) + weight(xs[j]) <= Sum(xs, weight)
  {
    if j < |xs| - 1 {
      SumOfTwo(xs[..|xs| - 1], i, j, weight);
    } else {
      SumIsAtLeast(xs[..j], i, weight);
    }
  }

  lemma {:induction false} SumIsZero<T>(xs: seq<T>, weight: T -> nat)
    requires forall i | 0 <= i < |xs| :: weight(xs[i]) == 0
    ensures Sum(xs, weight) == 0
  {
    if xs != [] {
      SumIsZero(xs[..|xs| - 1], weight);
    }
  }

  /** A positive sum has a positive term. */
  lemma {:induction false} PositiveTerm<T>(xs: seq<T>, weight: T -> nat) returns (i: nat)
    requires Sum(xs, weight) > 0
    ensures i < |xs| && weight(xs[i]) > 0
  {
    if weight(xs[|xs| - 1]) > 0 {
      i := |xs| - 1;
    } else {
      i := PositiveTerm(xs[..|xs| - 1], weight);
    }
  }

  lemma {:induction false} SumIsMonotone<T>(xs: seq<T>, low: T -> nat, high: T -> nat)
    requires forall x :: low(x) <= high(x)
    ensures Sum(xs, low) <= Sum(xs, high)
  {
    if xs != [] {
      SumIsMonotone(xs[..|xs| - 1], low, high);
    }
  }
}
