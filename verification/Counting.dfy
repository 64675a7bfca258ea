/** Weights summed over the threads of a transition system, and a pigeonhole bound. */
module Counting {
  function Sum<T>(xs: seq<T>, w: T -> nat): nat {
    if xs == [] then 0 else w(xs[0]) + Sum(xs[1..], w)
  }

  /** How many numbers below i have the property. */
  function Count(p: nat -> bool, i: nat): nat {
    if i == 0 then 0 else Count(p, i - 1) + (if p(i - 1) then 1 else 0)
  }

  lemma {:induction false} SumUpdate<T>(xs: seq<T>, w: T -> nat, i: nat, x: T)
    requires i < |xs|
    ensures Sum(xs[i := x], w) + w(xs[i]) == Sum(xs, w) + w(x)
  {
    if i == 0 {
      assert xs[0 := x][1..] == xs[1..];
    } else {
      assert xs[i := x][1..] == xs[1..][i - 1 := x];
      SumUpdate(xs[1..], w, i - 1, x);
    }
  }

  lemma {:induction false} SumZero<T>(xs: seq<T>, w: T -> nat)
    requires forall i | 0 <= i < |xs| :: w(xs[i]) == 0
    ensures Sum(xs, w) == 0
  {
    if xs != [] {
      SumZero(xs[1..], w);
    }
  }

  /** Pointwise no larger, and smaller somewhere: the sum is smaller. */
  lemma {:induction false} SumDrops<T>(xs: seq<T>, w: T -> nat, ys: seq<T>, v: T -> nat, i: nat)
    requires |xs| == |ys| && i <= |xs|
    requires forall k | 0 <= k < |xs| :: v(ys[k]) <= w(xs[k])
    requires i < |xs| ==> v(ys[i]) < w(xs[i])
    ensures Sum(ys, v) <= Sum(xs, w)
    ensures i < |xs| ==> Sum(ys, v) < Sum(xs, w)
  {
    if xs != [] {
      assert forall k | 0 <= k < |xs[1..]| :: v(ys[1..][k]) <= w(xs[1..][k]);
      SumDrops(xs[1..], w, ys[1..], v, if i == 0 then |xs| - 1 else i - 1);
    }
  }

  lemma {:induction false} Pigeonhole(xs: seq<nat>, n: nat)
    requires forall i, j | 0 <= i < j < |xs| :: xs[i] != xs[j]
    requires forall i | 0 <= i < |xs| :: xs[i] < n
    ensures |xs| <= n
  {
    if xs == [] {
      return;
    }
    var first := xs[0];
    if i :| 0 <= i < |xs| && xs[i] == n - 1 {
      Pigeonhole(xs[..i] + xs[i + 1..], n - 1);
    } else {
      Pigeonhole(xs, n - 1);
    }
  }
}
