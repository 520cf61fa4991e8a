/** Totals over a sequence of threads, and how they move when one thread moves. */
module Sums {

  /** The total of `f` over a sequence. */
  function Sum<X>(xs: seq<X>, f: X -> nat): nat {
    if xs == [] then 0 else f(xs[0]) + Sum(xs[1..], f)
  }

  lemma {:induction false} SumUpdate<X>(xs: seq<X>, i: nat, x: X, f: X -> nat)
    requires i < |xs|
    ensures Sum(xs[i := x], f) + f(xs[i]) == Sum(xs, f) + f(x)
  {
    if i == 0 {
      assert xs[0 := x][1..] == xs[1..];
    } else {
      assert xs[i := x][1..] == xs[1..][i - 1 := x];
      SumUpdate(xs[1..], i - 1, x, f);
    }
  }

  /** Pointwise growth bounded by `k` per element moves the total by at most `k * |xs|`. */
  lemma {:induction false} SumGrows<X>(xs: seq<X>, ys: seq<X>, k: nat, f: X -> nat)
    requires |xs| == |ys|
    requires forall i :: 0 <= i < |xs| ==> f(xs[i]) <= f(ys[i]) <= f(xs[i]) + k
    ensures Sum(xs, f) <= Sum(ys, f) <= Sum(xs, f) + k * |xs|
  {
    if xs != [] {
      SumGrows(xs[1..], ys[1..], k, f);
      assert k * |xs| == k * |xs[1..]| + k;
    }
  }

  /** A strict growth at one index is seen by the total. */
  lemma {:induction false} SumGrowsStrictly<X>(xs: seq<X>, ys: seq<X>, i: nat, f: X -> nat)
    requires |xs| == |ys| && i < |xs|
    requires forall j :: 0 <= j < |xs| ==> f(xs[j]) <= f(ys[j])
    requires f(xs[i]) < f(ys[i])
    ensures Sum(xs, f) < Sum(ys, f)
  {
    if i == 0 {
      SumMonotone(xs[1..], ys[1..], f);
    } else {
      SumGrowsStrictly(xs[1..], ys[1..], i - 1, f);
    }
  }

  lemma {:induction false} SumMonotone<X>(xs: seq<X>, ys: seq<X>, f: X -> nat)
    requires |xs| == |ys|
    requires forall j :: 0 <= j < |xs| ==> f(xs[j]) <= f(ys[j])
    ensures Sum(xs, f) <= Sum(ys, f)
  {
    if xs != [] {
      SumMonotone(xs[1..], ys[1..], f);
    }
  }

  lemma {:induction false} SumZero<X>(xs: seq<X>, f: X -> nat)
    requires forall i :: 0 <= i < |xs| ==> f(xs[i]) == 0
    ensures Sum(xs, f) == 0
  {
    if xs != [] {
      SumZero(xs[1..], f);
    }
  }

  lemma SumSame<X>(xs: seq<X>, ys: seq<X>, f: X -> nat)
    requires |xs| == |ys|
    requires forall j :: 0 <= j < |xs| ==> f(xs[j]) == f(ys[j])
    ensures Sum(xs, f) == Sum(ys, f)
  {
    SumMonotone(xs, ys, f);
    SumMonotone(ys, xs, f);
  }

  lemma {:induction false} SumHas<X>(xs: seq<X>, i: nat, f: X -> nat)
    requires i < |xs|
    ensures f(xs[i]) <= Sum(xs, f)
  {
    if i > 0 {
      SumHas(xs[1..], i - 1, f);
    }
  }
}
