/** Lagrange's closed form: the value at x of the polynomial through the samples
    is the sum over k of y_k times the product, over l != k, of
    (x - x_l) / (x_k - x_l). */
module Lagrange {
  import opened Samples

  /** One factor (x - x_l) / (x_k - x_l) of the k-th basis polynomial. */
  function Factor(xs: seq<real>, k: nat, l: nat, x: real): real
    requires k < |xs| && l < |xs| && xs[k] != xs[l]
  {
    (x - xs[l]) / (xs[k] - xs[l])
  }

  /** The k-th basis polynomial restricted to the nodes l in [lo, hi), l != k,
      multiplied in ascending order of l (the order of the Python function's inner loop). */
  function Weight(xs: seq<real>, k: nat, x: real, lo: nat, hi: nat): real
    requires k < |xs| && lo <= hi <= |xs| && SeparatedFrom(xs, k, lo, hi)
    decreases hi - lo
  {
    if hi == lo then 1.0
    else if hi - 1 == k then Weight(xs, k, x, lo, hi - 1)
    else Mul(Weight(xs, k, x, lo, hi - 1), Factor(xs, k, hi - 1, x))
  }

  /** The terms y_k * Weight(k) of the window [lo, hi), summed over k in [lo, m)
      in ascending order (the order of the Python function's outer loop). */
  function PartialSum(xs: seq<real>, ys: seq<real>, x: real, lo: nat, hi: nat, m: nat): real
    requires |ys| == |xs| && lo <= m <= hi <= |xs|
    requires forall k :: lo <= k < m ==> SeparatedFrom(xs, k, lo, hi)
    decreases m
  {
    if m == lo then 0.0
    else PartialSum(xs, ys, x, lo, hi, m - 1) + Mul(ys[m - 1], Weight(xs, m - 1, x, lo, hi))
  }

  /** Lagrange's formula for the samples of the window [lo, hi), evaluated at x. */
  function LagrangeOn(xs: seq<real>, ys: seq<real>, x: real, lo: nat, hi: nat): real
    requires |ys| == |xs| && lo <= hi <= |xs| && DistinctIn(xs, lo, hi)
  {
    PartialSum(xs, ys, x, lo, hi, hi)
  }

  /** The product may equally be taken by first splitting off its lowest node. */
  lemma {:induction false} WeightPeelFirst(xs: seq<real>, k: nat, x: real, lo: nat, hi: nat)
    requires k < |xs| && lo < hi <= |xs| && lo != k && SeparatedFrom(xs, k, lo, hi)
    ensures Weight(xs, k, x, lo, hi) == Mul(Factor(xs, k, lo, x), Weight(xs, k, x, lo + 1, hi))
    decreases hi
  {
    if hi == lo + 1 {
      assert Weight(xs, k, x, lo, hi) == Mul(Weight(xs, k, x, lo, lo), Factor(xs, k, lo, x));
    } else {
      WeightPeelFirst(xs, k, x, lo, hi - 1);
      if hi - 1 != k {
        MulAssoc(Factor(xs, k, lo, x), Weight(xs, k, x, lo + 1, hi - 1), Factor(xs, k, hi - 1, x));
      }
    }
  }

  /** A basis polynomial vanishes at every other node of its window. */
  lemma {:induction false} WeightVanishesAtOtherNode(xs: seq<real>, k: nat, lo: nat, hi: nat, node: nat)
    requires k < |xs| && lo <= node < hi <= |xs| && node != k && SeparatedFrom(xs, k, lo, hi)
    ensures Weight(xs, k, xs[node], lo, hi) == 0.0
    decreases hi
  {
    if node < hi - 1 {
      WeightVanishesAtOtherNode(xs, k, lo, hi - 1, node);
    } else {
      assert Factor(xs, k, node, xs[node]) == 0.0;
    }
  }

  /** A basis polynomial is one at its own node. */
  lemma {:induction false} WeightIsOneAtOwnNode(xs: seq<real>, k: nat, lo: nat, hi: nat)
    requires k < |xs| && lo <= hi <= |xs| && SeparatedFrom(xs, k, lo, hi)
    ensures Weight(xs, k, xs[k], lo, hi) == 1.0
    decreases hi - lo
  {
    if hi > lo {
      WeightIsOneAtOwnNode(xs, k, lo, hi - 1);
    }
  }

  /** At a node, the partial sum has picked up that node's y once it has passed it. */
  lemma {:induction false} PartialSumAtNode(xs: seq<real>, ys: seq<real>, lo: nat, hi: nat, m: nat, node: nat)
    requires |ys| == |xs| && lo <= m <= hi <= |xs| && lo <= node < hi
    requires DistinctIn(xs, lo, hi)
    ensures PartialSum(xs, ys, xs[node], lo, hi, m) == if node < m then ys[node] else 0.0
    decreases m
  {
    if m > lo {
      PartialSumAtNode(xs, ys, lo, hi, m - 1, node);
      if m - 1 == node {
        WeightIsOneAtOwnNode(xs, node, lo, hi);
      } else {
        WeightVanishesAtOtherNode(xs, m - 1, lo, hi, node);
      }
    }
  }

  /** Lagrange's formula reproduces the sample value at each sample node. */
  lemma LagrangeAtNode(xs: seq<real>, ys: seq<real>, lo: nat, hi: nat, node: nat)
    requires |ys| == |xs| && lo <= node < hi <= |xs| && DistinctIn(xs, lo, hi)
    ensures LagrangeOn(xs, ys, xs[node], lo, hi) == ys[node]
  {
    PartialSumAtNode(xs, ys, lo, hi, hi, node);
  }

  /** One pass of the Python function's inner loop: y_i multiplied, in ascending j, by
      every factor with j != i, stopping with the duplicate-x error at the first
      j whose x equals x_i. `at` is that j. */
  method BasisTerm(xs: seq<real>, ys: seq<real>, x: real, i: nat) returns (r: Result<real>, ghost at: nat)
    requires |ys| == |xs| && i < |xs|
    ensures r.Ok? <==> SeparatedFrom(xs, i, 0, |xs|)
    ensures r.Ok? ==> r.value == Mul(ys[i], Weight(xs, i, x, 0, |xs|))
    ensures r.Err? ==> && r.error == DuplicateX
                       && at < |xs| && at != i && xs[at] == xs[i]
                       && SeparatedFrom(xs, i, 0, at)
  {
    var n := |xs|;
    var term := ys[i];
    var j := 0;
    while j < n
      invariant 0 <= j <= n
      invariant SeparatedFrom(xs, i, 0, j)
      invariant term == Mul(ys[i], Weight(xs, i, x, 0, j))
    {
      if i != j {
        var denominator := xs[i] - xs[j];
        if denominator == 0.0 {
          return Err(DuplicateX), j;
        }
        MulAssoc(ys[i], Weight(xs, i, x, 0, j), Factor(xs, i, j, x));
        term := term * ((x - xs[j]) / denominator);
      }
      j := j + 1;
    }
    return Ok(term), 0;
  }

  /** The Python function lagrange_interpolation: the length checks in order, then the
      outer loop summing the terms in ascending i. The duplicate-x error is
      raised at the first zero denominator in the order (i ascending, j
      ascending); `clash` is that index pair. */
  method LagrangeInterpolation(xs: seq<real>, ys: seq<real>, x: real)
    returns (r: Result<real>, ghost clash: (nat, nat))
    ensures |xs| != |ys| ==> r == Err(LengthMismatch)
    ensures |xs| == |ys| && |xs| < 2 ==> r == Err(TooFewPoints)
    ensures WellShaped(xs, ys) && !Distinct(xs) ==> r == Err(DuplicateX)
    ensures WellShaped(xs, ys) && Distinct(xs) ==> r == Ok(LagrangeOn(xs, ys, x, 0, |xs|))
    ensures r.Ok? ==> forall k :: 0 <= k < |xs| && x == xs[k] ==> r.value == ys[k]
    ensures r == Err(DuplicateX) ==>
              && clash.0 < clash.1 < |xs|
              && xs[clash.0] == xs[clash.1]
              && forall p, q ::
                   (0 <= p < |xs| && 0 <= q < |xs| && p != q && (p < clash.0 || (p == clash.0 && q < clash.1)))
                   ==> xs[p] != xs[q]
  {
    clash := (0, 0);
    if |xs| != |ys| {
      return Err(LengthMismatch), clash;
    }
    if |xs| < 2 {
      return Err(TooFewPoints), clash;
    }
    var n := |xs|;
    var result := 0.0;
    var i := 0;
    while i < n
      invariant 0 <= i <= n
      invariant forall p :: 0 <= p < i ==> SeparatedFrom(xs, p, 0, n)
      invariant result == PartialSum(xs, ys, x, 0, n, i)
    {
      var term, j := BasisTerm(xs, ys, x, i);
      if term.Err? {
        forall p, q | 0 <= p < n && 0 <= q < n && p != q && (p < i || (p == i && q < j))
          ensures xs[p] != xs[q]
        {
          if p < i {
            assert SeparatedFrom(xs, p, 0, n);
          }
        }
        return Err(DuplicateX), (i, j);
      }
      result := result + term.value;
      i := i + 1;
    }
    assert Distinct(xs) by {
      forall p, q | 0 <= p < n && 0 <= q < n && p != q
        ensures xs[p] != xs[q]
      {
        assert SeparatedFrom(xs, p, 0, n);
      }
    }
    r := Ok(result);
    forall k | 0 <= k < n && x == xs[k]
      ensures r.value == ys[k]
    {
      LagrangeAtNode(xs, ys, 0, n, k);
    }
  }
}
