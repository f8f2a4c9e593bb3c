/** The two routines solve the same problem: Lagrange's weighted sum over a
    window of samples obeys Neville's recurrence, so every tableau cell equals
    Lagrange's formula on that cell's window and the two final answers agree. */
module Agreement {
  import opened Samples
  import opened Lagrange
  import opened Neville

  /** A distinct window separates each of its samples from the others. */
  lemma SeparatedInWindow(xs: seq<real>, lo: nat, hi: nat, k: nat)
    requires lo <= k < hi <= |xs| && DistinctIn(xs, lo, hi)
    ensures SeparatedFrom(xs, k, lo, hi)
  {
  }

  /** Neville's recurrence as a relation between three values: `whole` on a
      window from node a to node b, `left` on that window without b, `right`
      on it without a. */
  predicate Recurrence(xa: real, xb: real, x: real, left: real, right: real, whole: real)
  {
    Mul(x - xb, left) + Mul(xa - x, right) == Mul(xa - xb, whole)
  }

  /** The relation is linear: it survives adding one term to each value. */
  lemma AddTerms(xa: real, xb: real, x: real, s1: real, s2: real, s3: real, t1: real, t2: real, t3: real)
    requires Recurrence(xa, xb, x, s1, s2, s3) && Recurrence(xa, xb, x, t1, t2, t3)
    ensures Recurrence(xa, xb, x, s1 + t1, s2 + t2, s3 + t3)
  {
  }

  /** Solving the relation for `whole` is exactly the Python function's update of a cell. */
  lemma RecurrenceGivesCombine(xa: real, xb: real, x: real, left: real, right: real, whole: real)
    requires xa != xb && Recurrence(xa, xb, x, left, right, whole)
    ensures Combine(xa, xb, x, left, right) == whole
  {
  }

  /** The first sample's term: only the window without the last sample has it. */
  lemma FirstTerm(xs: seq<real>, ys: seq<real>, x: real, lo: nat, hi: nat)
    requires |ys| == |xs| && lo + 2 <= hi <= |xs| && DistinctIn(xs, lo, hi)
    ensures Recurrence(xs[lo], xs[hi - 1], x,
                       Mul(ys[lo], Weight(xs, lo, x, lo, hi - 1)),
                       0.0,
                       Mul(ys[lo], Weight(xs, lo, x, lo, hi)))
  {
  }

  /** The interior identity, with fa and fb the factors of nodes a and b in the
      basis product of an interior node k, and c the product of the others:
      (x - x_b) fa c + (x_a - x) c fb == (x_a - x_b) fa c fb. */
  lemma InteriorFactors(xa: real, xb: real, xk: real, x: real, y: real, c: real)
    requires xk != xa && xk != xb
    ensures var fa := (x - xa) / (xk - xa);
            var fb := (x - xb) / (xk - xb);
            Recurrence(xa, xb, x, Mul(y, Mul(fa, c)), Mul(y, Mul(c, fb)), Mul(y, Mul(fa, Mul(c, fb))))
  {
  }

  /** An interior sample's term appears in all three windows. */
  lemma MiddleTerm(xs: seq<real>, ys: seq<real>, x: real, lo: nat, hi: nat, k: nat)
    requires |ys| == |xs| && lo < k < hi - 1 && hi <= |xs| && DistinctIn(xs, lo, hi)
    ensures Recurrence(xs[lo], xs[hi - 1], x,
                       Mul(ys[k], Weight(xs, k, x, lo, hi - 1)),
                       Mul(ys[k], Weight(xs, k, x, lo + 1, hi)),
                       Mul(ys[k], Weight(xs, k, x, lo, hi)))
  {
    SeparatedInWindow(xs, lo, hi, k);
    var c := Weight(xs, k, x, lo + 1, hi - 1);
    WeightPeelFirst(xs, k, x, lo, hi - 1);
    WeightPeelFirst(xs, k, x, lo, hi);
    assert Weight(xs, k, x, lo + 1, hi) == Mul(c, Factor(xs, k, hi - 1, x));
    InteriorFactors(xs[lo], xs[hi - 1], xs[k], x, ys[k], c);
  }

  /** The last sample's term: only the window without the first sample has it. */
  lemma LastTerm(xs: seq<real>, ys: seq<real>, x: real, lo: nat, hi: nat)
    requires |ys| == |xs| && lo + 2 <= hi <= |xs| && DistinctIn(xs, lo, hi)
    ensures Recurrence(xs[lo], xs[hi - 1], x,
                       0.0,
                       Mul(ys[hi - 1], Weight(xs, hi - 1, x, lo + 1, hi)),
                       Mul(ys[hi - 1], Weight(xs, hi - 1, x, lo, hi)))
  {
    SeparatedInWindow(xs, lo, hi, hi - 1);
    var xa, xb := xs[lo], xs[hi - 1];
    var c := Weight(xs, hi - 1, x, lo + 1, hi);
    var f := Factor(xs, hi - 1, lo, x);
    WeightPeelFirst(xs, hi - 1, x, lo, hi);
    assert Mul(xb - xa, f) == x - xa;
    calc {
      Mul(xa - xb, Mul(ys[hi - 1], Mul(f, c)));
      -((xb - xa) * f) * (ys[hi - 1] * c);
      (xa - x) * (ys[hi - 1] * c);
      Mul(x - xb, 0.0) + Mul(xa - x, Mul(ys[hi - 1], c));
    }
  }

  /** Neville's recurrence holds for the sums over the samples lo .. m-1, as
      long as the last sample has not been reached. */
  lemma {:induction false} PartialRecurrence(xs: seq<real>, ys: seq<real>, x: real, lo: nat, hi: nat, m: nat)
    requires |ys| == |xs| && lo + 2 <= hi <= |xs| && DistinctIn(xs, lo, hi)
    requires lo + 1 <= m <= hi - 1
    ensures Recurrence(xs[lo], xs[hi - 1], x,
                       PartialSum(xs, ys, x, lo, hi - 1, m),
                       PartialSum(xs, ys, x, lo + 1, hi, m),
                       PartialSum(xs, ys, x, lo, hi, m))
    decreases m
  {
    var k := m - 1;
    if m == lo + 1 {
      FirstTerm(xs, ys, x, lo, hi);
      AddTerms(xs[lo], xs[hi - 1], x, 0.0, 0.0, 0.0,
               Mul(ys[lo], Weight(xs, lo, x, lo, hi - 1)),
               0.0,
               Mul(ys[lo], Weight(xs, lo, x, lo, hi)));
    } else {
      PartialRecurrence(xs, ys, x, lo, hi, k);
      MiddleTerm(xs, ys, x, lo, hi, k);
      AddTerms(xs[lo], xs[hi - 1], x,
               PartialSum(xs, ys, x, lo, hi - 1, k),
               PartialSum(xs, ys, x, lo + 1, hi, k),
               PartialSum(xs, ys, x, lo, hi, k),
               Mul(ys[k], Weight(xs, k, x, lo, hi - 1)),
               Mul(ys[k], Weight(xs, k, x, lo + 1, hi)),
               Mul(ys[k], Weight(xs, k, x, lo, hi)));
    }
  }

  /** Lagrange's formula satisfies Neville's recurrence: its value on [lo, hi)
      is determined by its values on the window without the last sample and on
      the window without the first sample. */
  lemma LagrangeRecurrence(xs: seq<real>, ys: seq<real>, x: real, lo: nat, hi: nat)
    requires |ys| == |xs| && lo + 2 <= hi <= |xs| && DistinctIn(xs, lo, hi)
    ensures Recurrence(xs[lo], xs[hi - 1], x,
                       LagrangeOn(xs, ys, x, lo, hi - 1),
                       LagrangeOn(xs, ys, x, lo + 1, hi),
                       LagrangeOn(xs, ys, x, lo, hi))
  {
    PartialRecurrence(xs, ys, x, lo, hi, hi - 1);
    LastTerm(xs, ys, x, lo, hi);
    AddTerms(xs[lo], xs[hi - 1], x,
             PartialSum(xs, ys, x, lo, hi - 1, hi - 1),
             PartialSum(xs, ys, x, lo + 1, hi, hi - 1),
             PartialSum(xs, ys, x, lo, hi, hi - 1),
             0.0,
             Mul(ys[hi - 1], Weight(xs, hi - 1, x, lo + 1, hi)),
             Mul(ys[hi - 1], Weight(xs, hi - 1, x, lo, hi)));
  }

  /** Every tableau cell is Lagrange's formula on that cell's window of samples. */
  lemma {:induction false} CellIsLagrange(xs: seq<real>, ys: seq<real>, x: real, i: nat, j: nat)
    requires |ys| == |xs| && i + j < |xs| && DistinctRun(xs, i, j)
    ensures DistinctIn(xs, i, i + j + 1)
    ensures Cell(xs, ys, x, i, j) == LagrangeOn(xs, ys, x, i, i + j + 1)
    decreases j
  {
    if j == 0 {
      assert Weight(xs, i, x, i, i + 1) == 1.0;
      assert PartialSum(xs, ys, x, i, i + 1, i + 1) == Mul(ys[i], 1.0);
    } else {
      CellIsLagrange(xs, ys, x, i, j - 1);
      CellIsLagrange(xs, ys, x, i + 1, j - 1);
      LagrangeRecurrence(xs, ys, x, i, i + j + 1);
      RecurrenceGivesCombine(xs[i], xs[i + j], x,
                             LagrangeOn(xs, ys, x, i, i + j),
                             LagrangeOn(xs, ys, x, i + 1, i + j + 1),
                             LagrangeOn(xs, ys, x, i, i + j + 1));
      CellUnfold(xs, ys, x, i, j);
    }
  }

  /** On every valid sample set the two routines compute the same value. */
  lemma LagrangeEqualsNeville(xs: seq<real>, ys: seq<real>, x: real)
    requires WellShaped(xs, ys) && Distinct(xs)
    ensures DistinctRun(xs, 0, |xs| - 1)
    ensures LagrangeOn(xs, ys, x, 0, |xs|) == Cell(xs, ys, x, 0, |xs| - 1)
  {
    CellIsLagrange(xs, ys, x, 0, |xs| - 1);
  }

  /** Samples taken from a line a + b*t are reproduced exactly by both
      routines at every evaluation point. */
  lemma BothReproduceLine(xs: seq<real>, ys: seq<real>, x: real, a: real, b: real)
    requires WellShaped(xs, ys) && Distinct(xs)
    requires forall k :: 0 <= k < |xs| ==> ys[k] == a + Mul(b, xs[k])
    ensures DistinctRun(xs, 0, |xs| - 1)
    ensures Cell(xs, ys, x, 0, |xs| - 1) == a + Mul(b, x)
    ensures LagrangeOn(xs, ys, x, 0, |xs|) == a + Mul(b, x)
  {
    LagrangeEqualsNeville(xs, ys, x);
    CellReproducesLine(xs, ys, x, a, b, 0, |xs| - 1);
  }

  /** Both routines called on the same input return the same result, error
      kind included: the cross-check the two routines exist to provide. */
  method CrossCheck(xs: seq<real>, ys: seq<real>, x: real) returns (lagrange: Result<real>, neville: Result<real>)
    ensures lagrange == neville
    ensures WellShaped(xs, ys) && Distinct(xs) ==> lagrange.Ok?
    ensures !(WellShaped(xs, ys) && Distinct(xs)) ==> lagrange.Err?
  {
    ghost var at1, at2;
    lagrange, at1 := LagrangeInterpolation(xs, ys, x);
    neville, at2 := NevilleInterpolation(xs, ys, x);
    if WellShaped(xs, ys) && Distinct(xs) {
      LagrangeEqualsNeville(xs, ys, x);
    }
  }

  /** The demo data: samples of y = t*t at t = 1, 2, 3, 4, evaluated at 5/2.
      Both routines return 25/4, the value of t*t there. */
  method SquaresDemo() returns (lagrange: Result<real>, neville: Result<real>)
    ensures lagrange == Ok(6.25) && neville == Ok(6.25)
  {
    var xs, ys := [1.0, 2.0, 3.0, 4.0], [1.0, 4.0, 9.0, 16.0];
    ghost var at1, at2;
    lagrange, at1 := LagrangeInterpolation(xs, ys, 2.5);
    neville, at2 := NevilleInterpolation(xs, ys, 2.5);
    assert Distinct(xs);
    LagrangeEqualsNeville(xs, ys, 2.5);
  }
}
