/** Shared vocabulary of the two interpolation routines: the error taxonomy,
    the result type, and what it means for sample x-coordinates to be distinct. */
module Samples {

  /** The three failure kinds. The Python functions raise the first two as ValueError
      and the third, found lazily at a zero denominator, as ZeroDivisionError. */
  datatype Error = LengthMismatch | TooFewPoints | DuplicateX

  /** Either an interpolated value or the error kind the call failed with. */
  datatype Result<+T> = Ok(value: T) | Err(error: Error)

  /** No sample in the window [lo, hi), other than sample k, shares sample k's x. */
  predicate SeparatedFrom(xs: seq<real>, k: nat, lo: nat, hi: nat)
    requires k < |xs| && lo <= hi <= |xs|
  {
    forall l :: lo <= l < hi && l != k ==> xs[l] != xs[k]
  }

  /** The samples of the window [lo, hi) have pairwise distinct x-coordinates. */
  predicate DistinctIn(xs: seq<real>, lo: nat, hi: nat)
    requires lo <= hi <= |xs|
  {
    forall p, q :: lo <= p < hi && lo <= q < hi && p != q ==> xs[p] != xs[q]
  }

  /** No two samples share an x-coordinate. */
  predicate Distinct(xs: seq<real>)
  {
    DistinctIn(xs, 0, |xs|)
  }

  /** Real multiplication under a name. Products built with Mul are related
      by congruence, which keeps proofs about the interpolation formulas out
      of nonlinear arithmetic; MulAssoc gives back associativity where a proof
      regroups a product. */
  function Mul(a: real, b: real): real
  {
    a * b
  }

  lemma MulAssoc(a: real, b: real, c: real)
    ensures Mul(Mul(a, b), c) == Mul(a, Mul(b, c))
  {
  }

  /** The length checks both routines perform before computing anything. */
  predicate WellShaped(xs: seq<real>, ys: seq<real>)
  {
    |xs| == |ys| && |xs| >= 2
  }
}
