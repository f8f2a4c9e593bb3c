/** Neville's method: the tableau cell Q[i][j] is the value at x of the
    polynomial through the samples i .. i + j, built column by column from the
    two cells of the previous column. */
module Neville {
  import opened Samples

  /** One step of Neville's recurrence: the cells u (window ending at xb's
      left neighbour) and v (window starting after xa) combined into the cell of
      the window from xa to xb. */
  function Combine(xa: real, xb: real, x: real, u: real, v: real): real
    requires xa != xb
  {
    ((x - xb) * u + (xa - x) * v) / (xa - xb)
  }

  /** The window of cell (i, j), the j + 1 samples i .. i + j, is distinct:
      the shared notion, indexed by row and column. */
  predicate DistinctRun(xs: seq<real>, i: nat, j: nat)
    requires i + j < |xs|
  {
    DistinctIn(xs, i, i + j + 1)
  }

  /** Neville's recurrence for the cell in row i, column j. */
  function Cell(xs: seq<real>, ys: seq<real>, x: real, i: nat, j: nat): real
    requires |ys| == |xs| && i + j < |xs| && DistinctRun(xs, i, j)
    decreases j
  {
    if j == 0 then ys[i]
    else Combine(xs[i], xs[i + j], x, Cell(xs, ys, x, i, j - 1), Cell(xs, ys, x, i + 1, j - 1))
  }

  /** Cell (i, j) is the combination of its two cells in column j - 1. */
  lemma CellUnfold(xs: seq<real>, ys: seq<real>, x: real, i: nat, j: nat)
    requires |ys| == |xs| && 1 <= j && i + j < |xs| && DistinctRun(xs, i, j)
    ensures Cell(xs, ys, x, i, j)
            == Combine(xs[i], xs[i + j], x, Cell(xs, ys, x, i, j - 1), Cell(xs, ys, x, i + 1, j - 1))
  {
  }

  /** At the window's first node the combination is its left cell. */
  lemma CombineAtFirst(xa: real, xb: real, u: real, v: real)
    requires xa != xb
    ensures Combine(xa, xb, xa, u, v) == u
  {
  }

  /** At the window's last node the combination is its right cell. */
  lemma CombineAtLast(xa: real, xb: real, u: real, v: real)
    requires xa != xb
    ensures Combine(xa, xb, xb, u, v) == v
  {
  }

  /** Combining two equal cells gives that value back. */
  lemma CombineEqual(xa: real, xb: real, x: real, c: real)
    requires xa != xb
    ensures Combine(xa, xb, x, c, c) == c
  {
  }

  /** Combining the values of a line at two nodes gives the line's value at x. */
  lemma CombineLine(xa: real, xb: real, x: real, a: real, b: real, u: real, v: real)
    requires xa != xb && u == a + Mul(b, xa) && v == a + Mul(b, xb)
    ensures Combine(xa, xb, x, u, v) == a + Mul(b, x)
  {
  }

  /** Every cell reproduces the sample value at each node of its window. */
  lemma {:induction false} CellAtNode(xs: seq<real>, ys: seq<real>, i: nat, j: nat, k: nat)
    requires |ys| == |xs| && i + j < |xs| && DistinctRun(xs, i, j)
    requires i <= k <= i + j
    ensures Cell(xs, ys, xs[k], i, j) == ys[k]
    decreases j
  {
    if j > 0 {
      var x := xs[k];
      var left := Cell(xs, ys, x, i, j - 1);
      var right := Cell(xs, ys, x, i + 1, j - 1);
      if k == i {
        CellAtNode(xs, ys, i, j - 1, k);
        CombineAtFirst(xs[i], xs[i + j], left, right);
      } else if k == i + j {
        CellAtNode(xs, ys, i + 1, j - 1, k);
        CombineAtLast(xs[i], xs[i + j], left, right);
      } else {
        CellAtNode(xs, ys, i, j - 1, k);
        CellAtNode(xs, ys, i + 1, j - 1, k);
        CombineEqual(xs[i], xs[i + j], x, ys[k]);
      }
    }
  }

  /** When the samples of a window lie on a line a + b*t, every cell of
      column 1 or beyond evaluates that line at x. */
  lemma {:induction false} CellReproducesLine(xs: seq<real>, ys: seq<real>, x: real, a: real, b: real, i: nat, j: nat)
    requires |ys| == |xs| && i + j < |xs| && DistinctRun(xs, i, j) && 1 <= j
    requires forall k :: i <= k <= i + j ==> ys[k] == a + Mul(b, xs[k])
    ensures Cell(xs, ys, x, i, j) == a + Mul(b, x)
    decreases j
  {
    CellUnfold(xs, ys, x, i, j);
    if j == 1 {
      CombineLine(xs[i], xs[i + 1], x, a, b, ys[i], ys[i + 1]);
    } else {
      CellReproducesLine(xs, ys, x, a, b, i, j - 1);
      CellReproducesLine(xs, ys, x, a, b, i + 1, j - 1);
      CombineEqual(xs[i], xs[i + j], x, a + Mul(b, x));
    }
  }

  /** Every pair of samples at most g apart has distinct x-coordinates: what
      the sweep has established once columns 1 .. g are complete. */
  predicate DistinctUpToGap(xs: seq<real>, g: nat)
  {
    forall p, q :: 0 <= p < q < |xs| && q - p <= g ==> xs[p] != xs[q]
  }

  /** Once every pair less than j apart is known distinct, the pair (i, i + j)
      is the last one needed for the window of cell (i, j). */
  lemma WindowDistinct(xs: seq<real>, i: nat, j: nat)
    requires 1 <= j && i + j < |xs| && DistinctUpToGap(xs, j - 1) && xs[i] != xs[i + j]
    ensures DistinctRun(xs, i, j)
  {
  }

  /** Columns 0 .. cols-1 of the tableau hold Neville's cells in every row the
      recurrence uses (row a of column b exists while a + b < n). */
  ghost predicate Filled(tableau: array2<real>, xs: seq<real>, ys: seq<real>, x: real, cols: nat)
    reads tableau
    requires |ys| == |xs| && tableau.Length0 == |xs| && tableau.Length1 == |xs|
  {
    forall a, b :: 0 <= a && 0 <= b < cols && a + b < |xs| ==>
      DistinctRun(xs, a, b) && tableau[a, b] == Cell(xs, ys, x, a, b)
  }

  /** One pass of the Python function's inner loop: column j filled for rows
      0 .. n-j-1, stopping at the first row whose denominator is zero; `at` is
      that row. */
  method FillColumn(tableau: array2<real>, xs: seq<real>, ys: seq<real>, x: real, j: nat)
    returns (ok: bool, ghost at: nat)
    modifies tableau
    requires |ys| == |xs| && tableau.Length0 == |xs| && tableau.Length1 == |xs|
    requires 1 <= j < |xs| && DistinctUpToGap(xs, j - 1) && Filled(tableau, xs, ys, x, j)
    ensures Filled(tableau, xs, ys, x, j)
    ensures ok ==> Filled(tableau, xs, ys, x, j + 1) && DistinctUpToGap(xs, j)
    ensures !ok ==> at + j < |xs| && xs[at] == xs[at + j]
                    && forall p :: 0 <= p < at ==> xs[p] != xs[p + j]
    ensures forall a, b :: 0 <= a < |xs| && 0 <= b < |xs| && b != j ==> tableau[a, b] == old(tableau[a, b])
    ensures forall a :: (if ok then |xs| - j else at) <= a < |xs| ==> tableau[a, j] == old(tableau[a, j])
  {
    var n := |xs|;
    var i := 0;
    while i < n - j
      invariant 0 <= i <= n - j
      invariant Filled(tableau, xs, ys, x, j)
      invariant forall a :: 0 <= a < i ==> DistinctRun(xs, a, j) && tableau[a, j] == Cell(xs, ys, x, a, j)
      invariant forall a, b :: 0 <= a < n && 0 <= b < n && (b != j || i <= a) ==> tableau[a, b] == old(tableau[a, b])
    {
      var denominator := xs[i] - xs[i + j];
      if denominator == 0.0 {
        forall p | 0 <= p < i
          ensures xs[p] != xs[p + j]
        {
          assert DistinctRun(xs, p, j);
        }
        return false, i;
      }
      WindowDistinct(xs, i, j);
      CellUnfold(xs, ys, x, i, j);
      tableau[i, j] := Combine(xs[i], xs[i + j], x, tableau[i, j - 1], tableau[i + 1, j - 1]);
      i := i + 1;
    }
    forall a, b | 0 <= a && 0 <= b <= j && a + b < n
      ensures DistinctRun(xs, a, b) && tableau[a, b] == Cell(xs, ys, x, a, b)
    {
      if b == j {
        assert a < i;
      }
    }
    forall p, q | 0 <= p < q < n && q - p <= j
      ensures xs[p] != xs[q]
    {
      if q - p == j {
        assert DistinctRun(xs, p, j);
      }
    }
    return true, 0;
  }

  /** The Python function neville_interpolation: the length checks in order, column 0
      filled with the y values, then columns j = 1 .. n-1 filled for rows
      i = 0 .. n-j-1, raising the duplicate-x error at the first zero
      denominator. `clash` is the pair (i, i + j) at which it is raised. */
  method NevilleInterpolation(xs: seq<real>, ys: seq<real>, x: real)
    returns (r: Result<real>, ghost clash: (nat, nat))
    ensures |xs| != |ys| ==> r == Err(LengthMismatch)
    ensures |xs| == |ys| && |xs| < 2 ==> r == Err(TooFewPoints)
    ensures WellShaped(xs, ys) && !Distinct(xs) ==> r == Err(DuplicateX)
    ensures WellShaped(xs, ys) && Distinct(xs) ==> r == Ok(Cell(xs, ys, x, 0, |xs| - 1))
    ensures r.Ok? ==> forall k :: 0 <= k < |xs| && x == xs[k] ==> r.value == ys[k]
    ensures r == Err(DuplicateX) ==>
              && clash.0 < clash.1 < |xs|
              && xs[clash.0] == xs[clash.1]
              && forall p, q ::
                   (0 <= p < q < |xs|
                    && (q - p < clash.1 - clash.0 || (q - p == clash.1 - clash.0 && p < clash.0)))
                   ==> xs[p] != xs[q]
  {
    clash := (0, 0);
    if |xs| != |ys| {
      return Err(LengthMismatch), clash;
    }
    if |xs| < 2 {
      return Err(TooFewPoints), clash;
    }
    var n := |xs|;
    var tableau := new real[n, n];
    var i := 0;
    while i < n
      invariant 0 <= i <= n
      invariant forall a :: 0 <= a < i ==> tableau[a, 0] == ys[a]
    {
      tableau[i, 0] := ys[i];
      i := i + 1;
    }
    assert Filled(tableau, xs, ys, x, 1);
    var j := 1;
    while j < n
      invariant 1 <= j <= n
      invariant DistinctUpToGap(xs, j - 1)
      invariant Filled(tableau, xs, ys, x, j)
    {
      var ok, row := FillColumn(tableau, xs, ys, x, j);
      if !ok {
        return Err(DuplicateX), (row, row + j);
      }
      j := j + 1;
    }
    assert DistinctRun(xs, 0, n - 1) by {
      assert DistinctUpToGap(xs, n - 1);
    }
    assert Distinct(xs);
    r := Ok(tableau[0, n - 1]);
    forall k | 0 <= k < n && x == xs[k]
      ensures r.value == ys[k]
    {
      CellAtNode(xs, ys, 0, n - 1, k);
    }
  }
}
