# Lagrange and Neville interpolation, modelled in Dafny

The repository evaluates, at one point `x`, the polynomial through a set of
samples `(x_k, y_k)`. It does this in two ways:

- `lagrange_interpolation` computes the closed-form weighted sum
  Σ_i y_i · Π_{j≠i} (x − x_j)/(x_i − x_j). It uses an ascending-index accumulator.
- `neville_interpolation` fills Neville's triangular tableau `Q` column by
  column and returns `Q[0][n−1]`.

Both routines share one error contract. The checks run in this order:

1. unequal lengths give `ValueError`;
2. fewer than two samples give `ValueError`;
3. a zero denominator, which means two samples share an x, gives
   `ZeroDivisionError`. This is found lazily, inside the loops.

The model works over Dafny `real`, which is exact arithmetic. Each routine
returns a `Result` whose error is one of three kinds: `LengthMismatch`,
`TooFewPoints` or `DuplicateX`.

Files and modules:

- `samples.dfy` (`Samples`) holds the error kinds, the `Result` type, and what
  "distinct x-coordinates" means for a window of samples. It also defines
  `Mul`, real multiplication under a name, which keeps the proofs out of
  nonlinear arithmetic.
- `lagrange.dfy` (`Lagrange`) has the closed form as recursive functions:
  `Weight` is the basis product in ascending order and `PartialSum` is the
  ascending sum. It also has the Python function's two loops as methods (`BasisTerm` is
  the inner loop) and the interpolation-at-nodes lemmas.
- `neville.dfy` (`Neville`) has Neville's recurrence as the function `Cell`.
  It also has the Python function's tableau fill as methods over an `array2<real>`
  (`FillColumn` is one pass of the inner loop), the node lemma and the
  line-reproduction lemma.
- `agreement.dfy` (`Agreement`) proves that Lagrange's sum over a window
  obeys Neville's recurrence. Hence every tableau cell equals Lagrange's
  formula on that cell's window, and the two routines agree on every valid
  input. The module also calls both routines on the demo's y = t² data.

## Model

| member | source | states |
|---|---|---|
| Lagrange.LagrangeInterpolation | lagrange_and_neville_interpolation.py:1-21 | Unequal lengths give LengthMismatch, even below two samples. Equal lengths below two give TooFewPoints. Any repeated x gives DuplicateX and never a value. It fires at the first pair (i, j), i ≠ j, in (i ascending, j ascending) order, and that pair always has i < j. Otherwise the result is Ok of the ascending sum of y_i times the basis product, and at a node x_k it equals y_k. |
| Lagrange.BasisTerm | lagrange_and_neville_interpolation.py:13-19 | The inner loop succeeds exactly when no other sample shares x_i, and then returns y_i times the product over j ≠ i, taken in ascending j. Otherwise it stops at the first j with x_j = x_i, and every earlier j differs from x_i. |
| Lagrange.WeightVanishesAtOtherNode | lagrange_and_neville_interpolation.py:14-19 | The basis product of sample k is zero at the x of any other sample in its window. |
| Lagrange.WeightIsOneAtOwnNode | lagrange_and_neville_interpolation.py:14-19 | The basis product of sample k is one at x_k. |
| Lagrange.LagrangeAtNode | lagrange_and_neville_interpolation.py:10-21 | Evaluated at a sample's x, Lagrange's sum over any distinct window containing that sample gives that sample's y. |
| Neville.NevilleInterpolation | lagrange_and_neville_interpolation.py:24-47 | It has the same error precedence as Lagrange. Any repeated x gives DuplicateX. It fires at the first pair (i, i+j) of the sweep, meaning the smallest gap j and then the smallest row i. Every pair of samples is tested by the sweep. Otherwise the result is Ok(Q[0][n−1]) with Q given by Neville's recurrence from Q[i][0] = y_i, and at a node x_k it equals y_k. |
| Neville.FillColumn | lagrange_and_neville_interpolation.py:39-45 | Column j is written only in rows i with i + j < n, each from cells (i, j−1) and (i+1, j−1) of the previous column. When a zero denominator stops the pass, that row and every later row of the column are left unwritten, and no other column changes. |
| Neville.CellAtNode | lagrange_and_neville_interpolation.py:39-45 | Evaluated at x_k, every cell (i, j) with i ≤ k ≤ i + j equals y_k. |
| Neville.CellReproducesLine | lagrange_and_neville_interpolation.py:39-45 | When the samples of a cell's window lie on a line a + b·t, every cell from column 1 on equals a + b·x. |
| Agreement.LagrangeRecurrence | lagrange_and_neville_interpolation.py:44-45 | Lagrange's sum on the window [lo, hi) satisfies Neville's update. Combined through it are the sums on the window without its last sample and the window without its first sample. |
| Agreement.CellIsLagrange | lagrange_and_neville_interpolation.py:33-45 | Every tableau cell (i, j) equals Lagrange's formula on the samples i .. i+j. |
| Agreement.LagrangeEqualsNeville | lagrange_and_neville_interpolation.py:10-47 | On every valid input, the value Lagrange accumulates equals Neville's Q[0][n−1]. |
| Agreement.BothReproduceLine | lagrange_and_neville_interpolation.py:10-47 | Samples taken from a line a + b·t make both routines return a + b·x at every x. |
| Agreement.CrossCheck | lagrange_and_neville_interpolation.py:59-64 | Calling both routines on the same input gives equal results, error kinds included. The result is a value exactly when the input is valid. |
| Agreement.SquaresDemo | lagrange_and_neville_interpolation.py:53-64 | Both routines, called on the demo data x = 1, 2, 3, 4 and y = x² at x = 5/2, return Ok(25/4) as exact reals. That is the value of x² there. |

## Left out

- `main` (lines 50-76) is the demo driver. Its printing to four decimals and its dispatch on exception kinds are I/O and are left out. Its sample computation appears as `Agreement.SquaresDemo`.
- IEEE floating point is not modelled: values are exact reals. So rounding differences between the two methods, NaN and infinities are left out.
- Samples whose x-coordinates repeat only as the same infinity make the two Python functions (lines 16-18 and 41-43) behave differently from the model. In floating point, inf − inf is NaN, which is not equal to 0. So no ZeroDivisionError is raised, the loops carry on, and the result is NaN. The model returns `DuplicateX`.
- If a finite x is also repeated, Python still raises ZeroDivisionError at that pair. That is the same error kind as the model's `DuplicateX`.
- A NaN sample x likewise gives a NaN denominator and no error at that pair, and NaN is unequal to itself. The scan does not stop there, so an error is raised only when a finite x is repeated. The model has no counterpart to NaN.
- An infinite x against a finite one gives an infinite, nonzero denominator, so Python raises nothing there. The model has no infinite values, so this case is outside it.
- Python's int/float distinction is left out: all inputs are reals.
- The tableau is allocated as n×n, as in the Python function, and its unused cells are never read. The model does not describe their initial 0.0 contents.
- The error messages are left out: only the error kind is modelled. The two routines' ZeroDivisionError texts differ.
- Exact reproduction of polynomials of degree two or more is not proved in general. It is proved for lines (`Agreement.BothReproduceLine`) and for the degree-two demo data (`Agreement.SquaresDemo`). The general statement needs the uniqueness of the interpolating polynomial, which this model does not formalise.
- Determinism needs no lemma: the contracts of `LagrangeInterpolation` and `NevilleInterpolation` fix the result for every input.
