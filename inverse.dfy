/** The Gauss–Jordan inversion that `inv` evidently intends. It uses the
    same pivot search, row swaps, normalisation and eliminations as the code,
    but reads the divisor and each elimination factor once, before the row
    they come from is overwritten.

    The n × 2n scratch grid is kept as its two halves. Row operations apply
    to whole rows. In the code they start at the pivot column, but the cells
    they skip are zero in both rows concerned, so the result is the same. */
module Inverse {
  import opened Grids
  import opened Pivoting

  /** The scratch grid: the left half and the right half. */
  datatype Halves = Halves(left: Grid, right: Grid)

  ghost predicate Shaped(h: Halves, n: nat) {
    IsSquare(h.left, n) && IsSquare(h.right, n)
  }

  // ---------------------------------------------------------------------
  // Row operations

  /** Rows `i` and `j` exchanged. */
  function SwapRows(g: Grid, i: nat, j: nat, n: nat): (h: Grid)
    requires IsSquare(g, n) && i < n && j < n
    ensures IsSquare(h, n)
    ensures forall r :: 0 <= r < n ==> h[r] == g[if r == i then j else if r == j then i else r]
  {
    SwapAt(g, i, j)
  }

  /** Row `i` divided by `d`. */
  function DivideRow(g: Grid, i: nat, d: real, n: nat): (h: Grid)
    requires IsSquare(g, n) && i < n && d != 0.0
    ensures IsSquare(h, n)
    ensures forall r, c :: 0 <= r < n && 0 <= c < n ==> h[r][c] == if r == i then g[i][c] / d else g[r][c]
    ensures forall r :: 0 <= r < n && r != i ==> h[r] == g[r]
  {
    g[i := seq(n, c requires 0 <= c < n => g[i][c] / d)]
  }

  /** Row `j` minus `f` times row `i`. */
  function SubtractRow(g: Grid, j: nat, i: nat, f: real, n: nat): (h: Grid)
    requires IsSquare(g, n) && i < n && j < n
    ensures IsSquare(h, n)
    ensures forall r, c :: 0 <= r < n && 0 <= c < n ==>
      h[r][c] == if r == j then g[j][c] - g[i][c] * f else g[r][c]
    ensures forall r :: 0 <= r < n && r != j ==> h[r] == g[r]
  {
    g[j := seq(n, c requires 0 <= c < n => g[j][c] - g[i][c] * f)]
  }

  // ---------------------------------------------------------------------
  // The corrected algorithm

  /** Divides the pivot row by the pivot when it is not 1 already, the
      pivot being read once. The pivot becomes 1; no other row changes. */
  function Normalize(h: Halves, i: nat, n: nat): (res: Halves)
    requires Shaped(h, n) && i < n && h.left[i][i] != 0.0
    ensures Shaped(res, n) && res.left[i][i] == 1.0
    ensures forall r :: 0 <= r < n && r != i ==> res.left[r] == h.left[r] && res.right[r] == h.right[r]
  {
    var d := h.left[i][i];
    if d != 1.0 then
      var g := DivideRow(h.left, i, d, n);
      assert g[i][i] == d / d;
      assert d / d == 1.0;
      Halves(g, DivideRow(h.right, i, d, n))
    else h
  }

  /** Clears column `i` in rows j, ..., n-1 with the pivot row `i`, each
      factor being read before its row changes. Rows above `j` are kept;
      below a unit pivot, column `i` ends zero. */
  function ClearBelow(h: Halves, i: nat, j: nat, n: nat): (res: Halves)
    requires Shaped(h, n) && i < j <= n
    ensures Shaped(res, n)
    ensures forall r :: 0 <= r < j ==> res.left[r] == h.left[r] && res.right[r] == h.right[r]
    ensures h.left[i][i] == 1.0 ==> forall r :: j <= r < n ==> res.left[r][i] == 0.0
    decreases n - j
  {
    if j == n then h
    else if h.left[j][i] != 0.0 then
      var f := h.left[j][i];
      ClearBelow(Halves(SubtractRow(h.left, j, i, f, n), SubtractRow(h.right, j, i, f, n)), i, j + 1, n)
    else ClearBelow(h, i, j + 1, n)
  }

  /** Steps i, ..., n-1 of the forward pass. Fails when a pivot search
      finds only zeros. On success rows 0..i-1 are kept and the diagonal
      from `i` on is 1. */
  function ForwardFrom(h: Halves, i: nat, n: nat): (res: Option<Halves>)
    requires Shaped(h, n) && i <= n
    ensures res.Some? ==> Shaped(res.value, n)
    ensures res.Some? ==> forall r :: 0 <= r < i ==> res.value.left[r] == h.left[r] && res.value.right[r] == h.right[r]
    ensures res.Some? ==> forall r :: i <= r < n ==> res.value.left[r][r] == 1.0
    decreases n - i
  {
    if i == n then Some(h)
    else match FirstNonZero(h.left, Iota(n), i, i, n)
      case None => None
      case Some(j) => ForwardFrom(PivotStep(h, i, j, n), i + 1, n)
  }

  /** Step `i` of the forward pass with the pivot found in row `j`: swap
      rows i and j when they differ, normalise, clear below. The pivot
      ends 1 with zeros below it; rows 0..i-1 are kept. */
  function PivotStep(h: Halves, i: nat, j: nat, n: nat): (res: Halves)
    requires Shaped(h, n) && i <= j < n && h.left[j][i] != 0.0
    ensures Shaped(res, n) && res.left[i][i] == 1.0
    ensures forall r :: i < r < n ==> res.left[r][i] == 0.0
    ensures forall r :: 0 <= r < i ==> res.left[r] == h.left[r] && res.right[r] == h.right[r]
  {
    ClearBelow(Normalize(Swapped(h, i, j, n), i, n), i, i + 1, n)
  }

  /** Rows `i` and `j` exchanged in both halves when they differ. */
  function Swapped(h: Halves, i: nat, j: nat, n: nat): (res: Halves)
    requires Shaped(h, n) && i < n && j < n
    ensures Shaped(res, n)
    ensures forall r :: 0 <= r < n ==>
      res.left[r] == h.left[if r == i then j else if r == j then i else r] &&
      res.right[r] == h.right[if r == i then j else if r == j then i else r]
  {
    if i != j then Halves(SwapRows(h.left, i, j, n), SwapRows(h.right, i, j, n)) else h
  }

  /** Clears column `i` in rows j, ..., i-1 with the pivot row `i`, each
      factor being read before its row changes. Rows above `j` and from `i`
      on are kept; above a unit pivot, column `i` ends zero from row `j`. */
  function ClearAbove(h: Halves, i: nat, j: nat, n: nat): (res: Halves)
    requires Shaped(h, n) && j <= i < n
    ensures Shaped(res, n)
    ensures forall r :: (0 <= r < j || i <= r < n) ==> res.left[r] == h.left[r] && res.right[r] == h.right[r]
    ensures h.left[i][i] == 1.0 ==> forall r :: j <= r < i ==> res.left[r][i] == 0.0
    decreases i - j
  {
    if j == i then h
    else if h.left[j][i] != 0.0 then
      var f := h.left[j][i];
      ClearAbove(Halves(SubtractRow(h.left, j, i, f, n), SubtractRow(h.right, j, i, f, n)), i, j + 1, n)
    else ClearAbove(h, i, j + 1, n)
  }

  /** The reduction for columns i, i-1, ..., 1. It only changes rows
      above `i`. */
  function ReduceFrom(h: Halves, i: nat, n: nat): (res: Halves)
    requires Shaped(h, n) && i < n
    ensures Shaped(res, n)
    ensures forall r :: i <= r < n ==> res.left[r] == h.left[r] && res.right[r] == h.right[r]
    decreases i
  {
    if i == 0 then h else ReduceFrom(ClearAbove(h, i, 0, n), i - 1, n)
  }

  /** The intended `inv`: the right half of [a | identity] after the
      forward pass and the reduction, or None where `inv` returns the
      size-0 matrix. When it succeeds, its result times `a` is the
      identity: it is a left inverse of `a`. */
  function IntendedInverse(a: Grid, n: nat): (r: Option<Grid>)
    requires IsSquare(a, n) && n >= 1
    ensures r.Some? ==> IsSquare(r.value, n) && Mul(r.value, a, n) == Identity(n)
  {
    var start := Halves(a, Identity(n));
    MulIdentity(a, n);
    ForwardFromSpec(start, a, 0, n);
    match ForwardFrom(start, 0, n)
      case None => None
      case Some(h) =>
        ReduceFromSpec(h, a, n - 1, n);
        GridsEqual(ReduceFrom(h, n - 1, n).left, Identity(n), n);
        Some(ReduceFrom(h, n - 1, n).right)
  }

  // ---------------------------------------------------------------------
  // Row operations commute with multiplication on the right

  lemma ProdDivided(u: real, w: real, d: real)
    requires d != 0.0
    ensures Prod(u / d, w) == Prod(u, w) / d
  {
  }

  lemma SumDivided(p: real, q: real, d: real)
    requires d != 0.0
    ensures p / d + q / d == (p + q) / d
  {
  }

  lemma ProdSubtracted(u: real, v: real, f: real, w: real)
    ensures Prod(u - v * f, w) == Prod(u, w) - Prod(v, w) * f
  {
  }

  /** A row equal to row `x` of `g` has the same products. */
  lemma {:induction false} DotSameRow(s: Grid, g: Grid, a: Grid, r: nat, x: nat, c: nat, k: nat, n: nat)
    requires IsSquare(s, n) && IsSquare(g, n) && IsSquare(a, n) && r < n && x < n && c < n && k <= n
    requires s[r] == g[x]
    ensures Dot(s, a, r, c, k, n) == Dot(g, a, x, c, k, n)
  {
    if k > 0 {
      DotSameRow(s, g, a, r, x, c, k - 1, n);
    }
  }

  /** A row equal to row `x` of `g` divided by `d` has its products divided by `d`. */
  lemma {:induction false} DotDividedRow(s: Grid, g: Grid, a: Grid, r: nat, x: nat, d: real, c: nat, k: nat, n: nat)
    requires IsSquare(s, n) && IsSquare(g, n) && IsSquare(a, n) && r < n && x < n && c < n && k <= n
    requires d != 0.0 && forall t :: 0 <= t < n ==> s[r][t] == g[x][t] / d
    ensures Dot(s, a, r, c, k, n) == Dot(g, a, x, c, k, n) / d
  {
    if k > 0 {
      DotDividedRow(s, g, a, r, x, d, c, k - 1, n);
      ProdDivided(g[x][k - 1], a[k - 1][c], d);
      SumDivided(Dot(g, a, x, c, k - 1, n), Prod(g[x][k - 1], a[k - 1][c]), d);
    }
  }

  /** A row equal to row `x` minus `f` times row `y` has the products of
      row `x` minus `f` times those of row `y`. */
  lemma {:induction false} DotSubtractedRow(s: Grid, g: Grid, a: Grid, r: nat, x: nat, y: nat, f: real,
                                            c: nat, k: nat, n: nat)
    requires IsSquare(s, n) && IsSquare(g, n) && IsSquare(a, n) && r < n && x < n && y < n && c < n && k <= n
    requires forall t :: 0 <= t < n ==> s[r][t] == g[x][t] - g[y][t] * f
    ensures Dot(s, a, r, c, k, n) == Dot(g, a, x, c, k, n) - Dot(g, a, y, c, k, n) * f
  {
    if k > 0 {
      DotSubtractedRow(s, g, a, r, x, y, f, c, k - 1, n);
      ProdSubtracted(g[x][k - 1], g[y][k - 1], f, a[k - 1][c]);
    }
  }

  /** Swapping rows of `g` swaps the rows of g·a. */
  lemma MulSwapRows(g: Grid, a: Grid, i: nat, j: nat, n: nat)
    requires IsSquare(g, n) && IsSquare(a, n) && i < n && j < n
    ensures Mul(SwapRows(g, i, j, n), a, n) == SwapRows(Mul(g, a, n), i, j, n)
  {
    var s, p := SwapRows(g, i, j, n), Mul(g, a, n);
    forall r, c | 0 <= r < n && 0 <= c < n ensures Mul(s, a, n)[r][c] == SwapRows(p, i, j, n)[r][c] {
      DotSameRow(s, g, a, r, if r == i then j else if r == j then i else r, c, n, n);
    }
    GridsEqual(Mul(s, a, n), SwapRows(p, i, j, n), n);
  }

  /** Dividing a row of `g` divides that row of g·a. */
  lemma MulDivideRow(g: Grid, a: Grid, i: nat, d: real, n: nat)
    requires IsSquare(g, n) && IsSquare(a, n) && i < n && d != 0.0
    ensures Mul(DivideRow(g, i, d, n), a, n) == DivideRow(Mul(g, a, n), i, d, n)
  {
    var s, p := DivideRow(g, i, d, n), Mul(g, a, n);
    forall r, c | 0 <= r < n && 0 <= c < n ensures Mul(s, a, n)[r][c] == DivideRow(p, i, d, n)[r][c] {
      if r == i {
        DotDividedRow(s, g, a, r, i, d, c, n, n);
      } else {
        DotSameRow(s, g, a, r, r, c, n, n);
      }
    }
    GridsEqual(Mul(s, a, n), DivideRow(p, i, d, n), n);
  }

  /** Subtracting a multiple of a row of `g` does the same to g·a. */
  lemma MulSubtractRow(g: Grid, a: Grid, j: nat, i: nat, f: real, n: nat)
    requires IsSquare(g, n) && IsSquare(a, n) && i < n && j < n
    ensures Mul(SubtractRow(g, j, i, f, n), a, n) == SubtractRow(Mul(g, a, n), j, i, f, n)
  {
    var s, p := SubtractRow(g, j, i, f, n), Mul(g, a, n);
    forall r, c | 0 <= r < n && 0 <= c < n ensures Mul(s, a, n)[r][c] == SubtractRow(p, j, i, f, n)[r][c] {
      if r == j {
        DotSubtractedRow(s, g, a, r, j, i, f, c, n, n);
      } else {
        DotSameRow(s, g, a, r, r, c, n, n);
      }
    }
    GridsEqual(Mul(s, a, n), SubtractRow(p, j, i, f, n), n);
  }

  // ---------------------------------------------------------------------
  // Correctness of the corrected algorithm

  /** The right half times `a` is the left half: every row operation is
      applied to both halves of [a | identity]. */
  ghost predicate Tracks(h: Halves, a: Grid, n: nat)
    requires Shaped(h, n) && IsSquare(a, n)
  {
    Mul(h.right, a, n) == h.left
  }

  /** Columns 0..i-1 are unit columns from the diagonal down. */
  ghost predicate UnitBelow(g: Grid, i: nat, n: nat)
    requires IsSquare(g, n)
  {
    forall r, c :: 0 <= c < i && c <= r < n && c < n ==> g[r][c] == if r == c then 1.0 else 0.0
  }

  /** Columns i..n-1 are zero above the diagonal. */
  ghost predicate ZeroAbove(g: Grid, i: nat, n: nat)
    requires IsSquare(g, n)
  {
    forall r, c :: i <= c < n && 0 <= r < c ==> g[r][c] == 0.0
  }

  /** Clearing below a unit pivot keeps the halves in step and columns
      0..i-1 unit from the diagonal down (column `i` is cleared by
      ClearBelow's own contract). */
  lemma {:induction false} ClearBelowSpec(h: Halves, a: Grid, i: nat, j: nat, n: nat)
    requires Shaped(h, n) && IsSquare(a, n) && i < j <= n && Tracks(h, a, n)
    requires UnitBelow(h.left, i, n) && h.left[i][i] == 1.0
    ensures Tracks(ClearBelow(h, i, j, n), a, n) && UnitBelow(ClearBelow(h, i, j, n).left, i, n)
    decreases n - j
  {
    if j < n && h.left[j][i] != 0.0 {
      var f := h.left[j][i];
      var next := Halves(SubtractRow(h.left, j, i, f, n), SubtractRow(h.right, j, i, f, n));
      ClearBelowStep(h, a, i, j, n);
      ClearBelowSpec(next, a, i, j + 1, n);
      assert ClearBelow(h, i, j, n) == ClearBelow(next, i, j + 1, n);
    } else if j < n {
      ClearBelowSpec(h, a, i, j + 1, n);
      assert ClearBelow(h, i, j, n) == ClearBelow(h, i, j + 1, n);
    }
  }

  /** Subtracting the unit pivot row `i` from a row `j` below it keeps the
      halves in step, columns 0..i-1 unit from the diagonal down, and the
      pivot, and makes row `j` zero in column `i`. */
  lemma ClearBelowStep(h: Halves, a: Grid, i: nat, j: nat, n: nat)
    requires Shaped(h, n) && IsSquare(a, n) && i < j < n && Tracks(h, a, n)
    requires UnitBelow(h.left, i, n) && h.left[i][i] == 1.0
    ensures var f := h.left[j][i];
      var next := Halves(SubtractRow(h.left, j, i, f, n), SubtractRow(h.right, j, i, f, n));
      Tracks(next, a, n) && UnitBelow(next.left, i, n) && next.left[j][i] == 0.0 &&
      forall r :: 0 <= r < n && r != j ==> next.left[r] == h.left[r]
  {
    var f := h.left[j][i];
    var g := SubtractRow(h.left, j, i, f, n);
    MulSubtractRow(h.right, a, j, i, f, n);
    forall c | 0 <= c < i ensures g[j][c] == 0.0 {
      assert h.left[i][c] == 0.0 && h.left[j][c] == 0.0;
    }
  }

  /** Swapping row `i` with a row `j` below keeps columns 0..i-1 unit from
      the diagonal down, since both rows are zero there. */
  lemma SwapKeepsUnitBelow(g: Grid, i: nat, j: nat, n: nat)
    requires IsSquare(g, n) && i <= j < n && UnitBelow(g, i, n)
    ensures UnitBelow(SwapRows(g, i, j, n), i, n)
  {
    var s := SwapRows(g, i, j, n);
    forall r, c | 0 <= c < i && c <= r < n ensures s[r][c] == if r == c then 1.0 else 0.0 {
      assert s[r] == g[if r == i then j else if r == j then i else r];
    }
  }

  /** The swap keeps the halves in step and columns 0..i-1 unit from the
      diagonal down. */
  lemma SwappedSpec(h: Halves, a: Grid, i: nat, j: nat, n: nat)
    requires Shaped(h, n) && IsSquare(a, n) && i <= j < n && Tracks(h, a, n) && UnitBelow(h.left, i, n)
    ensures Tracks(Swapped(h, i, j, n), a, n) && UnitBelow(Swapped(h, i, j, n).left, i, n)
  {
    if i != j {
      MulSwapRows(h.right, a, i, j, n);
      SwapKeepsUnitBelow(h.left, i, j, n);
    }
  }

  /** Normalising keeps the halves in step and columns 0..i-1 unit from the
      diagonal down, and makes the pivot 1. */
  lemma NormalizeSpec(h: Halves, a: Grid, i: nat, n: nat)
    requires Shaped(h, n) && IsSquare(a, n) && i < n && h.left[i][i] != 0.0
    requires Tracks(h, a, n) && UnitBelow(h.left, i, n)
    ensures Tracks(Normalize(h, i, n), a, n) && UnitBelow(Normalize(h, i, n).left, i, n)
    ensures Normalize(h, i, n).left[i][i] == 1.0
  {
    var d := h.left[i][i];
    if d != 1.0 {
      var g := DivideRow(h.left, i, d, n);
      MulDivideRow(h.right, a, i, d, n);
      assert Normalize(h, i, n) == Halves(g, DivideRow(h.right, i, d, n));
      forall r, c | 0 <= c < i && c <= r < n ensures g[r][c] == if r == c then 1.0 else 0.0 {
        if r == i {
          assert g[i][c] == 0.0 / d;
        }
      }
      assert g[i][i] == d / d;
    }
  }

  /** One pivot step keeps the halves in step and makes column `i` unit
      from the diagonal down. */
  lemma PivotStepSpec(h: Halves, a: Grid, i: nat, j: nat, n: nat)
    requires Shaped(h, n) && IsSquare(a, n) && i <= j < n && h.left[j][i] != 0.0
    requires Tracks(h, a, n) && UnitBelow(h.left, i, n)
    ensures Tracks(PivotStep(h, i, j, n), a, n) && UnitBelow(PivotStep(h, i, j, n).left, i + 1, n)
  {
    var swapped := Swapped(h, i, j, n);
    SwappedSpec(h, a, i, j, n);
    NormalizeSpec(swapped, a, i, n);
    ClearBelowSpec(Normalize(swapped, i, n), a, i, i + 1, n);
    UnitBelowExtend(PivotStep(h, i, j, n).left, i, n);
  }

  /** A unit column `i` from the diagonal down extends UnitBelow by one. */
  lemma UnitBelowExtend(g: Grid, i: nat, n: nat)
    requires IsSquare(g, n) && i < n && UnitBelow(g, i, n)
    requires g[i][i] == 1.0 && forall r :: i < r < n ==> g[r][i] == 0.0
    ensures UnitBelow(g, i + 1, n)
  {
    forall r, c | 0 <= c < i + 1 && c <= r < n ensures g[r][c] == if r == c then 1.0 else 0.0 {
      if c < i {
        assert UnitBelow(g, i, n);
      }
    }
  }

  /** A column `i` zero above the diagonal extends ZeroAbove by one. */
  lemma ZeroAboveExtend(g: Grid, i: nat, n: nat)
    requires IsSquare(g, n) && i < n && ZeroAbove(g, i + 1, n)
    requires forall r :: 0 <= r < i ==> g[r][i] == 0.0
    ensures ZeroAbove(g, i, n)
  {
    forall r, c | i <= c < n && 0 <= r < c ensures g[r][c] == 0.0 {
      if c > i {
        assert ZeroAbove(g, i + 1, n);
      }
    }
  }

  /** The forward pass keeps the halves in step and, when it succeeds,
      leaves the left half unit upper triangular. */
  lemma {:induction false} ForwardFromSpec(h: Halves, a: Grid, i: nat, n: nat)
    requires Shaped(h, n) && IsSquare(a, n) && i <= n && Tracks(h, a, n) && UnitBelow(h.left, i, n)
    ensures ForwardFrom(h, i, n).Some? ==>
      Tracks(ForwardFrom(h, i, n).value, a, n) && UnitBelow(ForwardFrom(h, i, n).value.left, n, n)
    decreases n - i
  {
    if i < n {
      match FirstNonZero(h.left, Iota(n), i, i, n)
      case None =>
      case Some(j) =>
        PivotStepSpec(h, a, i, j, n);
        ForwardFromSpec(PivotStep(h, i, j, n), a, i + 1, n);
    }
  }

  /** Subtracting the unit pivot row `i` from row `j` above it keeps the
      halves in step and the left half unit upper triangular, and changes
      row `j` only in column `i`, which becomes zero. */
  lemma ClearAboveStep(h: Halves, a: Grid, i: nat, j: nat, n: nat)
    requires Shaped(h, n) && IsSquare(a, n) && j < i < n && Tracks(h, a, n)
    requires UnitBelow(h.left, n, n) && ZeroAbove(h.left, i + 1, n)
    ensures var f := h.left[j][i];
      var next := Halves(SubtractRow(h.left, j, i, f, n), SubtractRow(h.right, j, i, f, n));
      Tracks(next, a, n) && UnitBelow(next.left, n, n) && ZeroAbove(next.left, i + 1, n) &&
      next.left[j][i] == 0.0 && forall r :: 0 <= r < n && r != j ==> next.left[r] == h.left[r]
  {
    var f := h.left[j][i];
    var next := Halves(SubtractRow(h.left, j, i, f, n), SubtractRow(h.right, j, i, f, n));
    MulSubtractRow(h.right, a, j, i, f, n);
    forall c | 0 <= c < n ensures next.left[j][c] == if c == i then 0.0 else h.left[j][c] {
      assert h.left[i][c] == if c == i then 1.0 else 0.0;
    }
  }

  /** Clearing above the unit pivot of column `i` keeps the halves in step,
      the left half unit upper triangular and columns i+1..n-1 zero above
      the diagonal (column `i` is cleared by ClearAbove's own contract). */
  lemma {:induction false} ClearAboveSpec(h: Halves, a: Grid, i: nat, j: nat, n: nat)
    requires Shaped(h, n) && IsSquare(a, n) && j <= i < n && Tracks(h, a, n)
    requires UnitBelow(h.left, n, n) && ZeroAbove(h.left, i + 1, n)
    ensures Tracks(ClearAbove(h, i, j, n), a, n)
    ensures UnitBelow(ClearAbove(h, i, j, n).left, n, n) && ZeroAbove(ClearAbove(h, i, j, n).left, i + 1, n)
    decreases i - j
  {
    if j < i && h.left[j][i] != 0.0 {
      var f := h.left[j][i];
      var next := Halves(SubtractRow(h.left, j, i, f, n), SubtractRow(h.right, j, i, f, n));
      ClearAboveStep(h, a, i, j, n);
      ClearAboveSpec(next, a, i, j + 1, n);
      assert ClearAbove(h, i, j, n) == ClearAbove(next, i, j + 1, n);
    } else if j < i {
      ClearAboveSpec(h, a, i, j + 1, n);
      assert ClearAbove(h, i, j, n) == ClearAbove(h, i, j + 1, n);
    }
  }

  /** The reduction keeps the halves in step and clears the left half
      above the diagonal. */
  lemma {:induction false} ReduceFromSpec(h: Halves, a: Grid, i: nat, n: nat)
    requires Shaped(h, n) && IsSquare(a, n) && i < n && Tracks(h, a, n)
    requires UnitBelow(h.left, n, n) && ZeroAbove(h.left, i + 1, n)
    ensures Tracks(ReduceFrom(h, i, n), a, n)
    ensures UnitBelow(ReduceFrom(h, i, n).left, n, n) && ZeroAbove(ReduceFrom(h, i, n).left, 1, n)
    decreases i
  {
    if i > 0 {
      var cleared := ClearAbove(h, i, 0, n);
      ClearAboveSpec(h, a, i, 0, n);
      assert h.left[i][i] == 1.0;
      ZeroAboveExtend(cleared.left, i, n);
      ReduceFromSpec(cleared, a, i - 1, n);
      assert ReduceFrom(h, i, n) == ReduceFrom(cleared, i - 1, n);
    }
  }

  // ---------------------------------------------------------------------
  // The discrepancy on the smallest example

  /** `inv` as written on [[2]]: the pivot is found in place and the result
      is [[1]], which times [[2]] is not the identity. */
  lemma InvOfTwoAsWritten()
    ensures PivotPerm([[2.0]], 1) == Some([0])
    ensures PermMatrix([0], 1) == [[1.0]]
    ensures Mul(PermMatrix([0], 1), [[2.0]], 1) != Identity(1)
  {
    var a: Grid := [[2.0]];
    assert Iota(1) == [0];
    assert FirstNonZero(a, [0], 0, 0, 1) == Some(0);
    assert SwapAt([0], 0, 0) == [0];
    assert PermMatrix([0], 1)[0] == [1.0];
    assert Dot(PermMatrix([0], 1), a, 0, 0, 1, 1) == 2.0;
  }

  /** `inv` as written reports success on the singular matrix
      [[1, 1], [1, 1]]: the aliased factor leaves row 1 as it was, the
      pivot search reads its original entries, and the result is the
      identity. */
  lemma InvOfSingularAsWritten()
    ensures PivotPerm([[1.0, 1.0], [1.0, 1.0]], 2) == Some([0, 1])
    ensures PermMatrix([0, 1], 2) == Identity(2)
  {
    var a: Grid := [[1.0, 1.0], [1.0, 1.0]];
    assert Iota(2) == [0, 1];
    assert FirstNonZero(a, [0, 1], 0, 0, 2) == Some(0);
    assert SwapAt([0, 1], 0, 0) == [0, 1];
    assert FirstNonZero(a, [0, 1], 1, 1, 2) == Some(1);
    assert SwapAt([0, 1], 1, 1) == [0, 1];
    GridsEqual(PermMatrix([0, 1], 2), Identity(2), 2);
  }

  /** [[1, 1], [1, 1]] has no left inverse: both columns of any product
      with it are equal, and those of the identity are not. */
  lemma SingularHasNoLeftInverse(r: Grid)
    requires IsSquare(r, 2)
    ensures Mul(r, [[1.0, 1.0], [1.0, 1.0]], 2) != Identity(2)
  {
    var a: Grid := [[1.0, 1.0], [1.0, 1.0]];
    assert Dot(r, a, 0, 0, 2, 2) == Dot(r, a, 0, 1, 2, 2) by {
      DotStep(r, a, 0, 0, 1, 2);
      DotStep(r, a, 0, 1, 1, 2);
      DotStep(r, a, 0, 0, 0, 2);
      DotStep(r, a, 0, 1, 0, 2);
    }
    assert Identity(2)[0][0] != Identity(2)[0][1];
  }

  /** `inv` as written fails on the invertible matrix [[1, 1], [1, 0]]:
      the aliased factor leaves cell [1][1] at 0 instead of -1, so the
      second pivot search finds only zeros. [[0, 1], [1, -1]] is its
      inverse on both sides. */
  lemma InvFailsOnInvertibleAsWritten()
    ensures PivotPerm([[1.0, 1.0], [1.0, 0.0]], 2) == None
    ensures Mul([[0.0, 1.0], [1.0, -1.0]], [[1.0, 1.0], [1.0, 0.0]], 2) == Identity(2)
    ensures Mul([[1.0, 1.0], [1.0, 0.0]], [[0.0, 1.0], [1.0, -1.0]], 2) == Identity(2)
  {
    var a: Grid := [[1.0, 1.0], [1.0, 0.0]];
    var b: Grid := [[0.0, 1.0], [1.0, -1.0]];
    assert Iota(2) == [0, 1];
    assert FirstNonZero(a, [0, 1], 0, 0, 2) == Some(0);
    assert SwapAt([0, 1], 0, 0) == [0, 1];
    assert FirstNonZero(a, [0, 1], 1, 1, 2) == None;
    GridsEqual(Mul(b, a, 2), Identity(2), 2);
    GridsEqual(Mul(a, b, 2), Identity(2), 2);
  }

  /** The corrected `inv` succeeds on [[1, 1], [1, 0]] and returns its
      inverse [[0, 1], [1, -1]]. */
  lemma IntendedInverseOfInvertible()
    ensures IntendedInverse([[1.0, 1.0], [1.0, 0.0]], 2) == Some([[0.0, 1.0], [1.0, -1.0]])
  {
    var a: Grid := [[1.0, 1.0], [1.0, 0.0]];
    var start := Halves(a, Identity(2));
    assert Identity(2) == [[1.0, 0.0], [0.0, 1.0]] by {
      assert Identity(2)[0] == [1.0, 0.0];
      assert Identity(2)[1] == [0.0, 1.0];
    }
    assert Iota(2) == [0, 1];
    assert FirstNonZero(a, Iota(2), 0, 0, 2) == Some(0);
    var first := PivotStep(start, 0, 0, 2);
    assert first.left[1] == [0.0, -1.0];
    assert first.right[1] == [-1.0, 1.0];
    assert first.left[0] == [1.0, 1.0] && first.right[0] == [1.0, 0.0];
    assert FirstNonZero(first.left, Iota(2), 1, 1, 2) == Some(1);
    var second := PivotStep(first, 1, 1, 2);
    assert second.left[1] == [0.0, 1.0];
    assert second.right[1] == [1.0, -1.0];
    assert ForwardFrom(start, 0, 2) == Some(second);
    var done := ClearAbove(second, 1, 0, 2);
    assert done.right[0] == [0.0, 1.0];
    assert done.right == [[0.0, 1.0], [1.0, -1.0]];
  }

  /** The corrected `inv` on [[2]] returns [[1/2]]. */
  lemma IntendedInverseOfTwo()
    ensures IntendedInverse([[2.0]], 1) == Some([[0.5]])
  {
    var a: Grid := [[2.0]];
    var start := Halves(a, Identity(1));
    assert Identity(1) == [[1.0]] by {
      assert Identity(1)[0] == [1.0];
    }
    assert Iota(1) == [0];
    assert FirstNonZero(a, Iota(1), 0, 0, 1) == Some(0);
    var normal := Normalize(Swapped(start, 0, 0, 1), 0, 1);
    assert normal.right == [[0.5]] by {
      assert normal.right[0] == [0.5];
    }
    assert normal.left == [[1.0]] by {
      assert normal.left[0] == [1.0];
    }
    assert PivotStep(start, 0, 0, 1) == normal;
    assert ForwardFrom(start, 0, 1) == Some(normal);
  }
}
