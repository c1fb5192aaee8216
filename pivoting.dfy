/** What `inv` computes. The pivot search looks, at step i, for the first row
    from row i down whose current entry in column i is non-zero, and swaps it
    into row i. The scratch grid's rows are the original rows permuted by
    these swaps; `p[r]` names the original row now at position r. The
    normalising and eliminating loops of `inv` read their divisor and factor
    through a reference to the cell they overwrite first, so apart from the
    swaps they change only the pivot column: the right half of the scratch
    grid ends as the identity with its rows permuted by `p`. */
module Pivoting {
  import opened Grids

  /** `p` lists row indices below `n`, one per position. */
  ghost predicate RowIndices(p: seq<nat>, n: nat) {
    |p| == n && forall k :: 0 <= k < n ==> p[k] < n
  }

  /** Some position of `p` below `n` holds `c`. */
  ghost predicate Lists(p: seq<nat>, n: nat, c: nat)
    requires |p| == n
  {
    exists k :: 0 <= k < n && p[k] == c
  }

  /** `p` lists each of 0..n-1 exactly once. */
  ghost predicate IsPermutation(p: seq<nat>, n: nat) {
    && RowIndices(p, n)
    && (forall i, j :: 0 <= i < j < n ==> p[i] != p[j])
    && (forall c :: 0 <= c < n ==> Lists(p, n, c))
  }

  lemma SwapKeepsPermutation(p: seq<nat>, n: nat, i: nat, j: nat)
    requires IsPermutation(p, n) && i < n && j < n
    ensures IsPermutation(SwapAt(p, i, j), n)
  {
    var q := SwapAt(p, i, j);
    forall c | 0 <= c < n ensures Lists(q, n, c) {
      assert Lists(p, n, c);
      var k :| 0 <= k < n && p[k] == c;
      if k == i {
        assert q[j] == c;
      } else if k == j {
        assert q[i] == c;
      } else {
        assert q[k] == c;
      }
    }
  }

  lemma IotaIsPermutation(n: nat)
    ensures IsPermutation(Iota(n), n)
  {
    forall c | 0 <= c < n ensures Lists(Iota(n), n, c) {
      assert Iota(n)[c] == c;
    }
  }

  /** The pivot search of step `i`, started at position `j`: the first
      position from `j` down whose row has a non-zero entry in column `i`. */
  function FirstNonZero(a: Grid, p: seq<nat>, i: nat, j: nat, n: nat): (r: Option<nat>)
    requires IsSquare(a, n) && RowIndices(p, n) && i < n
    ensures r.Some? ==> j <= r.value < n && a[p[r.value]][i] != 0.0
    ensures r.Some? ==> forall k :: j <= k < r.value ==> a[p[k]][i] == 0.0
    ensures r.None? ==> forall k :: j <= k < n ==> a[p[k]][i] == 0.0
    decreases n - j
  {
    if j >= n then None
    else if a[p[j]][i] != 0.0 then Some(j)
    else FirstNonZero(a, p, i, j + 1, n)
  }

  /** Steps `i`..n-1 of the forward pass, from the row order `p`: the final
      row order, or None when some step finds no pivot. */
  function PivotFrom(a: Grid, p: seq<nat>, i: nat, n: nat): (r: Option<seq<nat>>)
    requires IsSquare(a, n) && RowIndices(p, n) && i <= n
    ensures r.Some? ==> RowIndices(r.value, n)
    decreases n - i
  {
    if i == n then Some(p)
    else match FirstNonZero(a, p, i, i, n)
      case None => None
      case Some(j) => PivotFrom(a, SwapAt(p, i, j), i + 1, n)
  }

  /** The row order after the whole forward pass of `inv` on `a`. */
  function PivotPerm(a: Grid, n: nat): (r: Option<seq<nat>>)
    requires IsSquare(a, n)
    ensures r.Some? ==> RowIndices(r.value, n)
  {
    PivotFrom(a, Iota(n), 0, n)
  }

  /** The identity with its rows permuted: row r holds a 1 in column p[r]. */
  function PermMatrix(p: seq<nat>, n: nat): (m: Grid)
    requires RowIndices(p, n)
    ensures IsSquare(m, n)
    ensures forall r, c :: 0 <= r < n && 0 <= c < n ==> m[r][c] == if p[r] == c then 1.0 else 0.0
  {
    seq(n, r requires 0 <= r < n => seq(n, c requires 0 <= c < n => if p[r] == c then 1.0 else 0.0))
  }

  /** Row `r` holds a single 1 and zeros elsewhere. */
  ghost predicate RowIsUnit(m: Grid, r: nat, n: nat)
    requires IsSquare(m, n) && r < n
  {
    exists c :: 0 <= c < n && m[r][c] == 1.0 && forall d :: 0 <= d < n && d != c ==> m[r][d] == 0.0
  }

  /** Column `c` holds a single 1 and zeros elsewhere. */
  ghost predicate ColumnIsUnit(m: Grid, c: nat, n: nat)
    requires IsSquare(m, n) && c < n
  {
    exists r :: 0 <= r < n && m[r][c] == 1.0 && forall s :: 0 <= s < n && s != r ==> m[s][c] == 0.0
  }

  /** Every row and every column holds exactly one 1, all else 0. */
  ghost predicate IsPermutationMatrix(m: Grid, n: nat) {
    && IsSquare(m, n)
    && (forall r :: 0 <= r < n ==> RowIsUnit(m, r, n))
    && (forall c :: 0 <= c < n ==> ColumnIsUnit(m, c, n))
  }

  // ---------------------------------------------------------------------
  // What inv returns

  lemma {:induction false} PivotFromIsPermutation(a: Grid, p: seq<nat>, i: nat, n: nat)
    requires IsSquare(a, n) && IsPermutation(p, n) && i <= n
    ensures PivotFrom(a, p, i, n).Some? ==> IsPermutation(PivotFrom(a, p, i, n).value, n)
    decreases n - i
  {
    if i < n {
      match FirstNonZero(a, p, i, i, n)
      case None =>
      case Some(j) =>
        SwapKeepsPermutation(p, n, i, j);
        PivotFromIsPermutation(a, SwapAt(p, i, j), i + 1, n);
    }
  }

  lemma PermutationGivesPermutationMatrix(p: seq<nat>, n: nat)
    requires IsPermutation(p, n)
    ensures IsPermutationMatrix(PermMatrix(p, n), n)
  {
    var m := PermMatrix(p, n);
    forall r | 0 <= r < n ensures RowIsUnit(m, r, n) {
      assert m[r][p[r]] == 1.0;
    }
    forall c | 0 <= c < n ensures ColumnIsUnit(m, c, n) {
      assert Lists(p, n, c);
      var r :| 0 <= r < n && p[r] == c;
      assert m[r][c] == 1.0;
    }
  }

  /** When inv succeeds its result is a permutation matrix. */
  lemma InvResultIsPermutationMatrix(a: Grid, n: nat)
    requires IsSquare(a, n)
    ensures PivotPerm(a, n).Some? ==> IsPermutation(PivotPerm(a, n).value, n)
    ensures PivotPerm(a, n).Some? ==> IsPermutationMatrix(PermMatrix(PivotPerm(a, n).value, n), n)
  {
    IotaIsPermutation(n);
    PivotFromIsPermutation(a, Iota(n), 0, n);
    if PivotPerm(a, n).Some? {
      PermutationGivesPermutationMatrix(PivotPerm(a, n).value, n);
    }
  }

  lemma {:induction false} PivotFromNonZeroDiagonal(a: Grid, i: nat, n: nat)
    requires IsSquare(a, n) && i <= n
    requires forall k :: 0 <= k < n ==> a[k][k] != 0.0
    ensures PivotFrom(a, Iota(n), i, n) == Some(Iota(n))
    decreases n - i
  {
    if i < n {
      assert FirstNonZero(a, Iota(n), i, i, n) == Some(i);
      assert SwapAt(Iota(n), i, i) == Iota(n);
      PivotFromNonZeroDiagonal(a, i + 1, n);
    }
  }

  /** With no zero on the diagonal no row is ever swapped, and inv returns
      the identity. */
  lemma NonZeroDiagonalGivesIdentity(a: Grid, n: nat)
    requires IsSquare(a, n)
    requires forall k :: 0 <= k < n ==> a[k][k] != 0.0
    ensures PivotPerm(a, n) == Some(Iota(n))
    ensures PermMatrix(Iota(n), n) == Identity(n)
  {
    PivotFromNonZeroDiagonal(a, 0, n);
    GridsEqual(PermMatrix(Iota(n), n), Identity(n), n);
  }

  lemma {:induction false} PivotFromZeroColumn(a: Grid, p: seq<nat>, i: nat, c: nat, n: nat)
    requires IsSquare(a, n) && RowIndices(p, n) && i <= c < n
    requires forall r :: 0 <= r < n ==> a[r][c] == 0.0
    ensures PivotFrom(a, p, i, n) == None
    decreases c - i
  {
    match FirstNonZero(a, p, i, i, n)
    case None =>
    case Some(j) =>
      assert i != c;
      PivotFromZeroColumn(a, SwapAt(p, i, j), i + 1, c, n);
  }

  /** A matrix with an all-zero column is reported singular: inv fails. */
  lemma ZeroColumnSingular(a: Grid, c: nat, n: nat)
    requires IsSquare(a, n) && c < n
    requires forall r :: 0 <= r < n ==> a[r][c] == 0.0
    ensures PivotPerm(a, n) == None
  {
    PivotFromZeroColumn(a, Iota(n), 0, c, n);
  }

  lemma {:induction false} PivotFromZeroRow(a: Grid, p: seq<nat>, i: nat, z: nat, k: nat, n: nat)
    requires IsSquare(a, n) && RowIndices(p, n) && i <= k < n && p[k] == z
    requires forall c :: 0 <= c < n ==> a[z][c] == 0.0
    ensures PivotFrom(a, p, i, n) == None
    decreases n - i
  {
    match FirstNonZero(a, p, i, i, n)
    case None =>
    case Some(j) =>
      assert p[j] != z;
      var q := SwapAt(p, i, j);
      if k == i {
        assert q[j] == z && j > i;
        PivotFromZeroRow(a, q, i + 1, z, j, n);
      } else {
        assert q[k] == z;
        PivotFromZeroRow(a, q, i + 1, z, k, n);
      }
  }

  /** A matrix with an all-zero row is reported singular: inv fails. */
  lemma ZeroRowSingular(a: Grid, z: nat, n: nat)
    requires IsSquare(a, n) && z < n
    requires forall c :: 0 <= c < n ==> a[z][c] == 0.0
    ensures PivotPerm(a, n) == None
  {
    PivotFromZeroRow(a, Iota(n), 0, z, z, n);
  }

  lemma {:induction false} DotPermMatrix(p: seq<nat>, a: Grid, r: nat, c: nat, k: nat, n: nat)
    requires RowIndices(p, n) && IsSquare(a, n) && r < n && c < n && k <= n
    ensures Dot(PermMatrix(p, n), a, r, c, k, n) == if p[r] < k then a[p[r]][c] else 0.0
  {
    if k > 0 {
      DotPermMatrix(p, a, r, c, k - 1, n);
    }
  }

  /** Multiplying by inv's result only reorders rows: row r of the product
      is row p[r] of the operand. */
  lemma PermMatrixPermutesRows(p: seq<nat>, a: Grid, n: nat)
    requires RowIndices(p, n) && IsSquare(a, n)
    ensures forall r, c :: 0 <= r < n && 0 <= c < n ==> Mul(PermMatrix(p, n), a, n)[r][c] == a[p[r]][c]
  {
    forall r, c | 0 <= r < n && 0 <= c < n
      ensures Mul(PermMatrix(p, n), a, n)[r][c] == a[p[r]][c]
    {
      DotPermMatrix(p, a, r, c, n, n);
    }
  }
}
