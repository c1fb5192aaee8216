/** The cofactor (Laplace) determinant that computeSubDet evaluates. Like the
    source, it works on views of the grid: a list of row indices `rows`, each
    row read from column `col` onwards (the row pointers `mat[i] + 1` of the
    source, moved one column right per level of recursion). A view of k rows
    is a k×k matrix; its determinant is the 2×2 formula for k = 2 and
    otherwise the expansion along its first column. */
module Determinants {
  import opened Grids

  /** +1 for even rows, -1 for odd rows: the alternating `sign` of the expansion. */
  function Sign(k: nat): (s: real) {
    if k % 2 == 0 then 1.0 else -1.0
  }

  /** Consecutive rows have opposite signs. */
  lemma SignAlternates(k: nat)
    ensures Sign(k + 1) == -Sign(k)
  {
  }

  /** `s` without its element at index `k`. */
  function RemoveAt(s: seq<nat>, k: nat): (t: seq<nat>)
    requires k < |s|
    ensures |t| == |s| - 1
    ensures forall i :: 0 <= i < |t| ==> t[i] == s[if i < k then i else i + 1]
  {
    s[..k] + s[k + 1..]
  }

  /** `rows`, read from column `col`, is a square view inside the n×n grid `m`. */
  ghost predicate IsView(m: Grid, rows: seq<nat>, col: nat, n: nat) {
    IsSquare(m, n) && col + |rows| <= n && forall i :: 0 <= i < |rows| ==> rows[i] < n
  }

  /** Dropping a row and moving one column right stays inside the grid. */
  lemma RemoveAtView(m: Grid, rows: seq<nat>, col: nat, n: nat, k: nat)
    requires IsView(m, rows, col, n) && k < |rows|
    ensures IsView(m, RemoveAt(rows, k), col + 1, n)
  {
  }

  /** Determinant of the view `rows`, `col` (at least 2 rows). */
  function DetOf(m: Grid, rows: seq<nat>, col: nat, n: nat): (d: real)
    requires IsView(m, rows, col, n) && |rows| >= 2
    decreases |rows|, 1
  {
    if |rows| == 2 then
      m[rows[0]][col] * m[rows[1]][col + 1] - m[rows[0]][col + 1] * m[rows[1]][col]
    else CofactorSum(m, rows, col, |rows|, n)
  }

  /** The first `k` terms of the expansion of a view of at least 3 rows: the
      entry of row i in the view's first column, times the determinant of the
      view without row i one column further right, times Sign(i). */
  function CofactorSum(m: Grid, rows: seq<nat>, col: nat, k: nat, n: nat): (s: real)
    requires IsView(m, rows, col, n) && |rows| >= 3 && k <= |rows|
    decreases |rows|, 0, k
  {
    if k == 0 then 0.0
    else
      RemoveAtView(m, rows, col, n, k - 1);
      CofactorSum(m, rows, col, k - 1, n)
        + Term(m[rows[k - 1]][col], DetOf(m, RemoveAt(rows, k - 1), col + 1, n), Sign(k - 1))
  }

  /** One term of the expansion: entry times minor determinant times sign. */
  function Term(entry: real, minor: real, sign: real): (t: real) {
    entry * minor * sign
  }

  /** Determinant of an n×n grid, n >= 2: the view of all rows from column 0
      (computeDet). */
  function Det(m: Grid, n: nat): (d: real)
    requires IsSquare(m, n) && n >= 2
  {
    DetOf(m, Iota(n), 0, n)
  }

  /** One pass of computeSubDet's loop: adding the term of row `row`,
      computed from the view without that row, extends the expansion by one
      row, and the sign flips. */
  lemma ExpansionStep(m: Grid, rows: seq<nat>, col: nat, row: nat, n: nat, sub: seq<nat>,
                      acc: real, entry: real, minor: real, sign: real)
    requires IsView(m, rows, col, n) && |rows| >= 3 && row < |rows|
    requires sub == RemoveAt(rows, row) && IsView(m, sub, col + 1, n)
    requires acc == CofactorSum(m, rows, col, row, n)
    requires entry == m[rows[row]][col] && sign == Sign(row)
    requires minor == DetOf(m, sub, col + 1, n)
    ensures acc + Term(entry, minor, sign) == CofactorSum(m, rows, col, row + 1, n)
    ensures -sign == Sign(row + 1)
  {
    SignAlternates(row);
  }

  /** The grid with column `c` replaced by `v[0..n)`; unchanged when `c >= n`
      (deltaDeterminant). */
  function ReplaceColumn(m: Grid, c: nat, v: seq<real>, n: nat): (g: Grid)
    requires IsSquare(m, n) && (c < n ==> |v| >= n)
    ensures IsSquare(g, n)
    ensures forall i, j :: 0 <= i < n && 0 <= j < n ==> g[i][j] == if j == c then v[i] else m[i][j]
  {
    seq(n, i requires 0 <= i < n => seq(n, j requires 0 <= j < n => if j == c then v[i] else m[i][j]))
  }

  /** Substituting a column by its own values, or naming a column that does
      not exist, leaves the grid and so its determinant as they were. */
  lemma ReplaceOwnColumn(m: Grid, c: nat, n: nat)
    requires IsSquare(m, n) && n >= 2
    ensures c < n ==> ReplaceColumn(m, c, Column(m, c, n), n) == m
    ensures c < n ==> Det(ReplaceColumn(m, c, Column(m, c, n), n), n) == Det(m, n)
    ensures forall v: seq<real> :: c >= n ==> ReplaceColumn(m, c, v, n) == m
  {
    if c < n {
      GridsEqual(ReplaceColumn(m, c, Column(m, c, n), n), m, n);
    }
    forall v: seq<real> | c >= n ensures ReplaceColumn(m, c, v, n) == m {
      GridsEqual(ReplaceColumn(m, c, v, n), m, n);
    }
  }

  // ---------------------------------------------------------------------
  // Properties of the determinant

  lemma TermOfZero(minor: real, sign: real)
    ensures Term(0.0, minor, sign) == 0.0
  {
  }

  lemma TermOfOne(minor: real)
    ensures Term(1.0, minor, 1.0) == minor
  {
  }

  lemma TermOfZeroMinor(entry: real, sign: real)
    ensures Term(entry, 0.0, sign) == 0.0
  {
  }

  /** A view with an all-zero column has determinant 0. */
  lemma {:induction false} DetOfZeroColumn(m: Grid, rows: seq<nat>, col: nat, c: nat, n: nat)
    requires IsView(m, rows, col, n) && |rows| >= 2 && col <= c < col + |rows|
    requires forall i :: 0 <= i < |rows| ==> m[rows[i]][c] == 0.0
    ensures DetOf(m, rows, col, n) == 0.0
    decreases |rows|, 1
  {
    if |rows| > 2 {
      CofactorSumZeroColumn(m, rows, col, c, |rows|, n);
    }
  }

  lemma {:induction false} CofactorSumZeroColumn(m: Grid, rows: seq<nat>, col: nat, c: nat, k: nat, n: nat)
    requires IsView(m, rows, col, n) && |rows| >= 3 && col <= c < col + |rows| && k <= |rows|
    requires forall i :: 0 <= i < |rows| ==> m[rows[i]][c] == 0.0
    ensures CofactorSum(m, rows, col, k, n) == 0.0
    decreases |rows|, 0, k
  {
    if k > 0 {
      CofactorSumZeroColumn(m, rows, col, c, k - 1, n);
      var sub := RemoveAt(rows, k - 1);
      RemoveAtView(m, rows, col, n, k - 1);
      if c > col {
        DetOfZeroColumn(m, sub, col + 1, c, n);
        TermOfZeroMinor(m[rows[k - 1]][col], Sign(k - 1));
      } else {
        TermOfZero(DetOf(m, sub, col + 1, n), Sign(k - 1));
      }
    }
  }

  /** A grid with an all-zero column has determinant 0. */
  lemma DetZeroColumn(m: Grid, c: nat, n: nat)
    requires IsSquare(m, n) && n >= 2 && c < n
    requires forall r :: 0 <= r < n ==> m[r][c] == 0.0
    ensures Det(m, n) == 0.0
  {
    DetOfZeroColumn(m, Iota(n), 0, c, n);
  }

  /** The rows `from`, ..., n - 1. */
  function Range(from: nat, n: nat): (s: seq<nat>)
    requires from <= n
    ensures |s| == n - from && forall i :: 0 <= i < |s| ==> s[i] == from + i
  {
    seq(n - from, i => from + i)
  }

  /** When the view's first column is 1 on top and 0 below, only the first
      term of the expansion is left. */
  lemma {:induction false} CofactorSumFirstUnit(m: Grid, rows: seq<nat>, col: nat, k: nat, n: nat)
    requires IsView(m, rows, col, n) && |rows| >= 3 && 1 <= k <= |rows|
    requires m[rows[0]][col] == 1.0 && forall i :: 1 <= i < |rows| ==> m[rows[i]][col] == 0.0
    ensures IsView(m, RemoveAt(rows, 0), col + 1, n)
    ensures CofactorSum(m, rows, col, k, n) == DetOf(m, RemoveAt(rows, 0), col + 1, n)
  {
    RemoveAtView(m, rows, col, n, 0);
    if k > 1 {
      CofactorSumFirstUnit(m, rows, col, k - 1, n);
      RemoveAtView(m, rows, col, n, k - 1);
      TermOfZero(DetOf(m, RemoveAt(rows, k - 1), col + 1, n), Sign(k - 1));
    } else {
      TermOfOne(DetOf(m, RemoveAt(rows, 0), col + 1, n));
    }
  }

  /** The bottom-right corner of the identity from row and column `from` on
      has determinant 1. */
  lemma {:induction false} DetOfIdentityCorner(n: nat, from: nat)
    requires from + 2 <= n
    ensures IsView(Identity(n), Range(from, n), from, n)
    ensures DetOf(Identity(n), Range(from, n), from, n) == 1.0
    decreases n - from
  {
    var id, rows := Identity(n), Range(from, n);
    if n - from > 2 {
      CofactorSumFirstUnit(id, rows, from, |rows|, n);
      assert RemoveAt(rows, 0) == Range(from + 1, n);
      DetOfIdentityCorner(n, from + 1);
    }
  }

  /** The identity has determinant 1 at every size. */
  lemma DetIdentity(n: nat)
    requires n >= 2
    ensures Det(Identity(n), n) == 1.0
  {
    DetOfIdentityCorner(n, 0);
    assert Range(0, n) == Iota(n);
  }

  /** For 2×2 grids the determinant is ad - bc. */
  lemma DetTwo(a: real, b: real, c: real, d: real)
    ensures Det([[a, b], [c, d]], 2) == a * d - b * c
  {
  }

  /** Against an independent definition: for 3×3 grids the expansion is the
      rule of Sarrus. */
  lemma DetThreeBySarrus(m: Grid)
    requires IsSquare(m, 3)
    ensures Det(m, 3) ==
      m[0][0] * m[1][1] * m[2][2] + m[0][1] * m[1][2] * m[2][0] + m[0][2] * m[1][0] * m[2][1]
      - m[0][2] * m[1][1] * m[2][0] - m[0][1] * m[1][0] * m[2][2] - m[0][0] * m[1][2] * m[2][1]
  {
    var rows := Iota(3);
    assert rows == [0, 1, 2];
    assert RemoveAt(rows, 0) == [1, 2] && RemoveAt(rows, 1) == [0, 2] && RemoveAt(rows, 2) == [0, 1];
    var d0 := m[1][1] * m[2][2] - m[1][2] * m[2][1];
    var d1 := m[0][1] * m[2][2] - m[0][2] * m[2][1];
    var d2 := m[0][1] * m[1][2] - m[0][2] * m[1][1];
    assert DetOf(m, [1, 2], 1, 3) == d0 && DetOf(m, [0, 2], 1, 3) == d1 && DetOf(m, [0, 1], 1, 3) == d2;
    assert Det(m, 3) == Term(m[0][0], d0, 1.0) + Term(m[1][0], d1, -1.0) + Term(m[2][0], d2, 1.0);
  }

  /** For 3×3 grids, transposing keeps the determinant. */
  lemma DetThreeTranspose(m: Grid)
    requires IsSquare(m, 3)
    ensures Det(Transpose(m, 3), 3) == Det(m, 3)
  {
    DetThreeBySarrus(m);
    DetThreeBySarrus(Transpose(m, 3));
  }
}
