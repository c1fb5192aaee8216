/** Exact-arithmetic square grids: the value a SquareMatrixTpl holds in its
    row-major `m_values`, and the element-wise and linear-algebra operations
    the class performs on it. */
module Grids {

  datatype Option<T> = None | Some(value: T)

  /** Row-major grid of scalars, addressed `g[row][column]`. */
  type Grid = seq<seq<real>>

  /** The indices 0, 1, ..., n-1 in order. */
  function Iota(n: nat): (s: seq<nat>)
    ensures |s| == n && forall i :: 0 <= i < n ==> s[i] == i
  {
    seq(n, i => i)
  }

  /** `p` with the entries at positions `i` and `j` exchanged. */
  function SwapAt<T>(p: seq<T>, i: nat, j: nat): (q: seq<T>)
    requires i < |p| && j < |p|
    ensures |q| == |p| && q[i] == p[j] && q[j] == p[i]
    ensures forall k :: 0 <= k < |p| && k != i && k != j ==> q[k] == p[k]
  {
    p[i := p[j]][j := p[i]]
  }

  ghost predicate IsSquare(g: Grid, n: nat) {
    |g| == n && forall r :: 0 <= r < n ==> |g[r]| == n
  }

  /** Two grids of the same shape are equal when every cell is. */
  lemma GridsEqual(a: Grid, b: Grid, n: nat)
    requires IsSquare(a, n) && IsSquare(b, n)
    requires forall r, c :: 0 <= r < n && 0 <= c < n ==> a[r][c] == b[r][c]
    ensures a == b
  {
    forall r | 0 <= r < n ensures a[r] == b[r] {
      assert forall c :: 0 <= c < n ==> a[r][c] == b[r][c];
    }
  }

  function Zero(n: nat): (z: Grid)
    ensures IsSquare(z, n)
    ensures forall r, c :: 0 <= r < n && 0 <= c < n ==> z[r][c] == 0.0
  {
    seq(n, r => seq(n, c => 0.0))
  }

  function Identity(n: nat): (id: Grid)
    ensures IsSquare(id, n)
    ensures forall r, c :: 0 <= r < n && 0 <= c < n ==> id[r][c] == if r == c then 1.0 else 0.0
  {
    seq(n, r => seq(n, c => if r == c then 1.0 else 0.0))
  }

  /** Cell-wise sum (operator +=). */
  function Add(a: Grid, b: Grid, n: nat): (s: Grid)
    requires IsSquare(a, n) && IsSquare(b, n)
    ensures IsSquare(s, n)
    ensures forall r, c :: 0 <= r < n && 0 <= c < n ==> s[r][c] == a[r][c] + b[r][c]
  {
    seq(n, r requires 0 <= r < n => seq(n, c requires 0 <= c < n => a[r][c] + b[r][c]))
  }

  /** Cell-wise difference (operator -=). */
  function Sub(a: Grid, b: Grid, n: nat): (d: Grid)
    requires IsSquare(a, n) && IsSquare(b, n)
    ensures IsSquare(d, n)
    ensures forall r, c :: 0 <= r < n && 0 <= c < n ==> d[r][c] == a[r][c] - b[r][c]
  {
    seq(n, r requires 0 <= r < n => seq(n, c requires 0 <= c < n => a[r][c] - b[r][c]))
  }

  /** Every cell multiplied by the same coefficient (scale). */
  function Scale(a: Grid, k: real, n: nat): (s: Grid)
    requires IsSquare(a, n)
    ensures IsSquare(s, n)
    ensures forall r, c :: 0 <= r < n && 0 <= c < n ==> s[r][c] == a[r][c] * k
  {
    seq(n, r requires 0 <= r < n => seq(n, c requires 0 <= c < n => a[r][c] * k))
  }

  /** Cell [r][c] exchanged with cell [c][r] (transpose). */
  function Transpose(a: Grid, n: nat): (t: Grid)
    requires IsSquare(a, n)
    ensures IsSquare(t, n)
    ensures forall r, c :: 0 <= r < n && 0 <= c < n ==> t[r][c] == a[c][r]
  {
    seq(n, r requires 0 <= r < n => seq(n, c requires 0 <= c < n => a[c][r]))
  }

  /** Column `c` read top to bottom. */
  function Column(a: Grid, c: nat, n: nat): (col: seq<real>)
    requires IsSquare(a, n) && c < n
    ensures |col| == n && forall r :: 0 <= r < n ==> col[r] == a[r][c]
  {
    seq(n, r requires 0 <= r < n => a[r][c])
  }

  /** Sum of the first `k` diagonal cells, accumulated from row 0 upwards. */
  function DiagSum(a: Grid, k: nat, n: nat): (s: real)
    requires IsSquare(a, n) && k <= n
  {
    if k == 0 then 0.0 else DiagSum(a, k - 1, n) + a[k - 1][k - 1]
  }

  function Trace(a: Grid, n: nat): (t: real)
    requires IsSquare(a, n)
  {
    DiagSum(a, n, n)
  }

  /** `Σ_{j<k} a[r][j] * b[j][c]`, accumulated with j ascending as the
      product loop does. */
  function Dot(a: Grid, b: Grid, r: nat, c: nat, k: nat, n: nat): (s: real)
    requires IsSquare(a, n) && IsSquare(b, n) && r < n && c < n && k <= n
  {
    if k == 0 then 0.0 else Dot(a, b, r, c, k - 1, n) + Prod(a[r][k - 1], b[k - 1][c])
  }

  /** Matrix product: cell [r][c] is row r of `a` times column c of `b`. */
  function Mul(a: Grid, b: Grid, n: nat): (p: Grid)
    requires IsSquare(a, n) && IsSquare(b, n)
    ensures IsSquare(p, n)
    ensures forall r, c :: 0 <= r < n && 0 <= c < n ==> p[r][c] == Dot(a, b, r, c, n, n)
  {
    seq(n, r requires 0 <= r < n => seq(n, c requires 0 <= c < n => Dot(a, b, r, c, n, n)))
  }

  /** The product sum written out for 3×3 grids. */
  lemma DotThree(a: Grid, b: Grid, r: nat, c: nat)
    requires IsSquare(a, 3) && IsSquare(b, 3) && r < 3 && c < 3
    ensures Dot(a, b, r, c, 3, 3) == Inner(a[r][0], a[r][1], a[r][2], b[0][c], b[1][c], b[2][c])
  {
    assert Dot(a, b, r, c, 0, 3) == 0.0;
    DotStep(a, b, r, c, 0, 3);
    DotStep(a, b, r, c, 1, 3);
    DotStep(a, b, r, c, 2, 3);
  }

  /** A product, named so that proofs can match products by their factors. */
  function Prod(x: real, y: real): (p: real) {
    x * y
  }

  /** The inner product of (a0, a1, a2) and (b0, b1, b2). */
  function Inner(a0: real, a1: real, a2: real, b0: real, b1: real, b2: real): (s: real) {
    Prod(a0, b0) + Prod(a1, b1) + Prod(a2, b2)
  }

  /** One more term of the product sum. */
  lemma DotStep(a: Grid, b: Grid, r: nat, c: nat, k: nat, n: nat)
    requires IsSquare(a, n) && IsSquare(b, n) && r < n && c < n && k < n
    ensures Dot(a, b, r, c, k + 1, n) == Dot(a, b, r, c, k, n) + Prod(a[r][k], b[k][c])
  {
  }

  /** Cell [r][c] of a 3×3 grid times its transpose: row r times row c. */
  lemma MulTransposeThree(a: Grid, r: nat, c: nat)
    requires IsSquare(a, 3) && r < 3 && c < 3
    ensures Mul(a, Transpose(a, 3), 3)[r][c] == Inner(a[r][0], a[r][1], a[r][2], a[c][0], a[c][1], a[c][2])
  {
    var t := Transpose(a, 3);
    DotThree(a, t, r, c);
    assert t[0][c] == a[c][0] && t[1][c] == a[c][1] && t[2][c] == a[c][2];
  }

  /** Every cell of a 3×3 grid times its transpose. */
  lemma MulTransposeAllThree(a: Grid)
    requires IsSquare(a, 3)
    ensures forall r, c :: 0 <= r < 3 && 0 <= c < 3 ==>
      Mul(a, Transpose(a, 3), 3)[r][c] == Inner(a[r][0], a[r][1], a[r][2], a[c][0], a[c][1], a[c][2])
  {
    forall r, c | 0 <= r < 3 && 0 <= c < 3
      ensures Mul(a, Transpose(a, 3), 3)[r][c] == Inner(a[r][0], a[r][1], a[r][2], a[c][0], a[c][1], a[c][2])
    {
      MulTransposeThree(a, r, c);
    }
  }

  /** A 3×3 grid written out cell by cell. */
  lemma CellsThree(g: Grid)
    requires IsSquare(g, 3)
    ensures g == [[g[0][0], g[0][1], g[0][2]], [g[1][0], g[1][1], g[1][2]], [g[2][0], g[2][1], g[2][2]]]
  {
    assert g[0] == [g[0][0], g[0][1], g[0][2]];
    assert g[1] == [g[1][0], g[1][1], g[1][2]];
    assert g[2] == [g[2][0], g[2][1], g[2][2]];
  }

  /** The trace written out for 3×3 grids. */
  lemma TraceThree(a: Grid)
    requires IsSquare(a, 3)
    ensures Trace(a, 3) == a[0][0] + a[1][1] + a[2][2]
  {
    assert DiagSum(a, 0, 3) == 0.0;
    assert DiagSum(a, 1, 3) == DiagSum(a, 0, 3) + a[0][0];
    assert DiagSum(a, 2, 3) == DiagSum(a, 1, 3) + a[1][1];
    assert DiagSum(a, 3, 3) == DiagSum(a, 2, 3) + a[2][2];
  }

  /** `Σ_{j<k} a[r][j] * v[j]`, accumulated with j ascending (apply). */
  function RowDot(a: Grid, v: seq<real>, r: nat, k: nat, n: nat): (s: real)
    requires IsSquare(a, n) && |v| == n && r < n && k <= n
  {
    if k == 0 then 0.0 else RowDot(a, v, r, k - 1, n) + a[r][k - 1] * v[k - 1]
  }

  /** Matrix applied to a column vector (apply). */
  function MatVec(a: Grid, v: seq<real>, n: nat): (w: seq<real>)
    requires IsSquare(a, n) && |v| == n
    ensures |w| == n && forall r :: 0 <= r < n ==> w[r] == RowDot(a, v, r, n, n)
  {
    seq(n, r requires 0 <= r < n => RowDot(a, v, r, n, n))
  }

  // ---------------------------------------------------------------------
  // Element-wise algebra

  /** Adding the zero matrix changes nothing. */
  lemma AddZero(a: Grid, n: nat)
    requires IsSquare(a, n)
    ensures Add(a, Zero(n), n) == a
  {
    GridsEqual(Add(a, Zero(n), n), a, n);
  }

  /** A matrix minus itself is the zero matrix. */
  lemma SubSelf(a: Grid, n: nat)
    requires IsSquare(a, n)
    ensures Sub(a, a, n) == Zero(n)
  {
    GridsEqual(Sub(a, a, n), Zero(n), n);
  }

  /** Subtraction undoes addition. */
  lemma SubUndoesAdd(a: Grid, b: Grid, n: nat)
    requires IsSquare(a, n) && IsSquare(b, n)
    ensures Sub(Add(a, b, n), b, n) == a
  {
    GridsEqual(Sub(Add(a, b, n), b, n), a, n);
  }

  lemma AddCommutes(a: Grid, b: Grid, n: nat)
    requires IsSquare(a, n) && IsSquare(b, n)
    ensures Add(a, b, n) == Add(b, a, n)
  {
    GridsEqual(Add(a, b, n), Add(b, a, n), n);
  }

  /** Scaling by one changes nothing; scaling by zero clears. */
  lemma ScaleByOneAndZero(a: Grid, n: nat)
    requires IsSquare(a, n)
    ensures Scale(a, 1.0, n) == a
    ensures Scale(a, 0.0, n) == Zero(n)
  {
    GridsEqual(Scale(a, 1.0, n), a, n);
    GridsEqual(Scale(a, 0.0, n), Zero(n), n);
  }

  // ---------------------------------------------------------------------
  // Transpose

  /** Transposing twice restores every cell. */
  lemma TransposeInvolution(a: Grid, n: nat)
    requires IsSquare(a, n)
    ensures Transpose(Transpose(a, n), n) == a
  {
    GridsEqual(Transpose(Transpose(a, n), n), a, n);
  }

  /** The identity is symmetric. */
  lemma TransposeIdentity(n: nat)
    ensures Transpose(Identity(n), n) == Identity(n)
  {
    GridsEqual(Transpose(Identity(n), n), Identity(n), n);
  }

  // ---------------------------------------------------------------------
  // Trace

  lemma {:induction false} DiagSumIdentity(k: nat, n: nat)
    requires k <= n
    ensures DiagSum(Identity(n), k, n) == k as real
  {
    if k > 0 {
      DiagSumIdentity(k - 1, n);
    }
  }

  /** The trace of the n×n identity is n. */
  lemma TraceIdentity(n: nat)
    ensures Trace(Identity(n), n) == n as real
  {
    DiagSumIdentity(n, n);
  }

  lemma {:induction false} DiagSumZero(k: nat, n: nat)
    requires k <= n
    ensures DiagSum(Zero(n), k, n) == 0.0
  {
    if k > 0 {
      DiagSumZero(k - 1, n);
    }
  }

  /** The trace of a cleared matrix is 0. */
  lemma TraceZero(n: nat)
    ensures Trace(Zero(n), n) == 0.0
  {
    DiagSumZero(n, n);
  }

  lemma {:induction false} DiagSumAdd(a: Grid, b: Grid, k: nat, n: nat)
    requires IsSquare(a, n) && IsSquare(b, n) && k <= n
    ensures DiagSum(Add(a, b, n), k, n) == DiagSum(a, k, n) + DiagSum(b, k, n)
  {
    if k > 0 {
      DiagSumAdd(a, b, k - 1, n);
    }
  }

  /** The trace is additive. */
  lemma TraceAdd(a: Grid, b: Grid, n: nat)
    requires IsSquare(a, n) && IsSquare(b, n)
    ensures Trace(Add(a, b, n), n) == Trace(a, n) + Trace(b, n)
  {
    DiagSumAdd(a, b, n, n);
  }

  lemma {:induction false} DiagSumScale(a: Grid, k: real, m: nat, n: nat)
    requires IsSquare(a, n) && m <= n
    ensures DiagSum(Scale(a, k, n), m, n) == DiagSum(a, m, n) * k
  {
    if m > 0 {
      DiagSumScale(a, k, m - 1, n);
    }
  }

  /** Scaling multiplies the trace by the same coefficient. */
  lemma TraceScale(a: Grid, k: real, n: nat)
    requires IsSquare(a, n)
    ensures Trace(Scale(a, k, n), n) == Trace(a, n) * k
  {
    DiagSumScale(a, k, n, n);
  }

  lemma {:induction false} DiagSumTranspose(a: Grid, k: nat, n: nat)
    requires IsSquare(a, n) && k <= n
    ensures DiagSum(Transpose(a, n), k, n) == DiagSum(a, k, n)
  {
    if k > 0 {
      DiagSumTranspose(a, k - 1, n);
    }
  }

  /** Transposition keeps the diagonal, hence the trace. */
  lemma TraceTranspose(a: Grid, n: nat)
    requires IsSquare(a, n)
    ensures Trace(Transpose(a, n), n) == Trace(a, n)
  {
    DiagSumTranspose(a, n, n);
  }

  // ---------------------------------------------------------------------
  // Products

  lemma {:induction false} DotIdentityRight(a: Grid, r: nat, c: nat, k: nat, n: nat)
    requires IsSquare(a, n) && r < n && c < n && k <= n
    ensures Dot(a, Identity(n), r, c, k, n) == if c < k then a[r][c] else 0.0
  {
    if k > 0 {
      DotIdentityRight(a, r, c, k - 1, n);
    }
  }

  lemma {:induction false} DotIdentityLeft(a: Grid, r: nat, c: nat, k: nat, n: nat)
    requires IsSquare(a, n) && r < n && c < n && k <= n
    ensures Dot(Identity(n), a, r, c, k, n) == if r < k then a[r][c] else 0.0
  {
    if k > 0 {
      DotIdentityLeft(a, r, c, k - 1, n);
    }
  }

  /** The identity is neutral for the product on either side. */
  lemma MulIdentity(a: Grid, n: nat)
    requires IsSquare(a, n)
    ensures Mul(a, Identity(n), n) == a
    ensures Mul(Identity(n), a, n) == a
  {
    forall r, c | 0 <= r < n && 0 <= c < n
      ensures Mul(a, Identity(n), n)[r][c] == a[r][c]
      ensures Mul(Identity(n), a, n)[r][c] == a[r][c]
    {
      DotIdentityRight(a, r, c, n, n);
      DotIdentityLeft(a, r, c, n, n);
    }
    GridsEqual(Mul(a, Identity(n), n), a, n);
    GridsEqual(Mul(Identity(n), a, n), a, n);
  }

  lemma {:induction false} RowDotIdentity(v: seq<real>, r: nat, k: nat, n: nat)
    requires |v| == n && r < n && k <= n
    ensures RowDot(Identity(n), v, r, k, n) == if r < k then v[r] else 0.0
  {
    if k > 0 {
      RowDotIdentity(v, r, k - 1, n);
    }
  }

  /** The identity maps every vector to itself. */
  lemma MatVecIdentity(v: seq<real>, n: nat)
    requires |v| == n
    ensures MatVec(Identity(n), v, n) == v
  {
    forall r | 0 <= r < n ensures MatVec(Identity(n), v, n)[r] == v[r] {
      RowDotIdentity(v, r, n, n);
    }
  }

  lemma {:induction false} RowDotAdd(a: Grid, b: Grid, v: seq<real>, r: nat, k: nat, n: nat)
    requires IsSquare(a, n) && IsSquare(b, n) && |v| == n && r < n && k <= n
    ensures RowDot(Add(a, b, n), v, r, k, n) == RowDot(a, v, r, k, n) + RowDot(b, v, r, k, n)
  {
    if k > 0 {
      RowDotAdd(a, b, v, r, k - 1, n);
    }
  }

  /** Applying a sum of matrices is the sum of the applications. */
  lemma MatVecAdd(a: Grid, b: Grid, v: seq<real>, n: nat)
    requires IsSquare(a, n) && IsSquare(b, n) && |v| == n
    ensures forall r :: 0 <= r < n ==>
      MatVec(Add(a, b, n), v, n)[r] == MatVec(a, v, n)[r] + MatVec(b, v, n)[r]
  {
    forall r | 0 <= r < n
      ensures MatVec(Add(a, b, n), v, n)[r] == MatVec(a, v, n)[r] + MatVec(b, v, n)[r]
    {
      RowDotAdd(a, b, v, r, n, n);
    }
  }
}
