/** Two-dimensional arrays of reals read as grids, and the row-major loops
    over them that several matrix operations share. */
module ArrayGrids {
  import opened Grids

  /** The cells of an n×n array as a grid. */
  ghost function GridOf(a: array2<real>, n: nat): (g: Grid)
    reads a
    requires a.Length0 == n && a.Length1 == n
    ensures IsSquare(g, n)
    ensures forall r, c :: 0 <= r < n && 0 <= c < n ==> g[r][c] == a[r, c]
  {
    seq(n, r reads a requires 0 <= r < n => seq(n, c reads a requires 0 <= c < n => a[r, c]))
  }

  /** Copies the cells of `src` into `dst` row by row; the two may be the
      same array. */
  method CopyCells(dst: array2<real>, src: array2<real>, n: nat)
    requires dst.Length0 == n && dst.Length1 == n && src.Length0 == n && src.Length1 == n
    modifies dst
    ensures GridOf(dst, n) == old(GridOf(src, n))
  {
    ghost var b := GridOf(src, n);
    var r := 0;
    while r < n
      invariant 0 <= r <= n
      invariant forall x, y :: 0 <= x < r && 0 <= y < n ==> dst[x, y] == b[x][y]
      invariant forall x, y :: r <= x < n && 0 <= y < n ==> src[x, y] == b[x][y]
    {
      var c := 0;
      while c < n
        invariant 0 <= c <= n
        invariant forall x, y :: 0 <= x < r && 0 <= y < n ==> dst[x, y] == b[x][y]
        invariant forall y :: 0 <= y < c ==> dst[r, y] == b[r][y]
        invariant forall x, y :: r < x < n && 0 <= y < n ==> src[x, y] == b[x][y]
        invariant forall y :: c <= y < n ==> src[r, y] == b[r][y]
      {
        dst[r, c] := src[r, c];
        c := c + 1;
      }
      r := r + 1;
    }
    GridsEqual(GridOf(dst, n), b, n);
  }

  /** Copies the first `n` values of `src` into `dst`. */
  method CopyValues(dst: array<real>, src: array<real>, n: nat)
    requires dst.Length == n && src.Length == n
    modifies dst
    ensures dst[..] == old(src[..])
  {
    ghost var b := src[..];
    var k := 0;
    while k < n
      invariant 0 <= k <= n
      invariant forall i :: 0 <= i < k ==> dst[i] == b[i]
      invariant forall i :: k <= i < n ==> src[i] == b[i]
    {
      dst[k] := src[k];
      k := k + 1;
    }
    assert dst[..] == b;
  }

  /** Row `r` of `a` times column `c` of `b`, summed left to right. */
  method RowTimesColumn(a: array2<real>, b: array2<real>, r: nat, c: nat, n: nat) returns (s: real)
    requires a.Length0 == n && a.Length1 == n && b.Length0 == n && b.Length1 == n && r < n && c < n
    ensures s == Dot(GridOf(a, n), GridOf(b, n), r, c, n, n)
  {
    ghost var ga, gb := GridOf(a, n), GridOf(b, n);
    s := 0.0;
    var k := 0;
    while k < n
      invariant 0 <= k <= n
      invariant s == Dot(ga, gb, r, c, k, n)
    {
      s := s + a[r, k] * b[k, c];
      k := k + 1;
    }
  }

  /** Writes the product of `a` and `b` into `dst`, cell by cell in row-major
      order; `dst` is neither operand. */
  method MulInto(dst: array2<real>, a: array2<real>, b: array2<real>, n: nat)
    requires dst.Length0 == n && dst.Length1 == n && a.Length0 == n && a.Length1 == n
    requires b.Length0 == n && b.Length1 == n && dst != a && dst != b
    modifies dst
    ensures GridOf(dst, n) == Mul(GridOf(a, n), GridOf(b, n), n)
  {
    ghost var ga, gb := GridOf(a, n), GridOf(b, n);
    var r := 0;
    while r < n
      invariant 0 <= r <= n
      invariant forall x, y :: 0 <= x < r && 0 <= y < n ==> dst[x, y] == Dot(ga, gb, x, y, n, n)
    {
      var c := 0;
      while c < n
        invariant 0 <= c <= n
        invariant forall x, y :: 0 <= x < r && 0 <= y < n ==> dst[x, y] == Dot(ga, gb, x, y, n, n)
        invariant forall y :: 0 <= y < c ==> dst[r, y] == Dot(ga, gb, r, y, n, n)
      {
        dst[r, c] := RowTimesColumn(a, b, r, c, n);
        c := c + 1;
      }
      r := r + 1;
    }
    GridsEqual(GridOf(dst, n), Mul(ga, gb, n), n);
  }
}
