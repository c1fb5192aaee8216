/** SquareMatrixTpl: a dense n×n matrix held row-major in `vals`, with an
    optional array of n eigenvalues (eigenvalue i belongs to column i). A
    matrix of size 0 is the "invalid" matrix that failed operations return.
    Scalars are exact reals. */
module SquareMatrices {
  import opened Grids
  import opened ArrayGrids
  import opened Determinants
  import opened Pivoting
  import opened GaussPivot
  import opened EigenOrder
  import opened OpenGl
  import opened Quaternions

  /** The row list of a minor: `rows` without its entry at `skip`, in order. */
  method RowsWithout(rows: seq<nat>, skip: nat) returns (sub: seq<nat>)
    requires skip < |rows|
    ensures sub == RemoveAt(rows, skip)
  {
    sub := [];
    var i := 0;
    while i < |rows|
      invariant 0 <= i <= |rows|
      invariant |sub| == if i <= skip then i else i - 1
      invariant forall k :: 0 <= k < |sub| ==> sub[k] == rows[if k < skip then k else k + 1]
    {
      if i != skip {
        sub := sub + [rows[i]];
      }
      i := i + 1;
    }
  }

  /** Fills `dst` column by column: column `column` from the successive
      values of `v`, every other column from `src`. */
  method FillReplacingColumn(dst: array2<real>, src: array2<real>, column: nat, v: seq<real>, n: nat)
    requires dst.Length0 == n && dst.Length1 == n && src.Length0 == n && src.Length1 == n && dst != src
    requires column < n ==> |v| >= n
    modifies dst
    ensures GridOf(dst, n) == ReplaceColumn(GridOf(src, n), column, v, n)
  {
    ghost var a := GridOf(src, n);
    var pos := 0;
    var i := 0;
    while i < n
      invariant 0 <= i <= n
      invariant pos == if column < i then n else 0
      invariant forall x, y :: 0 <= x < n && 0 <= y < i ==>
        dst[x, y] == if y == column then v[x] else a[x][y]
    {
      var j := 0;
      while j < n
        invariant 0 <= j <= n
        invariant pos == if column < i then n else if column == i then j else 0
        invariant forall x, y :: 0 <= x < n && 0 <= y < i ==>
          dst[x, y] == if y == column then v[x] else a[x][y]
        invariant forall x :: 0 <= x < j ==> dst[x, i] == if i == column then v[x] else a[x][i]
      {
        if column == i {
          dst[j, i] := v[pos];
          pos := pos + 1;
        } else {
          dst[j, i] := src[j, i];
        }
        j := j + 1;
      }
      i := i + 1;
    }
    GridsEqual(GridOf(dst, n), ReplaceColumn(a, column, v, n), n);
  }

  /** The first index of the largest of e[from..]: the inner loop of the
      selection sort. */
  method IndexOfMax(e: array<real>, from: nat) returns (k: nat)
    requires from < e.Length
    ensures from <= k < e.Length
    ensures forall j :: from <= j < e.Length ==> e[j] <= e[k]
    ensures forall j :: from <= j < k ==> e[j] < e[k]
  {
    k := from;
    var j := from + 1;
    while j < e.Length
      invariant from + 1 <= j <= e.Length && from <= k < j
      invariant forall t :: from <= t < j ==> e[t] <= e[k]
      invariant forall t :: from <= t < k ==> e[t] < e[k]
    {
      if e[j] > e[k] {
        k := j;
      }
      j := j + 1;
    }
  }

  /** Writes the nine entries of the rotation matrix of the quaternion q
      into the 3×3 array `a`, from the ten products of its components. */
  method WriteRotation(a: array2<real>, q: seq<real>)
    requires a.Length0 == 3 && a.Length1 == 3 && |q| == 4
    modifies a
    ensures GridOf(a, 3) == RotationFromQuaternion(q)
  {
    var q00, q11, q22, q33 := q[0] * q[0], q[1] * q[1], q[2] * q[2], q[3] * q[3];
    var q03, q13, q23 := q[0] * q[3], q[1] * q[3], q[2] * q[3];
    var q02, q12, q01 := q[0] * q[2], q[1] * q[2], q[0] * q[1];
    a[0, 0] := q00 + q11 - q22 - q33;
    a[1, 1] := q00 - q11 + q22 - q33;
    a[2, 2] := q00 - q11 - q22 + q33;
    a[0, 1] := 2.0 * (q12 - q03);
    a[1, 0] := 2.0 * (q12 + q03);
    a[0, 2] := 2.0 * (q13 + q02);
    a[2, 0] := 2.0 * (q13 - q02);
    a[1, 2] := 2.0 * (q23 - q01);
    a[2, 1] := 2.0 * (q23 + q01);
    ghost var rot := RotationFromQuaternion(q);
    assert rot[0] == [a[0, 0], a[0, 1], a[0, 2]];
    assert rot[1] == [a[1, 0], a[1, 1], a[1, 2]];
    assert rot[2] == [a[2, 0], a[2, 1], a[2, 2]];
    CellsThree(GridOf(a, 3));
    CellsThree(rot);
  }

  /** Fills the size×size array `a` from the column-major OpenGL array:
      [r][c] = m16[c*4 + r]. */
  method FillFromGl(a: array2<real>, m16: seq<real>, size: nat)
    requires |m16| == 16 && size <= 4 && a.Length0 == size && a.Length1 == size
    modifies a
    ensures GridOf(a, size) == GridFromGl(m16, size)
  {
    var r := 0;
    while r < size
      invariant 0 <= r <= size
      invariant forall x, y :: 0 <= x < r && 0 <= y < size ==> a[x, y] == m16[y * 4 + x]
    {
      var c := 0;
      while c < size
        invariant 0 <= c <= size
        invariant forall x, y :: 0 <= x < r && 0 <= y < size ==> a[x, y] == m16[y * 4 + x]
        invariant forall y :: 0 <= y < c ==> a[r, y] == m16[y * 4 + r]
      {
        a[r, c] := m16[c * 4 + r];
        c := c + 1;
      }
      r := r + 1;
    }
    GridsEqual(GridOf(a, size), GridFromGl(m16, size), size);
  }

  /** The 16 values toGlMatrix writes for the n×n array `g`, n = 3 or 4: a
      zeroed array, the 3×3 block column-major, for n = 4 the last row and
      column, and slot 15 set to 1. */
  method GlArray(g: array2<real>, n: nat) returns (m16: seq<real>)
    requires (n == 3 || n == 4) && g.Length0 == n && g.Length1 == n
    ensures m16 == GlFromGrid(GridOf(g, n), n)
  {
    ghost var m := GridOf(g, n);
    var a := new real[16](k => 0.0);
    var r := 0;
    while r < 3
      invariant 0 <= r <= 3
      invariant forall x, y :: 0 <= x < 4 && 0 <= y < 4 ==>
        a[Slot(x, y)] == if x < r && y < 3 then m[x][y] else 0.0
    {
      var c := 0;
      while c < 3
        invariant 0 <= c <= 3
        invariant forall x, y :: 0 <= x < 4 && 0 <= y < 4 ==>
          a[Slot(x, y)] == if (x < r || (x == r && y < c)) && y < 3 then m[x][y] else 0.0
      {
        forall x, y | 0 <= x < 4 && 0 <= y < 4 && (x != r || y != c) ensures Slot(x, y) != Slot(r, c) {
          SlotInjective(x, y, r, c);
        }
        a[Slot(r, c)] := g[r, c];
        c := c + 1;
      }
      r := r + 1;
    }
    if n == 4 {
      r := 0;
      while r < 3
        invariant 0 <= r <= 3
        invariant forall x, y :: 0 <= x < 4 && 0 <= y < 4 ==>
          a[Slot(x, y)] == if x < 3 && y < 3 then m[x][y]
                          else if y == 3 && x < r then m[3][x]
                          else if x == 3 && y < r then m[y][3]
                          else 0.0
      {
        forall x, y | 0 <= x < 4 && 0 <= y < 4 ensures (x != r || y != 3) ==> Slot(x, y) != Slot(r, 3)
          ensures (x != 3 || y != r) ==> Slot(x, y) != Slot(3, r)
        {
          if x != r || y != 3 { SlotInjective(x, y, r, 3); }
          if x != 3 || y != r { SlotInjective(x, y, 3, r); }
        }
        a[Slot(r, 3)] := g[3, r];
        a[Slot(3, r)] := g[r, 3];
        r := r + 1;
      }
    }
    a[15] := 1.0;
    forall k | 0 <= k < 16 ensures a[k] == GlSlot(m, n, k) {
      SlotOfIndex(k);
      assert a[Slot(k % 4, k / 4)] == GlSlot(m, n, k);
    }
    m16 := a[..];
  }

  class SquareMatrix {
    var n: nat
    var vals: array2<real>
    var eig: array?<real>

    ghost predicate Valid()
      reads this
    {
      && vals.Length0 == n && vals.Length1 == n
      && (eig != null ==> n != 0 && eig.Length == n)
    }

    /** The matrix cells as a grid. */
    ghost function Cells(): (g: Grid)
      reads this, vals
      requires Valid()
      ensures IsSquare(g, n)
    {
      GridOf(vals, n)
    }

    /** The eigenvalues, when an eigenvalue array is attached. */
    ghost function EigenValues(): (e: Option<seq<real>>)
      reads this, eig
    {
      if eig == null then None else Some(eig[..])
    }

    // -------------------------------------------------------------------
    // Construction, initialisation and copy

    /** A zero-filled matrix of the given size, without eigenvalues. */
    constructor(size: nat)
      ensures Valid() && n == size && Cells() == Zero(size) && eig == null
      ensures fresh(vals)
    {
      n, vals, eig := 0, new real[0, 0], null;
      new;
      Init(size);
    }

    /** Copy construction: a matrix of the same size, then assignment. */
    constructor Copy(mat: SquareMatrix)
      requires mat.Valid()
      ensures Valid() && n == mat.n && Cells() == mat.Cells() && EigenValues() == mat.EigenValues()
      ensures fresh(vals) && (eig == null || fresh(eig))
    {
      n, vals, eig := 0, new real[0, 0], null;
      new;
      Init(mat.n);
      Assign(mat);
    }

    /** Construction from a 16-element column-major OpenGL array: the full
        4×4, or only the 3×3 rotation block. */
    constructor FromGl(m16: seq<real>, rotationOnly: bool)
      requires |m16| == 16
      ensures Valid() && n == (if rotationOnly then 3 else 4) && eig == null
      ensures Cells() == GridFromGl(m16, n)
      ensures fresh(vals)
    {
      n, vals, eig := 0, new real[0, 0], null;
      new;
      var size := if rotationOnly then 3 else 4;
      Init(size);
      FillFromGl(vals, m16, size);
    }

    /** Sets the size and a fresh zero-filled grid; drops the eigenvalues. */
    method Init(size: nat)
      modifies this
      ensures Valid() && n == size && Cells() == Zero(size) && eig == null
      ensures fresh(vals)
    {
      n := size;
      vals := new real[size, size]((r, c) => 0.0);
      eig := null;
      GridsEqual(Cells(), Zero(size), size);
    }

    /** Releases the grid and the eigenvalues: the matrix becomes size 0. */
    method Invalidate()
      modifies this
      ensures Valid() && n == 0 && eig == null
    {
      eig := null;
      vals := new real[0, 0];
      n := 0;
    }

    /** Attaches an eigenvalue array of size n unless one is attached already
        or the matrix has size 0. A new array's contents are unspecified. */
    method EnableEigenValues() returns (ok: bool)
      requires Valid()
      modifies this
      ensures Valid() && n == old(n) && vals == old(vals)
      ensures old(eig) != null ==> eig == old(eig) && EigenValues() == old(EigenValues())
      ensures old(eig) == null && old(n) != 0 ==> eig != null && fresh(eig)
      ensures old(eig) == null && old(n) == 0 ==> eig == null
      ensures ok == (eig != null)
    {
      if eig == null && n != 0 {
        eig := new real[n];
      }
      ok := eig != null;
    }

    /** What the comment on `enableEigenValues` documents: the eigenvalue
        array, new or already attached, holds zeros afterwards. */
    method EnableZeroedEigenValues() returns (ok: bool)
      requires Valid()
      modifies this, eig
      ensures Valid() && n == old(n) && vals == old(vals)
      ensures ok == (n != 0) && ok == (eig != null)
      ensures ok ==> EigenValues() == Some(seq(n, i => 0.0))
    {
      ok := EnableEigenValues();
      if ok {
        var k := 0;
        while k < n
          modifies eig
          invariant 0 <= k <= n && eig != null && eig.Length == n
          invariant forall i :: 0 <= i < k ==> eig[i] == 0.0
        {
          eig[k] := 0.0;
          k := k + 1;
        }
        assert eig[..] == seq(n, i => 0.0);
      }
    }

    /** Assignment: takes B's size and cells, and B's eigenvalues when it has
        some. When B has none and the sizes already agree, the eigenvalues
        this matrix had are kept. */
    method Assign(B: SquareMatrix)
      requires Valid() && B.Valid()
      modifies this, vals, eig
      ensures Valid() && n == old(B.n) && Cells() == old(B.Cells())
      ensures EigenValues() ==
        if old(B.eig) != null then old(B.EigenValues())
        else if old(n) == old(B.n) then old(EigenValues())
        else None
      ensures fresh(vals) || vals == old(vals)
      ensures eig == null || fresh(eig) || eig == old(eig)
    {
      ghost var b := B.Cells();
      ghost var be := B.EigenValues();
      if n != B.n {
        Invalidate();
        Init(B.n);
      }
      CopyCells(vals, B.vals, n);
      if B.eig != null {
        var ok := EnableEigenValues();
        CopyValues(eig, B.eig, n);
      }
    }

    // -------------------------------------------------------------------
    // Arithmetic

    /** In-place addition of a matrix of the same size (which may be this
        one). */
    method AddInPlace(B: SquareMatrix)
      requires Valid() && B.Valid() && B.n == n
      modifies vals
      ensures Cells() == Add(old(Cells()), old(B.Cells()), n)
    {
      ghost var a, b := Cells(), B.Cells();
      var r := 0;
      while r < n
        invariant 0 <= r <= n
        invariant forall x, y :: 0 <= x < n && 0 <= y < n ==>
          vals[x, y] == if x < r then a[x][y] + b[x][y] else a[x][y]
        invariant forall x, y :: 0 <= x < n && 0 <= y < n && x >= r ==> B.vals[x, y] == b[x][y]
      {
        var c := 0;
        while c < n
          invariant 0 <= c <= n
          invariant forall x, y :: 0 <= x < n && 0 <= y < n ==>
            vals[x, y] == if x < r || (x == r && y < c) then a[x][y] + b[x][y] else a[x][y]
          invariant forall x, y :: 0 <= x < n && 0 <= y < n && (x > r || (x == r && y >= c)) ==> B.vals[x, y] == b[x][y]
        {
          vals[r, c] := vals[r, c] + B.vals[r, c];
          c := c + 1;
        }
        r := r + 1;
      }
      GridsEqual(Cells(), Add(a, b, n), n);
    }

    /** In-place subtraction of a matrix of the same size (which may be this
        one). */
    method SubInPlace(B: SquareMatrix)
      requires Valid() && B.Valid() && B.n == n
      modifies vals
      ensures Cells() == Sub(old(Cells()), old(B.Cells()), n)
    {
      ghost var a, b := Cells(), B.Cells();
      var r := 0;
      while r < n
        invariant 0 <= r <= n
        invariant forall x, y :: 0 <= x < n && 0 <= y < n ==>
          vals[x, y] == if x < r then a[x][y] - b[x][y] else a[x][y]
        invariant forall x, y :: 0 <= x < n && 0 <= y < n && x >= r ==> B.vals[x, y] == b[x][y]
      {
        var c := 0;
        while c < n
          invariant 0 <= c <= n
          invariant forall x, y :: 0 <= x < n && 0 <= y < n ==>
            vals[x, y] == if x < r || (x == r && y < c) then a[x][y] - b[x][y] else a[x][y]
          invariant forall x, y :: 0 <= x < n && 0 <= y < n && (x > r || (x == r && y >= c)) ==> B.vals[x, y] == b[x][y]
        {
          vals[r, c] := vals[r, c] - B.vals[r, c];
          c := c + 1;
        }
        r := r + 1;
      }
      GridsEqual(Cells(), Sub(a, b, n), n);
    }

    /** The sum in a copy of this matrix (which keeps its eigenvalues); both
        operands are left unchanged. */
    method Plus(B: SquareMatrix) returns (C: SquareMatrix)
      requires Valid() && B.Valid() && B.n == n
      ensures fresh(C) && fresh(C.vals) && (C.eig == null || fresh(C.eig)) && C.Valid() && C.n == n
      ensures C.Cells() == Add(Cells(), B.Cells(), n) && C.EigenValues() == EigenValues()
    {
      C := new SquareMatrix.Copy(this);
      C.AddInPlace(B);
    }

    /** The difference in a copy of this matrix (which keeps its
        eigenvalues); both operands are left unchanged. */
    method Minus(B: SquareMatrix) returns (C: SquareMatrix)
      requires Valid() && B.Valid() && B.n == n
      ensures fresh(C) && fresh(C.vals) && (C.eig == null || fresh(C.eig)) && C.Valid() && C.n == n
      ensures C.Cells() == Sub(Cells(), B.Cells(), n) && C.EigenValues() == EigenValues()
    {
      C := new SquareMatrix.Copy(this);
      C.SubInPlace(B);
    }

    /** The product this·B in a new matrix without eigenvalues. */
    method Times(B: SquareMatrix) returns (C: SquareMatrix)
      requires Valid() && B.Valid() && B.n == n
      ensures fresh(C) && fresh(C.vals) && C.Valid() && C.n == n && C.eig == null
      ensures C.Cells() == Mul(Cells(), B.Cells(), n)
    {
      C := new SquareMatrix(n);
      MulInto(C.vals, vals, B.vals, n);
    }

    /** In-place product: assigns this·B to this matrix. The product has no
        eigenvalues and the sizes agree, so the eigenvalues are kept. */
    method TimesInPlace(B: SquareMatrix)
      requires Valid() && B.Valid() && B.n == n
      modifies this, vals, eig
      ensures Valid() && n == old(n)
      ensures Cells() == Mul(old(Cells()), old(B.Cells()), n)
      ensures EigenValues() == old(EigenValues())
    {
      var P := Times(B);
      Assign(P);
    }

    /** The matrix applied to the first n entries of `v`. */
    method Apply(v: seq<real>) returns (res: seq<real>)
      requires Valid() && |v| >= n
      ensures res == MatVec(Cells(), v[..n], n)
    {
      ghost var a := Cells();
      res := [];
      var r := 0;
      while r < n
        invariant 0 <= r <= n
        invariant |res| == r && forall x :: 0 <= x < r ==> res[x] == RowDot(a, v[..n], x, n, n)
      {
        var sum := 0.0;
        var k := 0;
        while k < n
          invariant 0 <= k <= n
          invariant sum == RowDot(a, v[..n], r, k, n)
        {
          sum := sum + vals[r, k] * v[k];
          k := k + 1;
        }
        res := res + [sum];
        r := r + 1;
      }
    }

    /** A 3-vector times the matrix when it is 3×3; otherwise the vector
        itself. */
    method MulVec3(v: seq<real>) returns (w: seq<real>)
      requires Valid() && |v| == 3
      ensures n == 3 ==> w == MatVec(Cells(), v, 3)
      ensures n != 3 ==> w == v
    {
      if n == 3 {
        w := Apply(v);
        assert v[..3] == v;
      } else {
        w := v;
      }
    }

    /** In-place transposition: swaps each cell above the diagonal with its
        mirror image. */
    method Transpose()
      requires Valid() && n >= 1
      modifies vals
      ensures Cells() == Grids.Transpose(old(Cells()), n)
    {
      ghost var a := Cells();
      var r := 0;
      while r < n - 1
        invariant 0 <= r <= n - 1
        invariant forall x, y :: 0 <= x < n && 0 <= y < n ==>
          vals[x, y] == if x < r || y < r then a[y][x] else a[x][y]
      {
        var c := r + 1;
        while c < n
          invariant r + 1 <= c <= n
          invariant forall x, y :: 0 <= x < n && 0 <= y < n ==>
            vals[x, y] == if x < r || y < r || (x == r && r < y < c) || (y == r && r < x < c) then a[y][x] else a[x][y]
        {
          vals[r, c], vals[c, r] := vals[c, r], vals[r, c];
          c := c + 1;
        }
        r := r + 1;
      }
      GridsEqual(Cells(), Grids.Transpose(a, n), n);
    }

    /** The transpose in a copy of this matrix (which keeps its
        eigenvalues). */
    method Transposed() returns (T: SquareMatrix)
      requires Valid() && n >= 1
      ensures fresh(T) && fresh(T.vals) && (T.eig == null || fresh(T.eig)) && T.Valid() && T.n == n
      ensures T.Cells() == Grids.Transpose(Cells(), n) && T.EigenValues() == EigenValues()
    {
      T := new SquareMatrix.Copy(this);
      T.Transpose();
    }

    /** Zeroes every cell and, when present, every eigenvalue. */
    method Clear()
      requires Valid()
      modifies vals, eig
      ensures Cells() == Zero(n)
      ensures EigenValues() == if eig == null then None else Some(seq(n, i => 0.0))
    {
      var r := 0;
      while r < n
        modifies vals
        invariant 0 <= r <= n
        invariant forall x, y :: 0 <= x < r && 0 <= y < n ==> vals[x, y] == 0.0
      {
        var c := 0;
        while c < n
          modifies vals
          invariant 0 <= c <= n
          invariant forall x, y :: 0 <= x < r && 0 <= y < n ==> vals[x, y] == 0.0
          invariant forall y :: 0 <= y < c ==> vals[r, y] == 0.0
        {
          vals[r, c] := 0.0;
          c := c + 1;
        }
        r := r + 1;
      }
      GridsEqual(Cells(), Zero(n), n);
      if eig != null {
        var k := 0;
        while k < n
          modifies eig
          invariant 0 <= k <= n
          invariant forall i :: 0 <= i < k ==> eig[i] == 0.0
        {
          eig[k] := 0.0;
          k := k + 1;
        }
        assert eig[..] == seq(n, i => 0.0);
      }
    }

    /** Clears the matrix (and its eigenvalues), then sets the diagonal to 1. */
    method ToIdentity()
      requires Valid()
      modifies vals, eig
      ensures Cells() == Identity(n)
      ensures EigenValues() == if eig == null then None else Some(seq(n, i => 0.0))
    {
      Clear();
      var r := 0;
      while r < n
        modifies vals
        invariant 0 <= r <= n
        invariant forall x, y :: 0 <= x < n && 0 <= y < n ==>
          vals[x, y] == if x == y && x < r then 1.0 else 0.0
      {
        vals[r, r] := 1.0;
        r := r + 1;
      }
      GridsEqual(Cells(), Identity(n), n);
    }

    /** Multiplies every cell by `coef`. */
    method Scale(coef: real)
      requires Valid()
      modifies vals
      ensures Cells() == Grids.Scale(old(Cells()), coef, n)
    {
      ghost var a := Cells();
      var r := 0;
      while r < n
        invariant 0 <= r <= n
        invariant forall x, y :: 0 <= x < n && 0 <= y < n ==>
          vals[x, y] == if x < r then a[x][y] * coef else a[x][y]
      {
        var c := 0;
        while c < n
          invariant 0 <= c <= n
          invariant forall x, y :: 0 <= x < n && 0 <= y < n ==>
            vals[x, y] == if x < r || (x == r && y < c) then a[x][y] * coef else a[x][y]
        {
          vals[r, c] := vals[r, c] * coef;
          c := c + 1;
        }
        r := r + 1;
      }
      GridsEqual(Cells(), Grids.Scale(a, coef, n), n);
    }

    /** The sum of the diagonal. */
    method Trace() returns (t: real)
      requires Valid()
      ensures t == Grids.Trace(Cells(), n)
    {
      t := 0.0;
      var r := 0;
      while r < n
        invariant 0 <= r <= n
        invariant t == DiagSum(Cells(), r, n)
      {
        t := t + vals[r, r];
        r := r + 1;
      }
    }

    // -------------------------------------------------------------------
    // Determinants

    /** The determinant, by cofactor expansion along column 0. */
    method ComputeDet() returns (d: real)
      requires Valid() && n >= 2
      ensures d == Det(Cells(), n)
    {
      d := ComputeSubDet(Cells(), Iota(n), 0);
    }

    /** The determinant of the view made of the rows `rows`, each read from
        column `col` on: the 2×2 formula, or the alternating sum over the
        view's rows of its first-column entry times the determinant of the
        view without that row, one column further right. */
    method ComputeSubDet(ghost m: Grid, rows: seq<nat>, col: nat) returns (d: real)
      requires Valid() && m == Cells() && |rows| >= 2 && IsView(m, rows, col, n)
      ensures d == DetOf(m, rows, col, n)
      decreases |rows|
    {
      var size := |rows|;
      if size == 2 {
        d := SubDetTwo(m, rows, col);
        return;
      }
      var subDet := 0.0;
      var sign := 1.0;
      var row := 0;
      while row < size
        invariant 0 <= row <= size
        invariant subDet == CofactorSum(m, rows, col, row, n)
        invariant sign == Sign(row)
      {
        var sub := RowsWithout(rows, row);
        RemoveAtView(m, rows, col, n, row);
        var minor := ComputeSubDet(m, sub, col + 1);
        var entry := vals[rows[row], col];
        ExpansionStep(m, rows, col, row, n, sub, subDet, entry, minor, sign);
        subDet := subDet + Term(entry, minor, sign);
        sign := -sign;
        row := row + 1;
      }
      return subDet;
    }

    /** The 2×2 base case of ComputeSubDet. */
    method SubDetTwo(ghost m: Grid, rows: seq<nat>, col: nat) returns (d: real)
      requires Valid() && m == Cells() && |rows| == 2 && IsView(m, rows, col, n)
      ensures d == DetOf(m, rows, col, n)
    {
      d := vals[rows[0], col] * vals[rows[1], col + 1] - vals[rows[0], col + 1] * vals[rows[1], col];
    }

    /** The determinant with column `column` replaced by v[0..n) (nothing is
        replaced when `column` >= n): the numerators of Cramer's rule. */
    method DeltaDeterminant(column: nat, v: seq<real>) returns (d: real)
      requires Valid() && n >= 2 && (column < n ==> |v| >= n)
      ensures d == Det(ReplaceColumn(Cells(), column, v, n), n)
    {
      var mat := new SquareMatrix(n);
      FillReplacingColumn(mat.vals, vals, column, v, n);
      d := mat.ComputeDet();
    }

    // -------------------------------------------------------------------
    // Inversion

    /** Gauss-Jordan on the n × 2n grid [this | identity]. Returns the size-0
        matrix when some step finds no non-zero pivot; otherwise the right
        half, which the row operations leave as the identity with its rows
        permuted by the pivot swaps. */
    method Inv() returns (R: SquareMatrix)
      requires Valid() && n >= 1
      ensures fresh(R) && R.Valid() && R.eig == null
      ensures PivotPerm(Cells(), n).None? ==> R.n == 0
      ensures PivotPerm(Cells(), n).Some? ==>
        R.n == n && R.Cells() == PermMatrix(PivotPerm(Cells(), n).value, n)
    {
      ghost var a := Cells();
      var t := new real[n, 2 * n];
      FillScratch(t, vals, a, n);
      var found, p := ForwardPass(t, a, n);
      if !found {
        R := new SquareMatrix(0);
        return;
      }
      BackwardPass(t, a, p, n);
      R := new SquareMatrix(n);
      CopyRightHalf(t, R.vals, p, n);
    }

    // -------------------------------------------------------------------
    // Quaternions and OpenGL arrays

    /** Writes the rotation matrix of the quaternion q = (w, x, y, z),
        first making a size-0 matrix 3×3. */
    method InitFromQuaternion(q: seq<real>)
      requires Valid() && (n == 0 || n == 3) && |q| == 4
      modifies this, vals
      ensures Valid() && n == 3 && Cells() == RotationFromQuaternion(q)
      ensures EigenValues() == old(EigenValues())
    {
      if n == 0 {
        Init(3);
      }
      WriteRotation(vals, q);
    }

    /** The 16 values of the OpenGL array for a 3×3 or 4×4 matrix. */
    method ToGlMatrix() returns (m16: seq<real>)
      requires Valid() && (n == 3 || n == 4)
      ensures m16 == GlFromGrid(Cells(), n)
    {
      m16 := GlArray(vals, n);
    }

    // -------------------------------------------------------------------
    // Eigenvalues and eigenvectors

    /** Exchanges eigenvalues i and j together with columns i and j. */
    method SwapEigenPair(i: nat, j: nat)
      requires Valid() && eig != null && i < n && j < n
      modifies vals, eig
      ensures eig[..] == SwapAt(old(eig[..]), i, j)
      ensures Cells() == SwapColumns(old(Cells()), i, j, n)
    {
      ghost var a := Cells();
      ghost var b := SwapColumns(a, i, j, n);
      eig[i], eig[j] := eig[j], eig[i];
      var r := 0;
      while r < n
        modifies vals
        invariant 0 <= r <= n
        invariant forall x, y :: 0 <= x < n && 0 <= y < n ==>
          vals[x, y] == if x < r then b[x][y] else a[x][y]
      {
        vals[r, i], vals[r, j] := vals[r, j], vals[r, i];
        r := r + 1;
      }
      GridsEqual(Cells(), b, n);
    }

    /** Selection sort of the eigenvalues into non-increasing order, each
        column moving with its eigenvalue. `absVal` has no effect. Nothing
        changes without eigenvalues or below size 2. */
    method SortEigenValuesAndVectors(absVal: bool)
      requires Valid()
      modifies vals, eig
      ensures old(eig) == null || n < 2 ==> Cells() == old(Cells()) && EigenValues() == old(EigenValues())
      ensures eig != null ==> NonIncreasing(eig[..])
      ensures eig != null ==>
        multiset(Pairs(eig[..], Cells(), n)) == multiset(Pairs(old(eig[..]), old(Cells()), n))
    {
      if eig == null || n < 2 {
        return;
      }
      ghost var e0, c0 := eig[..], Cells();
      var i := 0;
      while i < n - 1
        modifies vals, eig
        invariant 0 <= i <= n - 1
        invariant forall x, y :: 0 <= x < y < n && x < i ==> eig[x] >= eig[y]
        invariant multiset(Pairs(eig[..], Cells(), n)) == multiset(Pairs(e0, c0, n))
      {
        SelectMax(i);
        i := i + 1;
      }
    }

    /** One pass of the selection sort: moves the first largest of the
        eigenvalues i..n-1, with its column, to position i. */
    method SelectMax(i: nat)
      requires Valid() && eig != null && i < n
      requires forall x, y :: 0 <= x < y < n && x < i ==> eig[x] >= eig[y]
      modifies vals, eig
      ensures forall x, y :: 0 <= x < y < n && x <= i ==> eig[x] >= eig[y]
      ensures multiset(Pairs(eig[..], Cells(), n)) == multiset(Pairs(old(eig[..]), old(Cells()), n))
    {
      var maxValIndex := IndexOfMax(eig, i);
      if maxValIndex != i {
        ghost var e, c := eig[..], Cells();
        SwapEigenPair(i, maxValIndex);
        PairsSwap(e, c, i, maxValIndex, n);
        SwapKeepsMultiset(Pairs(e, c, n), i, maxValIndex);
      }
    }

    /** Eigenvalue `index` and its column. */
    method GetEigenValueAndVector(index: nat) returns (value: real, vector: seq<real>)
      requires Valid() && eig != null && index < n
      ensures value == eig[index] && vector == Column(Cells(), index, n)
    {
      vector := [];
      var i := 0;
      while i < n
        invariant 0 <= i <= n
        invariant |vector| == i && forall k :: 0 <= k < i ==> vector[k] == vals[k, index]
      {
        vector := vector + [vals[i, index]];
        i := i + 1;
      }
      value := eig[index];
    }

    /** The largest eigenvalue (its first occurrence) and its column. */
    method GetMaxEigenValueAndVector() returns (value: real, vector: seq<real>)
      requires Valid() && eig != null
      ensures value == eig[FirstMaxIndex(eig[..], n)]
      ensures vector == Column(Cells(), FirstMaxIndex(eig[..], n), n)
      ensures forall k :: 0 <= k < n ==> eig[k] <= value
    {
      var maxIndex := 0;
      var i := 1;
      while i < n
        invariant 1 <= i <= n
        invariant maxIndex == FirstMaxIndex(eig[..], i)
      {
        if eig[i] > eig[maxIndex] {
          maxIndex := i;
        }
        i := i + 1;
      }
      value, vector := GetEigenValueAndVector(maxIndex);
    }

    /** The smallest eigenvalue (its first occurrence) and its column. */
    method GetMinEigenValueAndVector() returns (value: real, vector: seq<real>)
      requires Valid() && eig != null
      ensures value == eig[FirstMinIndex(eig[..], n)]
      ensures vector == Column(Cells(), FirstMinIndex(eig[..], n), n)
      ensures forall k :: 0 <= k < n ==> value <= eig[k]
    {
      var minIndex := 0;
      var i := 1;
      while i < n
        invariant 1 <= i <= n
        invariant minIndex == FirstMinIndex(eig[..], i)
      {
        if eig[i] < eig[minIndex] {
          minIndex := i;
        }
        i := i + 1;
      }
      value, vector := GetEigenValueAndVector(minIndex);
    }
  }
}
