/** Interchange with 16-element column-major OpenGL transformation arrays:
    slot `r + 4*c` holds row r, column c. The 3×3 rotation block sits in rows
    and columns 0..2; an OpenGL translation sits in slots 12, 13, 14. */
module OpenGl {
  import opened Grids

  /** What the "from OpenGL" constructors store: [r][c] = M16[c*4 + r]. */
  function GridFromGl(m16: seq<real>, size: nat): (g: Grid)
    requires |m16| == 16 && size <= 4
    ensures IsSquare(g, size)
    ensures forall r, c :: 0 <= r < size && 0 <= c < size ==> g[r][c] == m16[c * 4 + r]
  {
    seq(size, r requires 0 <= r < size => seq(size, c requires 0 <= c < size => m16[c * 4 + r]))
  }

  /** Slot `k` of the array toGlMatrix fills: the 3×3 block column-major; for
      a 4×4 also the last row in slots 12..14 and the last column in slots
      3, 7, 11; slot 15 forced to 1; every other slot 0. */
  function GlSlot(m: Grid, n: nat, k: nat): (x: real)
    requires IsSquare(m, n) && (n == 3 || n == 4) && k < 16
  {
    var r, c := k % 4, k / 4;
    if k == 15 then 1.0
    else if r < 3 && c < 3 then m[r][c]
    else if n == 4 && c == 3 then m[3][r]
    else if n == 4 && r == 3 then m[c][3]
    else 0.0
  }

  /** The 16 values toGlMatrix writes. */
  function GlFromGrid(m: Grid, n: nat): (g: seq<real>)
    requires IsSquare(m, n) && (n == 3 || n == 4)
    ensures |g| == 16 && forall k :: 0 <= k < 16 ==> g[k] == GlSlot(m, n, k)
  {
    seq(16, k requires 0 <= k < 16 => GlSlot(m, n, k))
  }

  /** A 3×3 matrix survives export and re-import unchanged. */
  lemma RoundTripThree(m: Grid)
    requires IsSquare(m, 3)
    ensures GridFromGl(GlFromGrid(m, 3), 3) == m
  {
    GridsEqual(GridFromGl(GlFromGrid(m, 3), 3), m, 3);
  }

  /** The 4×4 grid with its last row and last column exchanged and with
      [3][3] = 1. */
  function ExchangeLastRowAndColumn(m: Grid): (g: Grid)
    requires IsSquare(m, 4)
    ensures IsSquare(g, 4)
  {
    seq(4, r requires 0 <= r < 4 => seq(4, c requires 0 <= c < 4 =>
      if r == 3 && c == 3 then 1.0
      else if c == 3 then m[3][r]
      else if r == 3 then m[c][3]
      else m[r][c]))
  }

  /** A 4×4 matrix comes back with its last row and last column exchanged
      and with [3][3] = 1. */
  lemma RoundTripFourAsWritten(m: Grid)
    requires IsSquare(m, 4)
    ensures GridFromGl(GlFromGrid(m, 4), 4) == ExchangeLastRowAndColumn(m)
  {
    var g, e := GridFromGl(GlFromGrid(m, 4), 4), ExchangeLastRowAndColumn(m);
    forall r, c | 0 <= r < 4 && 0 <= c < 4 ensures g[r][c] == e[r][c] {
      ColumnMajorSlot(r, c);
    }
    GridsEqual(g, e, 4);
  }

  /** Slot `c*4 + r` is row `r`, column `c`. */
  lemma ColumnMajorSlot(r: nat, c: nat)
    requires r < 4 && c < 4
    ensures (c * 4 + r) % 4 == r && (c * 4 + r) / 4 == c
  {
  }

  /** The array slot of row `r`, column `c`. */
  function Slot(r: nat, c: nat): (k: nat) {
    r + c * 4
  }

  /** Distinct cells have distinct slots. */
  lemma SlotInjective(r: nat, c: nat, x: nat, y: nat)
    requires r < 4 && c < 4 && x < 4 && y < 4 && (r != x || c != y)
    ensures Slot(r, c) != Slot(x, y)
  {
  }

  /** Slot `k` is row `k % 4`, column `k / 4`. */
  lemma SlotOfIndex(k: nat)
    requires k < 16
    ensures k % 4 < 4 && k / 4 < 4 && k == Slot(k % 4, k / 4)
  {
  }

  /** The identity transform array. */
  function GlIdentity(): (g: seq<real>)
    ensures |g| == 16
  {
    [1.0, 0.0, 0.0, 0.0,  0.0, 1.0, 0.0, 0.0,  0.0, 0.0, 1.0, 0.0,  0.0, 0.0, 0.0, 1.0]
  }

  /** Importing the identity array and exporting it again gives it back, in
      both the 4×4 and the rotation-only 3×3 mode. */
  lemma IdentityRoundTrip()
    ensures GlFromGrid(GridFromGl(GlIdentity(), 4), 4) == GlIdentity()
    ensures GlFromGrid(GridFromGl(GlIdentity(), 3), 3) == GlIdentity()
  {
    assert GridFromGl(GlIdentity(), 4) == Identity(4) by {
      GridsEqual(GridFromGl(GlIdentity(), 4), Identity(4), 4);
    }
    assert GridFromGl(GlIdentity(), 3) == Identity(3) by {
      GridsEqual(GridFromGl(GlIdentity(), 3), Identity(3), 3);
    }
  }

  /** The 4×4 translation by (5, 0, 0): its translation is column 3. */
  function TranslateX(): (g: Grid)
    ensures IsSquare(g, 4)
  {
    [[1.0, 0.0, 0.0, 5.0], [0.0, 1.0, 0.0, 0.0], [0.0, 0.0, 1.0, 0.0], [0.0, 0.0, 0.0, 1.0]]
  }

  /** toGlMatrix as written puts a 4×4 translation into slot 3 instead of
      slot 12, where the constructor reads it back from: the round trip of a
      translation loses it. */
  lemma TranslationLostAsWritten()
    ensures GlFromGrid(TranslateX(), 4)[12] == 0.0 && GlFromGrid(TranslateX(), 4)[3] == 5.0
    ensures GridFromGl(GlFromGrid(TranslateX(), 4), 4) != TranslateX()
  {
    assert GridFromGl(GlFromGrid(TranslateX(), 4), 4)[0][3] == 0.0;
  }

  // ---------------------------------------------------------------------
  // The export consistent with the constructors

  /** Slot `k` with the last column in the translation slots 12..14 and the
      last row in slots 3, 7, 11: the same column-major layout as the 3×3
      block and as the constructors. */
  function GlSlotConsistent(m: Grid, n: nat, k: nat): (x: real)
    requires IsSquare(m, n) && (n == 3 || n == 4) && k < 16
  {
    var r, c := k % 4, k / 4;
    if k == 15 then 1.0
    else if r < n && c < n then m[r][c]
    else 0.0
  }

  function GlFromGridConsistent(m: Grid, n: nat): (g: seq<real>)
    requires IsSquare(m, n) && (n == 3 || n == 4)
    ensures |g| == 16 && forall k :: 0 <= k < 16 ==> g[k] == GlSlotConsistent(m, n, k)
  {
    seq(16, k requires 0 <= k < 16 => GlSlotConsistent(m, n, k))
  }

  /** With the consistent export every 4×4 matrix whose [3][3] is 1 (every
      affine transform) survives the round trip, and so does every 3×3. */
  lemma RoundTripConsistent(m: Grid, n: nat)
    requires IsSquare(m, n) && (n == 3 || n == 4)
    requires n == 4 ==> m[3][3] == 1.0
    ensures GridFromGl(GlFromGridConsistent(m, n), n) == m
  {
    GridsEqual(GridFromGl(GlFromGridConsistent(m, n), n), m, n);
  }

  /** ... and an array whose slot 15 is 1 survives import and export. */
  lemma ArrayRoundTripConsistent(m16: seq<real>)
    requires |m16| == 16 && m16[15] == 1.0
    ensures GlFromGridConsistent(GridFromGl(m16, 4), 4) == m16
  {
    var g := GlFromGridConsistent(GridFromGl(m16, 4), 4);
    forall k | 0 <= k < 16 ensures g[k] == m16[k] {
      assert k == (k / 4) * 4 + k % 4;
    }
  }
}
