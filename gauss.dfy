/** The n × 2n scratch grid of `inv` and the row operations its Gauss pivot
    performs on it. Every operation here reads its divisor or factor through
    the cell it overwrites first, as the source's `const Scalar&` references
    do: after that first write the divisor reads back as 1 and the factor as
    0, so only one cell of the row changes. */
module GaussPivot {
  import opened Grids
  import opened Pivoting
  import opened ArrayGrids

  /** Every cell of `t` other than [r0, c0] holds what it held in `before`. */
  ghost predicate OthersUnchanged(t: array2<real>, before: seq<seq<real>>, r0: nat, c0: nat)
    reads t
    requires |before| == t.Length0 && forall r :: 0 <= r < |before| ==> |before[r]| == t.Length1
  {
    forall r, c :: 0 <= r < t.Length0 && 0 <= c < t.Length1 && (r != r0 || c != c0) ==>
      t[r, c] == before[r][c]
  }

  /** The cells of `t` as rows. */
  ghost function Snapshot(t: array2<real>): (s: seq<seq<real>>)
    reads t
    ensures |s| == t.Length0 && forall r :: 0 <= r < |s| ==> |s[r]| == t.Length1
    ensures forall r, c :: 0 <= r < t.Length0 && 0 <= c < t.Length1 ==> s[r][c] == t[r, c]
  {
    seq(t.Length0, r reads t requires 0 <= r < t.Length0 =>
      seq(t.Length1, c reads t requires 0 <= c < t.Length1 => t[r, c]))
  }

  /** Swaps rows `i` and `j` of `t` from column `from` onwards. */
  method SwapRowTails(t: array2<real>, i: nat, j: nat, from: nat)
    requires i < t.Length0 && j < t.Length0
    modifies t
    ensures forall r, c :: 0 <= r < t.Length0 && 0 <= c < t.Length1 ==>
      t[r, c] == if c >= from && r == i then old(t[j, c])
                 else if c >= from && r == j then old(t[i, c])
                 else old(t[r, c])
  {
    var k := from;
    while k < t.Length1
      invariant forall r, c :: 0 <= r < t.Length0 && 0 <= c < t.Length1 ==>
        t[r, c] == if from <= c < k && r == i then old(t[j, c])
                   else if from <= c < k && r == j then old(t[i, c])
                   else old(t[r, c])
      decreases t.Length1 - k
    {
      t[i, k], t[j, k] := t[j, k], t[i, k];
      k := k + 1;
    }
  }

  /** Scales row `i` from column `i` onwards by the pivot, read back from
      [i][i] at each step: the pivot becomes 1 and nothing else changes. */
  method NormalizeRow(t: array2<real>, i: nat)
    requires i < t.Length0 && i < t.Length1 && t[i, i] != 0.0
    modifies t
    ensures t[i, i] == 1.0
    ensures OthersUnchanged(t, old(Snapshot(t)), i, i)
  {
    ghost var before := Snapshot(t);
    if t[i, i] != 1.0 {
      var j := i;
      while j < t.Length1
        invariant i <= j <= t.Length1
        invariant before[i][i] != 0.0
        invariant t[i, i] == if j == i then before[i][i] else 1.0
        invariant OthersUnchanged(t, before, i, i)
        decreases t.Length1 - j
      {
        ghost var d := t[i, i];
        assert d / d == 1.0;
        t[i, j] := t[i, j] / t[i, i];
        j := j + 1;
      }
    }
  }

  /** Subtracts row `i`, scaled by [j][i] read back at each step, from row
      `j` from column `i` onwards, when [j][i] is non-zero. With a unit pivot
      the first step clears [j][i] and the remaining steps subtract 0. */
  method EliminateEntry(t: array2<real>, j: nat, i: nat)
    requires i < t.Length0 && j < t.Length0 && i < t.Length1 && i != j && t[i, i] == 1.0
    modifies t
    ensures t[j, i] == 0.0
    ensures OthersUnchanged(t, old(Snapshot(t)), j, i)
  {
    ghost var before := Snapshot(t);
    if t[j, i] != 0.0 {
      var k := i;
      while k < t.Length1
        invariant i <= k <= t.Length1
        invariant t[i, i] == 1.0
        invariant t[j, i] == if k == i then before[j][i] else 0.0
        invariant OthersUnchanged(t, before, j, i)
        decreases t.Length1 - k
      {
        t[j, k] := t[j, k] - t[i, k] * t[j, i];
        k := k + 1;
      }
    }
  }

  // ---------------------------------------------------------------------
  // States of the scratch grid

  /** Left-half cell [r][c] after `i` steps of the forward pass: a unit
      diagonal with zeros below it in the columns already processed, and
      elsewhere the rows of `a` in the order `p`. */
  ghost function LeftCell(a: Grid, p: seq<nat>, i: nat, r: nat, c: nat, n: nat): (x: real)
    requires IsSquare(a, n) && RowIndices(p, n) && r < n && c < n
  {
    if c < i && r == c then 1.0
    else if c < i && r > c then 0.0
    else a[p[r]][c]
  }

  /** Left-half cell [r][c] during the reduction, once columns above `i`
      are cleared: the identity there, the forward result elsewhere. */
  ghost function UpperCell(a: Grid, p: seq<nat>, i: nat, r: nat, c: nat, n: nat): (x: real)
    requires IsSquare(a, n) && RowIndices(p, n) && r < n && c < n
  {
    if r == c then 1.0
    else if r > c || c > i then 0.0
    else a[p[r]][c]
  }

  /** The right half is the identity with its rows in the order `p`. */
  ghost predicate RightIsPermuted(t: array2<real>, p: seq<nat>, n: nat)
    reads t
    requires t.Length0 == n && t.Length1 == 2 * n && RowIndices(p, n)
  {
    forall r, c :: 0 <= r < n && n <= c < 2 * n ==> t[r, c] == if p[r] == c - n then 1.0 else 0.0
  }

  /** The scratch grid after `i` steps of the forward pass with row order `p`. */
  ghost predicate Forward(t: array2<real>, a: Grid, p: seq<nat>, i: nat, n: nat)
    reads t
  {
    && IsSquare(a, n) && RowIndices(p, n) && i <= n
    && t.Length0 == n && t.Length1 == 2 * n
    && (forall r, c :: 0 <= r < n && 0 <= c < n ==> t[r, c] == LeftCell(a, p, i, r, c, n))
    && RightIsPermuted(t, p, n)
  }

  /** The scratch grid during the reduction, columns above `i` cleared. */
  ghost predicate Backward(t: array2<real>, a: Grid, p: seq<nat>, i: nat, n: nat)
    reads t
  {
    && IsSquare(a, n) && RowIndices(p, n) && i < n
    && t.Length0 == n && t.Length1 == 2 * n
    && (forall r, c :: 0 <= r < n && 0 <= c < n ==> t[r, c] == UpperCell(a, p, i, r, c, n))
    && RightIsPermuted(t, p, n)
  }

  /** Fills the scratch grid with `a` on the left and the identity on the
      right. */
  method FillScratch(t: array2<real>, m: array2<real>, ghost a: Grid, n: nat)
    requires t.Length0 == n && t.Length1 == 2 * n && m.Length0 == n && m.Length1 == n && t != m
    requires IsSquare(a, n) && forall r, c :: 0 <= r < n && 0 <= c < n ==> m[r, c] == a[r][c]
    modifies t
    ensures Forward(t, a, Iota(n), 0, n)
  {
    var i := 0;
    while i < n
      invariant 0 <= i <= n
      invariant forall r, c :: 0 <= r < i && 0 <= c < n ==> t[r, c] == a[r][c]
      invariant forall r, c :: 0 <= r < i && n <= c < 2 * n ==> t[r, c] == if r == c - n then 1.0 else 0.0
    {
      var j := 0;
      while j < n
        invariant 0 <= j <= n
        invariant forall r, c :: 0 <= r < i && 0 <= c < n ==> t[r, c] == a[r][c]
        invariant forall r, c :: 0 <= r < i && n <= c < 2 * n ==> t[r, c] == if r == c - n then 1.0 else 0.0
        invariant forall c :: 0 <= c < j ==> t[i, c] == a[i][c]
        invariant forall c :: n <= c < n + j ==> t[i, c] == if i == c - n then 1.0 else 0.0
      {
        t[i, j] := m[i, j];
        if i == j {
          t[i, j + n] := 1.0;
        } else {
          t[i, j + n] := 0.0;
        }
        j := j + 1;
      }
      i := i + 1;
    }
  }

  /** Looks for the pivot of step `i`: the first row from `i` down whose
      entry in column `i` is non-zero. */
  method FindPivot(t: array2<real>, ghost a: Grid, ghost p: seq<nat>, i: nat, n: nat) returns (j: Option<nat>)
    requires Forward(t, a, p, i, n) && i < n
    ensures j == FirstNonZero(a, p, i, i, n)
  {
    var k := i;
    while t[k, i] == 0.0
      invariant i <= k < n
      invariant FirstNonZero(a, p, i, k, n) == FirstNonZero(a, p, i, i, n)
      decreases n - k
    {
      k := k + 1;
      if k >= n {
        return None;
      }
    }
    return Some(k);
  }

  /** Step `i` of the forward pass: pivot search, row swap, normalisation
      and elimination below the pivot. Fails when column `i` has no
      non-zero entry from row `i` down. */
  method ForwardStep(t: array2<real>, ghost a: Grid, ghost p: seq<nat>, i: nat, n: nat)
    returns (found: bool, ghost q: seq<nat>)
    requires Forward(t, a, p, i, n) && i < n
    modifies t
    ensures found == FirstNonZero(a, p, i, i, n).Some?
    ensures found ==> q == SwapAt(p, i, FirstNonZero(a, p, i, i, n).value) && Forward(t, a, q, i + 1, n)
  {
    var pivot := FindPivot(t, a, p, i, n);
    if pivot.None? {
      return false, p;
    }
    q := SwapPivotRow(t, a, p, i, pivot.value, n);
    NormalizeRow(t, i);
    EliminateBelow(t, a, q, i, n);
    return true, q;
  }

  /** Swaps the pivot row `j` into row `i` (from column `i` on, the cells to
      the left being zero in both rows). */
  method SwapPivotRow(t: array2<real>, ghost a: Grid, ghost p: seq<nat>, i: nat, j: nat, n: nat)
    returns (ghost q: seq<nat>)
    requires Forward(t, a, p, i, n) && i <= j < n
    modifies t
    ensures q == SwapAt(p, i, j) && Forward(t, a, q, i, n)
  {
    if i != j {
      SwapRowTails(t, i, j, i);
    }
    q := SwapAt(p, i, j);
  }

  /** The scratch grid in step `i` once the pivot is 1: the forward state
      `i` except at [i][i]. */
  ghost predicate Normalized(t: array2<real>, a: Grid, q: seq<nat>, i: nat, n: nat)
    reads t
  {
    && IsSquare(a, n) && RowIndices(q, n) && i < n
    && t.Length0 == n && t.Length1 == 2 * n
    && (forall r, c :: 0 <= r < n && 0 <= c < n ==>
          t[r, c] == if r == i && c == i then 1.0 else LeftCell(a, q, i, r, c, n))
    && RightIsPermuted(t, q, n)
  }

  /** Clears column `i` below the unit pivot, completing step `i`. */
  method EliminateBelow(t: array2<real>, ghost a: Grid, ghost q: seq<nat>, i: nat, n: nat)
    requires Normalized(t, a, q, i, n)
    modifies t
    ensures Forward(t, a, q, i + 1, n)
  {
    var k := i + 1;
    while k < n
      invariant i + 1 <= k <= n
      invariant t[i, i] == 1.0
      invariant forall r, c :: 0 <= r < n && 0 <= c < n ==>
        t[r, c] == if c == i && i < r < k then 0.0
                   else if r == i && c == i then 1.0
                   else LeftCell(a, q, i, r, c, n)
      invariant RightIsPermuted(t, q, n)
    {
      EliminateEntry(t, k, i);
      k := k + 1;
    }
  }

  /** Step `i` of the reduction: clears column `i` above the diagonal. */
  method ReductionStep(t: array2<real>, ghost a: Grid, ghost p: seq<nat>, i: nat, n: nat)
    requires Backward(t, a, p, i, n) && 0 < i
    modifies t
    ensures Backward(t, a, p, i - 1, n)
  {
    var j := 0;
    while j < i
      invariant 0 <= j <= i
      invariant t[i, i] == 1.0
      invariant forall r, c :: 0 <= r < n && 0 <= c < n ==>
        t[r, c] == if c == i && r < j then 0.0 else UpperCell(a, p, i, r, c, n)
      invariant RightIsPermuted(t, p, n)
    {
      EliminateEntry(t, j, i);
      j := j + 1;
    }
  }

  /** The forward pass: steps 0..n-1 from the filled scratch grid. Fails
      exactly when the pivot search of some step fails; otherwise ends with
      the rows in the order PivotPerm gives. */
  method ForwardPass(t: array2<real>, ghost a: Grid, n: nat) returns (found: bool, ghost p: seq<nat>)
    requires Forward(t, a, Iota(n), 0, n)
    modifies t
    ensures found == PivotPerm(a, n).Some?
    ensures found ==> p == PivotPerm(a, n).value && Forward(t, a, p, n, n)
  {
    p := Iota(n);
    var i := 0;
    while i < n
      invariant 0 <= i <= n
      invariant Forward(t, a, p, i, n)
      invariant PivotFrom(a, p, i, n) == PivotPerm(a, n)
    {
      found, p := ForwardStep(t, a, p, i, n);
      if !found {
        return;
      }
      i := i + 1;
    }
    found := true;
  }

  /** The reduction: clears the columns above the diagonal from the last
      column down to column 1, leaving the right half as it was. */
  method BackwardPass(t: array2<real>, ghost a: Grid, ghost p: seq<nat>, n: nat)
    requires Forward(t, a, p, n, n) && n >= 1
    modifies t
    ensures Backward(t, a, p, 0, n)
    ensures forall r, c :: 0 <= r < n && 0 <= c < n ==> t[r, c] == if r == c then 1.0 else 0.0
  {
    var i := n - 1;
    while i > 0
      invariant 0 <= i < n
      invariant Backward(t, a, p, i, n)
    {
      ReductionStep(t, a, p, i, n);
      i := i - 1;
    }
  }

  /** Copies the right half of the scratch grid into `m`. */
  method CopyRightHalf(t: array2<real>, m: array2<real>, ghost p: seq<nat>, n: nat)
    requires t.Length0 == n && t.Length1 == 2 * n && m.Length0 == n && m.Length1 == n && n >= 1
    requires RowIndices(p, n) && RightIsPermuted(t, p, n)
    modifies m
    ensures GridOf(m, n) == PermMatrix(p, n)
  {
    var r := 0;
    while r < n
      invariant 0 <= r <= n
      invariant RightIsPermuted(t, p, n)
      invariant forall x, y :: 0 <= x < r && 0 <= y < n ==> m[x, y] == if p[x] == y then 1.0 else 0.0
    {
      var c := 0;
      while c < n
        invariant 0 <= c <= n
        invariant RightIsPermuted(t, p, n)
        invariant forall x, y :: 0 <= x < r && 0 <= y < n ==> m[x, y] == if p[x] == y then 1.0 else 0.0
        invariant forall y :: 0 <= y < c ==> m[r, y] == if p[r] == y then 1.0 else 0.0
      {
        m[r, c] := t[r, c + n];
        c := c + 1;
      }
      r := r + 1;
    }
    GridsEqual(GridOf(m, n), PermMatrix(p, n), n);
  }
}
