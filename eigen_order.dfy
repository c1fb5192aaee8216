/** The eigenvalue array and the matrix columns it is paired with:
    eigenvalue i belongs to column i. This module states what the selection
    sort of sortEigenValuesAndVectors and the eigen getters promise. */
module EigenOrder {
  import opened Grids

  /** Each eigenvalue with its column. */
  function Pairs(ev: seq<real>, m: Grid, n: nat): (ps: seq<(real, seq<real>)>)
    requires |ev| == n && IsSquare(m, n)
    ensures |ps| == n && forall i :: 0 <= i < n ==> ps[i] == (ev[i], Column(m, i, n))
  {
    seq(n, i requires 0 <= i < n => (ev[i], Column(m, i, n)))
  }

  ghost predicate NonIncreasing(s: seq<real>) {
    forall i, j :: 0 <= i < j < |s| ==> s[i] >= s[j]
  }

  /** The grid with columns `i` and `j` exchanged. */
  function SwapColumns(m: Grid, i: nat, j: nat, n: nat): (g: Grid)
    requires IsSquare(m, n) && i < n && j < n
    ensures IsSquare(g, n)
    ensures forall r, c :: 0 <= r < n && 0 <= c < n ==>
      g[r][c] == m[r][if c == i then j else if c == j then i else c]
  {
    seq(n, r requires 0 <= r < n =>
      seq(n, c requires 0 <= c < n => m[r][if c == i then j else if c == j then i else c]))
  }

  /** Exchanging two eigenvalues together with their columns exchanges two
      pairs. */
  lemma PairsSwap(ev: seq<real>, m: Grid, i: nat, j: nat, n: nat)
    requires |ev| == n && IsSquare(m, n) && i < n && j < n
    ensures Pairs(SwapAt(ev, i, j), SwapColumns(m, i, j, n), n) == SwapAt(Pairs(ev, m, n), i, j)
  {
    var l, r := Pairs(SwapAt(ev, i, j), SwapColumns(m, i, j, n), n), SwapAt(Pairs(ev, m, n), i, j);
    forall k | 0 <= k < n ensures l[k] == r[k] {
      var src := if k == i then j else if k == j then i else k;
      assert Column(SwapColumns(m, i, j, n), k, n) == Column(m, src, n);
    }
  }

  /** A swap keeps the multiset of elements. */
  lemma SwapKeepsMultiset<T>(s: seq<T>, i: nat, j: nat)
    requires i < |s| && j < |s|
    ensures multiset(SwapAt(s, i, j)) == multiset(s)
  {
    var t := s[i := s[j]];
    assert multiset(t) == multiset(s) - multiset{s[i]} + multiset{s[j]};
    assert multiset(t[j := s[i]]) == multiset(t) - multiset{t[j]} + multiset{s[i]};
  }

  /** Index of the first largest among `ev[0..k)`, found left to right with a
      strict comparison (getMaxEigenValueAndVector). */
  function FirstMaxIndex(ev: seq<real>, k: nat): (m: nat)
    requires 1 <= k <= |ev|
    ensures m < k
    ensures forall j :: 0 <= j < k ==> ev[j] <= ev[m]
    ensures forall j :: 0 <= j < m ==> ev[j] < ev[m]
  {
    if k == 1 then 0
    else
      var prev := FirstMaxIndex(ev, k - 1);
      if ev[k - 1] > ev[prev] then k - 1 else prev
  }

  /** Index of the first smallest among `ev[0..k)`
      (getMinEigenValueAndVector). */
  function FirstMinIndex(ev: seq<real>, k: nat): (m: nat)
    requires 1 <= k <= |ev|
    ensures m < k
    ensures forall j :: 0 <= j < k ==> ev[m] <= ev[j]
    ensures forall j :: 0 <= j < m ==> ev[m] < ev[j]
  {
    if k == 1 then 0
    else
      var prev := FirstMinIndex(ev, k - 1);
      if ev[k - 1] < ev[prev] then k - 1 else prev
  }

  /** Once sorted, the largest eigenvalue is the first one. */
  lemma SortedMaxIsFirst(ev: seq<real>)
    requires |ev| >= 1 && NonIncreasing(ev)
    ensures FirstMaxIndex(ev, |ev|) == 0
  {
    var m := FirstMaxIndex(ev, |ev|);
    assert ev[0] >= ev[m];
  }

  /** Once sorted, the smallest eigenvalue is the last one, and the first
      index holding it starts the final run of equal values. */
  lemma SortedMinIsLast(ev: seq<real>)
    requires |ev| >= 1 && NonIncreasing(ev)
    ensures ev[FirstMinIndex(ev, |ev|)] == ev[|ev| - 1]
    ensures forall j :: FirstMinIndex(ev, |ev|) <= j < |ev| ==> ev[j] == ev[|ev| - 1]
  {
  }
}
