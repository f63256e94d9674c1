/** Triangular factors: what elimination without row exchanges records, why the factors are unique,
    and permutations of rows. */
module Factors {
  import opened Arithmetic
  import opened LinAlg

  ghost predicate UnitLower(l: Mat, n: nat) {
    && IsMat(l, n, n)
    && (forall i :: 0 <= i < n ==> l[i][i] == 1.0)
    && (forall i, k :: 0 <= i < k < n ==> l[i][k] == 0.0)
  }

  ghost predicate Upper(u: Mat, rows: nat, cols: nat) {
    && IsMat(u, rows, cols)
    && forall i, j :: 0 <= j < i < rows && j < cols ==> u[i][j] == 0.0
  }

  // ---- Multipliers ----

  /** Row i of a is row i of u plus the multiples c[i] of the first d rows of u. */
  ghost predicate RowRecorded(a: Mat, c: Mat, u: Mat, i: nat, d: nat, rows: nat, cols: nat)
    requires IsMat(a, rows, cols) && IsMat(c, rows, rows) && IsMat(u, rows, cols) && i < rows && d <= rows
  {
    forall j :: 0 <= j < cols ==> a[i][j] == u[i][j] + Dot(c[i], Col(u, j), d)
  }

  ghost predicate Recorded(a: Mat, c: Mat, u: Mat, done: nat, rows: nat, cols: nat) {
    && IsMat(a, rows, cols) && IsMat(c, rows, rows) && IsMat(u, rows, cols) && done <= rows
    && forall i :: 0 <= i < rows ==> RowRecorded(a, c, u, i, Min(i, done), rows, cols)
  }

  lemma RecordedInitially(a: Mat, c: Mat, rows: nat, cols: nat)
    requires IsMat(a, rows, cols) && IsMat(c, rows, rows)
    ensures Recorded(a, c, a, 0, rows, cols)
  {
  }

  /** Rows below the first d may change without affecting what is recorded for another row. */
  lemma RowFrame(a: Mat, c: Mat, u: Mat, u': Mat, i: nat, d: nat, rows: nat, cols: nat)
    requires IsMat(a, rows, cols) && IsMat(c, rows, rows) && IsMat(u, rows, cols) && IsMat(u', rows, cols)
    requires i < rows && d <= rows && RowRecorded(a, c, u, i, d, rows, cols)
    requires u[i] == u'[i] && forall k :: 0 <= k < d ==> u[k] == u'[k]
    ensures RowRecorded(a, c, u', i, d, rows, cols)
  {
    forall j | 0 <= j < cols
      ensures a[i][j] == u'[i][j] + Dot(c[i], Col(u', j), d)
    {
      DotExt(c[i], c[i], Col(u, j), Col(u', j), d);
    }
  }

  /** Adding v times row d to row i is recorded as the multiplier -v. */
  lemma RowStep(a: Mat, c: Mat, u: Mat, i: nat, d: nat, v: real, rows: nat, cols: nat)
    requires IsMat(a, rows, cols) && IsMat(c, rows, rows) && IsMat(u, rows, cols)
    requires d < i < rows && RowRecorded(a, c, u, i, d, rows, cols)
    ensures RowRecorded(a, c[i := c[i][d := -v]], AddRow(u, d, v, i), i, d + 1, rows, cols)
  {
    var c', u' := c[i := c[i][d := -v]], AddRow(u, d, v, i);
    forall j | 0 <= j < cols
      ensures a[i][j] == u'[i][j] + Dot(c'[i], Col(u', j), d + 1)
    {
      DotExt(c[i], c'[i], Col(u, j), Col(u', j), d);
    }
  }

  function Depth(i: nat, done: nat, upto: nat): nat {
    if i < upto then Min(i, done + 1) else done
  }

  /** While row done is subtracted from the rows below it, the rows before upto are finished. */
  ghost predicate Clearing(a: Mat, c: Mat, u: Mat, done: nat, upto: nat, rows: nat, cols: nat) {
    && IsMat(a, rows, cols) && IsMat(c, rows, rows) && IsMat(u, rows, cols) && done < upto <= rows
    && forall i :: 0 <= i < rows ==> Cleared(a, c, u, i, done, upto, rows, cols)
  }

  ghost predicate Cleared(a: Mat, c: Mat, u: Mat, i: nat, done: nat, upto: nat, rows: nat, cols: nat)
    requires IsMat(a, rows, cols) && IsMat(c, rows, rows) && IsMat(u, rows, cols) && i < rows && done < rows
  {
    RowRecorded(a, c, u, i, Depth(i, done, upto), rows, cols)
  }

  lemma ClearingStart(a: Mat, c: Mat, u: Mat, done: nat, rows: nat, cols: nat)
    requires Recorded(a, c, u, done, rows, cols) && done < rows
    ensures Clearing(a, c, u, done, done + 1, rows, cols)
  {
    var next := done + 1;
    forall i | 0 <= i < rows
      ensures Cleared(a, c, u, i, done, next, rows, cols)
    {
      assert RowRecorded(a, c, u, i, Min(i, done), rows, cols);
    }
  }

  lemma ClearingStep(a: Mat, c: Mat, u: Mat, done: nat, upto: nat, v: real, rows: nat, cols: nat)
    requires Clearing(a, c, u, done, upto, rows, cols) && upto < rows
    ensures Clearing(a, c[upto := c[upto][done := -v]], AddRow(u, done, v, upto), done, upto + 1, rows, cols)
  {
    var c', u', next := c[upto := c[upto][done := -v]], AddRow(u, done, v, upto), upto + 1;
    forall i | 0 <= i < rows
      ensures Cleared(a, c', u', i, done, next, rows, cols)
    {
      assert Cleared(a, c, u, i, done, upto, rows, cols);
      if i == upto {
        RowStep(a, c, u, i, done, v, rows, cols);
      } else {
        RowFrame(a, c, u, u', i, Depth(i, done, upto), rows, cols);
        assert c'[i] == c[i];
      }
    }
  }

  lemma ClearingEnd(a: Mat, c: Mat, u: Mat, done: nat, rows: nat, cols: nat)
    requires Clearing(a, c, u, done, rows, rows, cols)
    ensures Recorded(a, c, u, done + 1, rows, cols)
  {
    var next := done + 1;
    forall i | 0 <= i < rows
      ensures RowRecorded(a, c, u, i, Min(i, next), rows, cols)
    {
      assert Cleared(a, c, u, i, done, rows, rows, cols);
    }
  }

  /** Rows from done on may be exchanged everywhere at once. */
  lemma RecordedSwap(a: Mat, c: Mat, u: Mat, done: nat, r: nat, s: nat, rows: nat, cols: nat)
    requires Recorded(a, c, u, done, rows, cols) && done <= r < rows && done <= s < rows
    ensures Recorded(SwapRows(a, r, s), SwapRows(c, r, s), SwapRows(u, r, s), done, rows, cols)
  {
    var a', c', u' := SwapRows(a, r, s), SwapRows(c, r, s), SwapRows(u, r, s);
    forall i | 0 <= i < rows
      ensures RowRecorded(a', c', u', i, Min(i, done), rows, cols)
    {
      var o := if i == s then r else if i == r then s else i;
      assert a'[i] == a[o] && c'[i] == c[o] && u'[i] == u[o];
      assert RowRecorded(a, c, u, o, Min(o, done), rows, cols);
      forall j | 0 <= j < cols
        ensures a'[i][j] == u'[i][j] + Dot(c'[i], Col(u', j), Min(i, done))
      {
        DotExt(c[o], c'[i], Col(u, j), Col(u', j), Min(i, done));
      }
    }
  }

  /** The unit lower triangular matrix with the multipliers of the first done columns. */
  ghost predicate HoldsMultipliers(l: Mat, c: Mat, done: nat, rows: nat)
    requires IsMat(c, rows, rows)
  {
    && UnitLower(l, rows)
    && (forall i, k :: 0 <= k < i < rows ==> l[i][k] == if k < done then c[i][k] else 0.0)
  }

  lemma RecordedIsProduct(a: Mat, c: Mat, u: Mat, l: Mat, done: nat, rows: nat, cols: nat)
    requires Recorded(a, c, u, done, rows, cols) && HoldsMultipliers(l, c, done, rows)
    ensures IsProd(l, u, a, rows, rows, cols)
  {
    forall i, j | 0 <= i < rows && 0 <= j < cols
      ensures a[i][j] == Dot(l[i], Col(u, j), rows)
    {
      assert RowRecorded(a, c, u, i, Min(i, done), rows, cols);
      DotTail(l[i], Col(u, j), i + 1, rows);
      DotTail(l[i], Col(u, j), Min(i, done), i);
      DotExt(l[i], c[i], Col(u, j), Col(u, j), Min(i, done));
    }
  }

  // ---- Permutations ----

  predicate IsPermutation(sigma: seq<nat>, n: nat) {
    && |sigma| == n
    && (forall i :: 0 <= i < n ==> sigma[i] < n)
    && (forall i, k :: 0 <= i < k < n ==> sigma[i] != sigma[k])
  }

  /** Row i is row sigma[i] of a. */
  function Permuted(a: Mat, sigma: seq<nat>): (p: Mat)
    requires IsPermutation(sigma, |a|)
    ensures |p| == |a| && forall i :: 0 <= i < |a| ==> p[i] == a[sigma[i]]
  {
    seq(|a|, i requires 0 <= i < |a| => a[sigma[i]])
  }

  lemma PermutedSwap(a: Mat, sigma: seq<nat>, r: nat, s: nat)
    requires IsPermutation(sigma, |a|) && r < |a| && s < |a|
    ensures IsPermutation(SwapRows(sigma, r, s), |a|)
    ensures Permuted(a, SwapRows(sigma, r, s)) == SwapRows(Permuted(a, sigma), r, s)
  {
  }

  function Ascending(n: nat): (sigma: seq<nat>)
    ensures IsPermutation(sigma, n) && forall i :: 0 <= i < n ==> sigma[i] == i
  {
    seq(n, i requires 0 <= i < n => i)
  }

  /** A product with a permutation matrix permutes the rows. */
  lemma PermutationProduct(a: Mat, sigma: seq<nat>, q: Mat, n: nat, cols: nat)
    requires IsMat(a, n, cols) && IsPermutation(sigma, n) && IsMat(q, n, cols)
    requires IsProd(Permuted(Identity(n), sigma), a, q, n, n, cols)
    ensures q == Permuted(a, sigma)
  {
    forall i, j | 0 <= i < n && 0 <= j < cols
      ensures q[i][j] == a[sigma[i]][j]
    {
      DotUnit(n, sigma[i], Col(a, j));
    }
    assert forall i :: 0 <= i < n ==> q[i] == a[sigma[i]];
  }
}
