/** Echelon forms whose pivots are not made units, and what the exchanged rows of the original
    matrix then are: a basis with the same kernel. */
module Bases {
  import opened LinAlg
  import opened Echelons
  import opened Factors
  import opened Elimination

  /** Row k starts in column c. */
  ghost predicate StepAt(u: Mat, k: nat, c: nat, cols: nat)
    requires IsMat(u, |u|, cols) && k < |u|
  {
    c < cols && u[k][c] != 0.0 && Leading(u, k, c, cols)
  }

  /** Rows 0..|piv| start in the columns piv, all before upto; the other rows are zero there. */
  ghost predicate Stepped(u: Mat, piv: seq<nat>, upto: nat, cols: nat)
    requires IsMat(u, |u|, cols) && upto <= cols
  {
    && Increasing(piv) && |piv| <= |u|
    && (forall k :: 0 <= k < |piv| ==> piv[k] < upto && StepAt(u, k, piv[k], cols))
    && (forall i :: |piv| <= i < |u| ==> Leading(u, i, upto, cols))
  }

  // ---- The kernel of an echelon form ----

  /** x solves the rows from k on, is 1 at j, and 0 behind j and at the earlier pivots. */
  ghost predicate SolvedFrom(u: Mat, piv: seq<nat>, j: nat, k: nat, x: Vec, cols: nat)
    requires IsMat(u, |u|, cols) && j < cols && k <= |piv|
  {
    && |x| == cols && x[j] == 1.0
    && (forall c :: j < c < cols ==> x[c] == 0.0)
    && (forall i :: 0 <= i < k && piv[i] < cols ==> x[piv[i]] == 0.0)
    && (forall i :: k <= i < |u| ==> Dot(u[i], x, cols) == 0.0)
  }

  /** Solving backwards from a column without pivot. */
  lemma {:induction false} BackSolve(u: Mat, piv: seq<nat>, j: nat, k: nat, cols: nat) returns (x: Vec)
    requires IsMat(u, |u|, cols) && Stepped(u, piv, cols, cols) && j < cols && j !in piv && k <= |piv|
    ensures SolvedFrom(u, piv, j, k, x, cols)
    decreases |piv| - k
  {
    if k == |piv| {
      x := Zero(cols)[j := 1.0];
      forall i | k <= i < |u|
        ensures Dot(u[i], x, cols) == 0.0
      {
        assert Leading(u, i, cols, cols);
        DotTail(u[i], x, 0, cols);
      }
    } else {
      var y := BackSolve(u, piv, j, k + 1, cols);
      assert StepAt(u, k, piv[k], cols);
      if piv[k] > j {
        x := y;
        DotTail(u[k], x, 0, cols);
      } else {
        x := SolveRow(u, piv, j, k, y, cols);
      }
    }
  }

  lemma SolveRow(u: Mat, piv: seq<nat>, j: nat, k: nat, y: Vec, cols: nat) returns (x: Vec)
    requires IsMat(u, |u|, cols) && Stepped(u, piv, cols, cols) && j < cols && k < |piv| && piv[k] < j
    requires SolvedFrom(u, piv, j, k + 1, y, cols)
    ensures SolvedFrom(u, piv, j, k, x, cols)
  {
    var p := piv[k];
    assert StepAt(u, k, p, cols);
    var v := ClearingFactor(Dot(u[k], y, cols), u[k][p]);
    Quotient(Dot(u[k], y, cols), u[k][p], v);
    x := y[p := v];
    forall i | k <= i < |u|
      ensures Dot(u[i], x, cols) == 0.0
    {
      DotUpdate(u[i], y, p, v, cols);
      if i > k {
        assert i < |piv| ==> StepAt(u, i, piv[i], cols);
        assert i >= |piv| ==> Leading(u, i, cols, cols);
        assert u[i][p] == 0.0;
      }
    }
  }

  /** Here too a column has no pivot exactly when some vector of the kernel ends in it. */
  lemma SteppedFreeColumn(u: Mat, piv: seq<nat>, j: nat, cols: nat)
    requires IsMat(u, |u|, cols) && Stepped(u, piv, cols, cols) && j < cols
    ensures j !in piv <==> exists x :: |x| == cols && Kills(u, x) && EndsIn(x, j)
  {
    if j !in piv {
      var x := BackSolve(u, piv, j, 0, cols);
      assert Kills(u, x) && EndsIn(x, j);
    } else {
      var k :| 0 <= k < |piv| && piv[k] == j;
      assert StepAt(u, k, j, cols);
      forall x | |x| == cols && EndsIn(x, j)
        ensures !Kills(u, x)
      {
        DotOne(u[k], x, j, cols);
      }
    }
  }

  /** The kernel determines the pivots of an echelon form. */
  lemma SteppedPivotsUnique(u: Mat, piv: seq<nat>, m: Mat, piv': seq<nat>, cols: nat)
    requires IsMat(u, |u|, cols) && Stepped(u, piv, cols, cols)
    requires IsMat(m, |m|, cols) && Stepped(m, piv', cols, cols) && SameKernel(u, m, cols)
    ensures piv == piv'
  {
    forall j: nat
      ensures j in piv <==> j in piv'
    {
      if j < cols {
        SteppedFreeColumn(u, piv, j, cols);
        SteppedFreeColumn(m, piv', j, cols);
      }
    }
    SameElements(piv, piv');
  }

  lemma ReducedIsStepped(m: Mat, piv: seq<nat>, cols: nat)
    requires IsMat(m, |m|, cols) && Reduced(m, piv, cols)
    ensures Stepped(m, piv, cols, cols)
  {
    forall k | 0 <= k < |piv|
      ensures StepAt(m, k, piv[k], cols)
    {
      assert PivotAt(m, k, piv[k], cols);
    }
  }

  /** Some echelon form with the kernel of a has r pivots. */
  ghost predicate IsRank(a: Mat, r: nat, cols: nat)
    requires IsMat(a, |a|, cols)
  {
    exists m, piv :: EchelonOf(a, m, piv, cols) && r == |piv|
  }

  ghost predicate EchelonOf(a: Mat, m: Mat, piv: seq<nat>, cols: nat)
    requires IsMat(a, |a|, cols)
  {
    IsMat(m, |m|, cols) && SameKernel(m, a, cols) && Stepped(m, piv, cols, cols)
  }

  lemma SteppedIsRank(a: Mat, m: Mat, piv: seq<nat>, cols: nat)
    requires IsMat(a, |a|, cols) && IsMat(m, |m|, cols) && SameKernel(m, a, cols) && Stepped(m, piv, cols, cols)
    ensures IsRank(a, |piv|, cols)
  {
    assert EchelonOf(a, m, piv, cols);
  }

  lemma ReducedIsRank(a: Mat, m: Mat, piv: seq<nat>, cols: nat)
    requires IsMat(a, |a|, cols) && IsMat(m, |m|, cols) && SameKernel(m, a, cols) && Reduced(m, piv, cols)
    ensures IsRank(a, |piv|, cols)
  {
    ReducedIsStepped(m, piv, cols);
    SteppedIsRank(a, m, piv, cols);
  }

  /** There is only one rank. */
  lemma RankUnique(a: Mat, r: nat, r': nat, cols: nat)
    requires IsMat(a, |a|, cols) && IsRank(a, r, cols) && IsRank(a, r', cols)
    ensures r == r'
  {
    var m, piv :| EchelonOf(a, m, piv, cols) && r == |piv|;
    var m', piv' :| EchelonOf(a, m', piv', cols) && r' == |piv'|;
    SteppedPivotsUnique(m, piv, m', piv', cols);
  }

  // ---- The rows of the original matrix ----

  /** The multipliers of the first r columns. */
  function LowerUpto(c: Mat, r: nat, n: nat): (l: Mat)
    requires IsMat(c, n, n)
    ensures HoldsMultipliers(l, c, r, n)
  {
    seq(n, i requires 0 <= i < n =>
      seq(n, k requires 0 <= k < n => if i == k then 1.0 else if k < i && k < r then c[i][k] else 0.0))
  }

  lemma DotUpToOne(a: Vec, y: Vec, i: nat, n: nat)
    requires i < n == |a| == |y| && a[i] == 1.0 && forall k :: i < k < n ==> a[k] == 0.0
    ensures Dot(a, y, n) == Dot(a, y, i) + y[i]
  {
    DotTail(a, y, i + 1, n);
  }

  /** Row i of l * u, applied to x, is entry i of u * x and a combination of the entries before it. */
  lemma LowerRow(l: Mat, u: Mat, a: Mat, x: Vec, i: nat, rows: nat, cols: nat)
    requires UnitLower(l, rows) && IsMat(u, rows, cols) && IsMat(a, rows, cols) && |x| == cols && i < rows
    requires IsProd(l, u, a, rows, rows, cols)
    ensures Dot(a[i], x, cols) == Dot(l[i], PartImage(u, x, cols), i) + Dot(u[i], x, cols)
  {
    DotAssociative(l[i], u, x, a[i], cols);
    DotUpToOne(l[i], PartImage(u, x, cols), i, rows);
  }

  /** The first r rows kill what the elimination result kills, when its later rows are zero. */
  lemma FirstRowsKill(l: Mat, u: Mat, a: Mat, x: Vec, r: nat, rows: nat, cols: nat)
    requires UnitLower(l, rows) && IsMat(u, rows, cols) && IsMat(a, rows, cols) && |x| == cols && r <= rows
    requires IsProd(l, u, a, rows, rows, cols)
    requires forall i :: r <= i < rows ==> Leading(u, i, cols, cols)
    ensures Kills(a[..r], x) <==> Kills(u, x)
  {
    var y := PartImage(u, x, cols);
    if Kills(u, x) {
      forall i | 0 <= i < r
        ensures Dot(a[i], x, cols) == 0.0
      {
        LowerRow(l, u, a, x, i, rows, cols);
        DotTail(l[i], y, 0, i);
      }
    }
    if Kills(a[..r], x) {
      forall i | 0 <= i < rows
        ensures Dot(u[i], x, cols) == 0.0
      {
        if i < r {
          FirstImages(l, u, a, x, r, i, rows, cols);
        } else {
          assert Leading(u, i, cols, cols);
          DotTail(u[i], x, 0, cols);
        }
      }
    }
  }

  lemma {:induction false} FirstImages(l: Mat, u: Mat, a: Mat, x: Vec, r: nat, i: nat, rows: nat, cols: nat)
    requires UnitLower(l, rows) && IsMat(u, rows, cols) && IsMat(a, rows, cols) && |x| == cols && i < r <= rows
    requires IsProd(l, u, a, rows, rows, cols) && Kills(a[..r], x)
    ensures forall k :: 0 <= k <= i ==> Dot(u[k], x, cols) == 0.0
    decreases i
  {
    if i > 0 {
      FirstImages(l, u, a, x, r, i - 1, rows, cols);
    }
    LowerRow(l, u, a, x, i, rows, cols);
    DotTail(l[i], PartImage(u, x, cols), 0, i);
    assert a[..r][i] == a[i];
  }

  // ---- The state of the elimination ----

  /** u is what elimination made of the rows of a in the order sigma; pivots are found for the columns
      before col. */
  ghost predicate BasisState(a: Mat, sigma: seq<nat>, c: Mat, u: Mat, piv: seq<nat>, col: nat,
                             rows: nat, cols: nat) {
    && IsMat(a, rows, cols) && IsPermutation(sigma, rows) && |piv| <= rows && col <= cols
    && Recorded(Permuted(a, sigma), c, u, |piv|, rows, cols)
    && Stepped(u, piv, col, cols)
    && SameKernel(u, a, cols)
  }

  lemma BasisInitially(a: Mat, rows: nat, cols: nat)
    requires IsMat(a, rows, cols)
    ensures BasisState(a, Ascending(rows), Identity(rows), a, [], 0, rows, cols)
  {
    assert Permuted(a, Ascending(rows)) == a;
    RecordedInitially(a, Identity(rows), rows, cols);
  }

  lemma BasisSkip(a: Mat, sigma: seq<nat>, c: Mat, u: Mat, piv: seq<nat>, col: nat, w: nat, rows: nat, cols: nat)
    requires BasisState(a, sigma, c, u, piv, col, rows, cols) && col <= w <= cols
    requires forall i, j :: |piv| <= i < rows && col <= j < w ==> u[i][j] == 0.0
    ensures BasisState(a, sigma, c, u, piv, w, rows, cols)
  {
    forall i | |piv| <= i < rows
      ensures Leading(u, i, w, cols)
    {
      assert Leading(u, i, col, cols);
    }
  }

  lemma BasisSwap(a: Mat, sigma: seq<nat>, c: Mat, u: Mat, piv: seq<nat>, col: nat, s: nat, rows: nat, cols: nat)
    requires BasisState(a, sigma, c, u, piv, col, rows, cols) && |piv| < s < rows
    ensures BasisState(a, SwapRows(sigma, s, |piv|), SwapRows(c, s, |piv|), SwapRows(u, s, |piv|), piv, col,
                       rows, cols)
  {
    PermutedSwap(a, sigma, s, |piv|);
    RecordedSwap(Permuted(a, sigma), c, u, |piv|, s, |piv|, rows, cols);
    SwapSameKernel(u, a, s, |piv|, cols);
    SteppedSwap(u, piv, col, s, cols);
  }

  lemma SteppedSwap(u: Mat, piv: seq<nat>, col: nat, s: nat, cols: nat)
    requires IsMat(u, |u|, cols) && col <= cols && Stepped(u, piv, col, cols) && |piv| < s < |u|
    ensures Stepped(SwapRows(u, s, |piv|), piv, col, cols)
  {
    var u' := SwapRows(u, s, |piv|);
    forall k | 0 <= k < |piv|
      ensures StepAt(u', k, piv[k], cols)
    {
      assert StepAt(u, k, piv[k], cols) && u'[k] == u[k];
    }
    forall i | |piv| <= i < |u|
      ensures Leading(u', i, col, cols)
    {
      assert Leading(u, if i == s then |piv| else if i == |piv| then s else i, col, cols);
    }
  }

  lemma BasisStep(a: Mat, sigma: seq<nat>, c: Mat, u: Mat, piv: seq<nat>, col: nat, rows: nat, cols: nat,
                  c': Mat, u': Mat, piv': seq<nat>, next: nat)
    requires piv' == piv + [col] && next == col + 1
    requires BasisState(a, sigma, c, u, piv, col, rows, cols) && |piv| < rows && col < cols
    requires u[|piv|][col] != 0.0 && ColumnCleared(c, u, c', u', |piv|, col, rows, rows, cols)
    requires Recorded(Permuted(a, sigma), c', u', |piv| + 1, rows, cols) && SameKernel(u', u, cols)
    ensures BasisState(a, sigma, c', u', piv', next, rows, cols)
  {
    SteppedStep(c, u, piv, col, rows, cols, c', u');
    KernelChain(u', u, a, cols);
  }

  lemma ZeroBelow(a: Mat, sigma: seq<nat>, c: Mat, u: Mat, piv: seq<nat>, col: nat, rows: nat, cols: nat)
    requires BasisState(a, sigma, c, u, piv, col, rows, cols)
    ensures forall i, j :: |piv| <= i < rows && 0 <= j < col ==> u[i][j] == 0.0
  {
    forall i, j | |piv| <= i < rows && 0 <= j < col
      ensures u[i][j] == 0.0
    {
      assert Leading(u, i, col, cols);
    }
  }

  lemma SteppedStep(c: Mat, u: Mat, piv: seq<nat>, col: nat, rows: nat, cols: nat, c': Mat, u': Mat)
    requires IsMat(u, rows, cols) && col < cols && Stepped(u, piv, col, cols) && |piv| < rows
    requires u[|piv|][col] != 0.0 && ColumnCleared(c, u, c', u', |piv|, col, rows, rows, cols)
    ensures Stepped(u', piv + [col], col + 1, cols)
  {
    var piv', next := piv + [col], col + 1;
    forall k | 0 <= k < |piv'|
      ensures piv'[k] < next && StepAt(u', k, piv'[k], cols)
    {
      assert u'[k] == u[k];
      assert k < |piv| ==> StepAt(u, k, piv[k], cols);
      assert k == |piv| ==> Leading(u, k, col, cols);
    }
    forall i | |piv'| <= i < rows
      ensures Leading(u', i, next, cols)
    {
      assert RowCleared(c, u, c', u', |piv|, col, i, rows, cols);
    }
  }

  /** When rows or columns are used up, the pivots give the rank, and the first rows in the order sigma
      have the kernel of the whole matrix. */
  lemma BasisFound(a: Mat, sigma: seq<nat>, c: Mat, u: Mat, piv: seq<nat>, col: nat, rows: nat, cols: nat)
    requires BasisState(a, sigma, c, u, piv, col, rows, cols) && (|piv| == rows || col == cols)
    ensures IsRank(a, |piv|, cols) && Stepped(u, piv, cols, cols)
    ensures SameKernel(Permuted(a, sigma)[..|piv|], a, cols)
  {
    assert Stepped(u, piv, cols, cols);
    SteppedIsRank(a, u, piv, cols);
    var b, l := Permuted(a, sigma), LowerUpto(c, |piv|, rows);
    RecordedIsProduct(b, c, u, l, |piv|, rows, cols);
    forall x | |x| == cols
      ensures Kills(b[..|piv|], x) <==> Kills(a, x)
    {
      FirstRowsKill(l, u, b, x, |piv|, rows, cols);
    }
  }
}
