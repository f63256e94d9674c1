/** Triangular factorisations of matrices of any shape: which matrices have factors that elimination
    without row exchanges finds, and which have them after exchanging rows. */
module TriFactors {
  import opened Arithmetic
  import opened LinAlg
  import opened Echelons
  import opened Factors
  import opened Elimination
  import opened Bases

  /** The first column behind the pivots. */
  function AfterPivots(piv: seq<nat>): nat {
    if piv == [] then 0 else piv[|piv| - 1] + 1
  }

  /** There is a pivot in every row, or one in the last column. */
  ghost predicate Exhausts(piv: seq<nat>, rows: nat, cols: nat) {
    |piv| == rows || AfterPivots(piv) == cols
  }

  /** a = l * u with l unit lower triangular and u in echelon form with the pivots piv. */
  ghost predicate EchelonFactors(a: Mat, l: Mat, u: Mat, piv: seq<nat>, rows: nat, cols: nat) {
    && IsMat(a, rows, cols) && UnitLower(l, rows) && IsMat(u, rows, cols)
    && Stepped(u, piv, cols, cols)
    && IsProd(l, u, a, rows, rows, cols)
  }

  /** a has such factors whose pivots leave no row or no column over. */
  ghost predicate Factorable(a: Mat, rows: nat, cols: nat) {
    exists l, u, piv :: EchelonFactors(a, l, u, piv, rows, cols) && Exhausts(piv, rows, cols)
  }

  /** The first done columns of k and l are the same. */
  ghost predicate SameColumns(k: Mat, l: Mat, done: nat, rows: nat) {
    && IsMat(k, rows, rows) && IsMat(l, rows, rows) && done <= rows
    && forall i, j :: 0 <= i < rows && 0 <= j < done ==> k[i][j] == l[i][j]
  }

  /** From column done on, l is the identity. */
  ghost predicate UnitFrom(l: Mat, done: nat, rows: nat) {
    IsMat(l, rows, rows) && forall i, j :: 0 <= i < rows && done <= j < rows ==> l[i][j] == if i == j then 1.0 else 0.0
  }

  /** l and u are what elimination yields with the pivots piv. */
  ghost predicate LuFactors(a: Mat, l: Mat, u: Mat, piv: seq<nat>, rows: nat, cols: nat) {
    EchelonFactors(a, l, u, piv, rows, cols) && Exhausts(piv, rows, cols) && |piv| <= rows && UnitFrom(l, |piv|, rows)
  }

  /** Below a pivot that is not 1, no multiplier is larger than 1; where units are preferred, none stands for
      an entry 1. */
  ghost predicate SmallMultipliers(c: Mat, u: Mat, piv: seq<nat>, unit: bool, rows: nat, cols: nat) {
    && IsMat(c, rows, rows) && IsMat(u, rows, cols) && |piv| <= rows
    && (forall k :: 0 <= k < |piv| ==> piv[k] < cols)
    && forall k, i :: 0 <= k < |piv| && k < i < rows ==>
                        u[k][piv[k]] == 1.0 || SmallMultiplier(c[i][k], u[k][piv[k]], unit)
  }

  ghost predicate SmallMultiplier(c: real, p: real, unit: bool) {
    AbsValue(c) <= 1.0 && (unit ==> c * p != 1.0)
  }

  lemma PivotsBelow(piv: seq<nat>, cols: nat)
    requires Increasing(piv) && forall k :: 0 <= k < |piv| ==> piv[k] < cols
    ensures AfterPivots(piv) <= cols
    ensures cols > 0 ==> (AfterPivots(piv) == cols <==> cols - 1 in piv)
  {
    if piv != [] && cols - 1 in piv {
      var k :| 0 <= k < |piv| && piv[k] == cols - 1;
      assert piv[k] <= piv[|piv| - 1];
    }
  }

  /** Pivots can not lie left of the diagonal. */
  lemma {:induction false} PivotsAscend(piv: seq<nat>, k: nat)
    requires Increasing(piv) && k < |piv|
    ensures k <= piv[k]
  {
    if k > 0 {
      PivotsAscend(piv, k - 1);
    }
  }

  lemma SteppedUpper(u: Mat, piv: seq<nat>, rows: nat, cols: nat)
    requires IsMat(u, rows, cols) && Stepped(u, piv, cols, cols)
    ensures Upper(u, rows, cols)
  {
    forall i, j | 0 <= j < i < rows && j < cols
      ensures u[i][j] == 0.0
    {
      if i < |piv| {
        PivotsAscend(piv, i);
        assert StepAt(u, i, piv[i], cols);
      } else {
        assert Leading(u, i, cols, cols);
      }
    }
  }

  // ---- Uniqueness ----

  /** The first done rows of u and columns of multipliers are those of the factors. */
  ghost predicate Agrees(c: Mat, u: Mat, l: Mat, v: Mat, done: nat, rows: nat, cols: nat)
    requires IsMat(c, rows, rows) && IsMat(u, rows, cols) && IsMat(l, rows, rows) && IsMat(v, rows, cols)
  {
    && (forall k :: 0 <= k < done && k < rows ==> u[k] == v[k])
    && (forall i, k :: 0 <= k < done && k < i < rows ==> c[i][k] == l[i][k])
  }

  lemma FactorEntry(a: Mat, l: Mat, v: Mat, piv: seq<nat>, i: nat, j: nat, rows: nat, cols: nat)
    requires EchelonFactors(a, l, v, piv, rows, cols) && i < rows && j < cols
    ensures a[i][j] == v[i][j] + Dot(l[i], Col(v, j), i)
  {
    DotUpToOne(l[i], Col(v, j), i, rows);
  }

  lemma NextEntry(a: Mat, c: Mat, u: Mat, l: Mat, v: Mat, piv: seq<nat>, done: nat, i: nat, j: nat,
                  rows: nat, cols: nat)
    requires Recorded(a, c, u, done, rows, cols) && EchelonFactors(a, l, v, piv, rows, cols)
    requires done <= i < rows && j < cols && Agrees(c, u, l, v, done, rows, cols)
    ensures u[i][j] + Dot(l[i], Col(v, j), done) == v[i][j] + Dot(l[i], Col(v, j), i)
  {
    assert RowRecorded(a, c, u, i, Min(i, done), rows, cols);
    FactorEntry(a, l, v, piv, i, j, rows, cols);
    DotExt(c[i], l[i], Col(u, j), Col(v, j), done);
  }

  /** Before pivot k of an echelon form the rows from k on are zero, and in its column those behind k. */
  lemma SteppedZeros(v: Mat, piv: seq<nat>, k: nat, i: nat, j: nat, cols: nat)
    requires IsMat(v, |v|, cols) && Stepped(v, piv, cols, cols) && k <= i < |v| && j < cols
    requires k < |piv| ==> j < piv[k] || (j == piv[k] && k < i)
    requires k <= |piv|
    ensures v[i][j] == 0.0
  {
    if i < |piv| {
      assert StepAt(v, i, piv[i], cols);
    } else {
      assert Leading(v, i, cols, cols);
    }
  }

  /** What elimination has left agrees with the factors where the next pivot is to be found. */
  lemma NextRowAgrees(a: Mat, c: Mat, u: Mat, l: Mat, v: Mat, piv: seq<nat>, done: nat, rows: nat, cols: nat)
    requires Recorded(a, c, u, done, rows, cols) && EchelonFactors(a, l, v, piv, rows, cols)
    requires done < rows && done <= |piv| && Agrees(c, u, l, v, done, rows, cols)
    ensures u[done] == v[done]
    ensures forall i, j :: done <= i < rows && 0 <= j < (if done < |piv| then piv[done] else cols) ==> u[i][j] == 0.0
    ensures done < |piv| ==> piv[done] < cols && v[done][piv[done]] != 0.0
    ensures done < |piv| ==>
              forall i :: done < i < rows ==> u[i][piv[done]] == l[i][done] * v[done][piv[done]]
  {
    forall j | 0 <= j < cols
      ensures u[done][j] == v[done][j]
    {
      NextEntry(a, c, u, l, v, piv, done, done, j, rows, cols);
    }
    forall i, j | done <= i < rows && 0 <= j < (if done < |piv| then piv[done] else cols)
      ensures u[i][j] == 0.0
    {
      ZeroEntry(a, c, u, l, v, piv, done, i, j, rows, cols);
    }
    if done < |piv| {
      assert StepAt(v, done, piv[done], cols);
      forall i | done < i < rows
        ensures u[i][piv[done]] == l[i][done] * v[done][piv[done]]
      {
        PivotEntry(a, c, u, l, v, piv, done, i, rows, cols);
      }
    }
  }

  lemma ZeroEntry(a: Mat, c: Mat, u: Mat, l: Mat, v: Mat, piv: seq<nat>, done: nat, i: nat, j: nat,
                  rows: nat, cols: nat)
    requires Recorded(a, c, u, done, rows, cols) && EchelonFactors(a, l, v, piv, rows, cols)
    requires done <= |piv| && Agrees(c, u, l, v, done, rows, cols)
    requires done <= i < rows && j < cols && (done < |piv| ==> j < piv[done])
    ensures u[i][j] == 0.0
  {
    NextEntry(a, c, u, l, v, piv, done, i, j, rows, cols);
    SteppedZeros(v, piv, done, i, j, cols);
    forall k | done <= k < i
      ensures Col(v, j)[k] == 0.0
    {
      SteppedZeros(v, piv, done, k, j, cols);
    }
    DotTail(l[i], Col(v, j), done, i);
  }

  lemma PivotEntry(a: Mat, c: Mat, u: Mat, l: Mat, v: Mat, piv: seq<nat>, done: nat, i: nat,
                   rows: nat, cols: nat)
    requires Recorded(a, c, u, done, rows, cols) && EchelonFactors(a, l, v, piv, rows, cols)
    requires done < |piv| && piv[done] < cols && Agrees(c, u, l, v, done, rows, cols) && done < i < rows
    ensures u[i][piv[done]] == l[i][done] * v[done][piv[done]]
  {
    var j := piv[done];
    NextEntry(a, c, u, l, v, piv, done, i, j, rows, cols);
    SteppedZeros(v, piv, done, i, j, cols);
    forall k | done < k < i
      ensures Col(v, j)[k] == 0.0
    {
      SteppedZeros(v, piv, done, k, j, cols);
    }
    DotTail(l[i], Col(v, j), done + 1, i);
  }

  // ---- The state without row exchanges ----

  /** The pivots found are the first ones of all factors in echelon form there are. */
  ghost predicate Follows(a: Mat, c: Mat, u: Mat, piv: seq<nat>, rows: nat, cols: nat)
    requires IsMat(c, rows, rows) && IsMat(u, rows, cols)
  {
    forall l, v, piv' :: EchelonFactors(a, l, v, piv', rows, cols) ==>
                           piv <= piv' && Agrees(c, u, l, v, |piv|, rows, cols)
  }

  ghost predicate LuState(a: Mat, c: Mat, l: Mat, u: Mat, piv: seq<nat>, rows: nat, cols: nat) {
    && |piv| <= rows && AfterPivots(piv) <= cols
    && Recorded(a, c, u, |piv|, rows, cols) && LowerColumns(l, c, |piv|, rows)
    && Stepped(u, piv, AfterPivots(piv), cols)
    && Follows(a, c, u, piv, rows, cols)
  }

  lemma LuInitially(a: Mat, rows: nat, cols: nat)
    requires IsMat(a, rows, cols)
    ensures LuState(a, Identity(rows), Identity(rows), a, [], rows, cols)
  {
    RecordedInitially(a, Identity(rows), rows, cols);
  }

  /** Rows and columns before w from row |piv| on are zero. */
  lemma ZeroBefore(u: Mat, piv: seq<nat>, w: nat, cols: nat)
    requires IsMat(u, |u|, cols) && AfterPivots(piv) <= w <= cols && Stepped(u, piv, AfterPivots(piv), cols)
    requires forall i, j :: |piv| <= i < |u| && AfterPivots(piv) <= j < w ==> u[i][j] == 0.0
    ensures Stepped(u, piv, w, cols)
    ensures forall i, j :: |piv| <= i < |u| && 0 <= j < w ==> u[i][j] == 0.0
  {
    forall i | |piv| <= i < |u|
      ensures Leading(u, i, w, cols)
    {
      assert Leading(u, i, AfterPivots(piv), cols);
    }
    forall i, j | |piv| <= i < |u| && 0 <= j < w
      ensures u[i][j] == 0.0
    {
      assert Leading(u, i, w, cols);
    }
  }

  /** A matrix with another factorisation has its next pivot where the elimination finds it. */
  lemma NextPivot(a: Mat, c: Mat, u: Mat, piv: seq<nat>, w: nat, l: Mat, v: Mat, piv': seq<nat>, rows: nat, cols: nat)
    requires Recorded(a, c, u, |piv|, rows, cols) && EchelonFactors(a, l, v, piv', rows, cols)
    requires piv <= piv' && Agrees(c, u, l, v, |piv|, rows, cols) && |piv| < rows && w < cols
    requires forall i, j :: |piv| <= i < rows && 0 <= j < w ==> u[i][j] == 0.0
    requires exists i :: |piv| <= i < rows && u[i][w] != 0.0
    ensures |piv| < |piv'| && piv'[|piv|] == w && u[|piv|][w] != 0.0
  {
    NextRowAgrees(a, c, u, l, v, piv', |piv|, rows, cols);
  }

  /** If the first pivot is not in this row, there are no factors whose pivots leave nothing over. */
  lemma LuStuck(a: Mat, c: Mat, l: Mat, u: Mat, piv: seq<nat>, w: nat, swapRow: int, rows: nat, cols: nat)
    requires LuState(a, c, l, u, piv, rows, cols) && |piv| < rows && AfterPivots(piv) < cols
    requires AfterPivots(piv) <= w <= cols && swapRow != |piv|
    requires forall i, j :: |piv| <= i < rows && AfterPivots(piv) <= j < w ==> u[i][j] == 0.0
    requires swapRow == -1 ==> w == cols
    requires swapRow != -1 ==> w < cols && |piv| <= swapRow < rows && u[swapRow][w] != 0.0 && u[|piv|][w] == 0.0
    ensures !Factorable(a, rows, cols)
  {
    ZeroBefore(u, piv, w, cols);
    forall k, v, piv' | EchelonFactors(a, k, v, piv', rows, cols)
      ensures !Exhausts(piv', rows, cols)
    {
      if swapRow != -1 {
        NextPivot(a, c, u, piv, w, k, v, piv', rows, cols);
      } else {
        NextRowAgrees(a, c, u, k, v, piv', |piv|, rows, cols);
        assert |piv| == |piv'|;
      }
    }
  }

  /** The factorisation after one more column. */
  lemma LuStep(a: Mat, c: Mat, l: Mat, u: Mat, piv: seq<nat>, w: nat, rows: nat, cols: nat,
               c': Mat, l': Mat, u': Mat, piv': seq<nat>)
    requires piv' == piv + [w] && LuState(a, c, l, u, piv, rows, cols) && |piv| < rows
    requires AfterPivots(piv) <= w < cols && u[|piv|][w] != 0.0
    requires forall i, j :: |piv| <= i < rows && AfterPivots(piv) <= j < w ==> u[i][j] == 0.0
    requires ColumnCleared(c, u, c', u', |piv|, w, rows, rows, cols)
    requires Recorded(a, c', u', |piv| + 1, rows, cols)
    requires IsMat(l', rows, rows)
    requires forall i, k :: 0 <= i < rows && 0 <= k < rows ==>
               l'[i][k] == if k == |piv| && i >= |piv| then u[i][w] else l[i][k]
    ensures LuState(a, c', l', u', piv', rows, cols)
  {
    ZeroBefore(u, piv, w, cols);
    LowerStep(c, l, u, |piv|, w, rows, cols, c', l', u');
    SteppedStep(c, u, piv, w, rows, cols, c', u');
    forall k, v, full | EchelonFactors(a, k, v, full, rows, cols)
      ensures piv' <= full && Agrees(c', u', k, v, |piv'|, rows, cols)
    {
      FollowsStep(a, c, u, piv, w, rows, cols, c', u', k, v, full);
    }
  }

  lemma FollowsStep(a: Mat, c: Mat, u: Mat, piv: seq<nat>, w: nat, rows: nat, cols: nat, c': Mat, u': Mat,
                    l: Mat, v: Mat, full: seq<nat>)
    requires Recorded(a, c, u, |piv|, rows, cols) && EchelonFactors(a, l, v, full, rows, cols)
    requires piv <= full && Agrees(c, u, l, v, |piv|, rows, cols) && |piv| < rows && w < cols
    requires forall i, j :: |piv| <= i < rows && 0 <= j < w ==> u[i][j] == 0.0
    requires u[|piv|][w] != 0.0 && ColumnCleared(c, u, c', u', |piv|, w, rows, rows, cols)
    ensures piv + [w] <= full && Agrees(c', u', l, v, |piv| + 1, rows, cols)
  {
    var row, done := |piv|, |piv| + 1;
    NextPivot(a, c, u, piv, w, l, v, full, rows, cols);
    NextRowAgrees(a, c, u, l, v, full, row, rows, cols);
    assert full[..done] == piv + [w];
    forall i, k | 0 <= k < done && k < i < rows
      ensures c'[i][k] == l[i][k]
    {
      if row < i {
        assert RowCleared(c, u, c', u', row, w, i, rows, cols);
        if k == row {
          Cancel(c'[i][k], l[i][k], v[row][w]);
        }
      }
    }
  }

  lemma Cancel(s: real, t: real, v: real)
    requires v != 0.0 && s * v == t * v
    ensures s == t
  {
    assert s == s * v / v && t == t * v / v;
  }

  /** The factors when no row or no column is left. */
  lemma LuDone(a: Mat, c: Mat, l: Mat, u: Mat, piv: seq<nat>, rows: nat, cols: nat, l': Mat)
    requires LuState(a, c, l, u, piv, rows, cols) && Exhausts(piv, rows, cols)
    requires HoldsMultipliers(l', c, |piv|, rows)
    ensures EchelonFactors(a, l', u, piv, rows, cols) && Upper(u, rows, cols) && Factorable(a, rows, cols)
    ensures UnitFrom(l', |piv|, rows)
    ensures forall k, v, piv' :: EchelonFactors(a, k, v, piv', rows, cols) ==>
              piv' == piv && v == u && SameColumns(k, l', |piv|, rows)
  {
    assert Stepped(u, piv, cols, cols);
    RecordedIsProduct(a, c, u, l', |piv|, rows, cols);
    SteppedUpper(u, piv, rows, cols);
    assert EchelonFactors(a, l', u, piv, rows, cols);
    forall k, v, piv' | EchelonFactors(a, k, v, piv', rows, cols)
      ensures piv' == piv && v == u && SameColumns(k, l', |piv|, rows)
    {
      assert piv <= piv' && Agrees(c, u, k, v, |piv|, rows, cols);
      NoMorePivots(piv, piv', rows, cols);
      SameFactors(c, u, k, v, piv, rows, cols, l');
    }
  }

  lemma RoomBehind(piv: seq<nat>, k: nat, cols: nat)
    requires Increasing(piv) && forall i :: 0 <= i < |piv| ==> piv[i] < cols
    ensures piv != [] ==> cols > 0
    ensures 0 < k < |piv| ==> piv[k - 1] + 1 < cols
  {
    if piv != [] {
      assert piv[0] < cols;
    }
    if 0 < k < |piv| {
      assert piv[k - 1] < piv[k];
    }
  }

  lemma NoMorePivots(piv: seq<nat>, piv': seq<nat>, rows: nat, cols: nat)
    requires piv <= piv' && Increasing(piv') && |piv'| <= rows && Exhausts(piv, rows, cols)
    requires forall k :: 0 <= k < |piv'| ==> piv'[k] < cols
    ensures piv == piv'
  {
    RoomBehind(piv', |piv|, cols);
    assert piv != [] ==> piv'[|piv| - 1] == piv[|piv| - 1];
    assert |piv| == |piv'|;
    assert piv'[..|piv'|] == piv';
  }

  lemma SameFactors(c: Mat, u: Mat, k: Mat, v: Mat, piv: seq<nat>, rows: nat, cols: nat, l': Mat)
    requires IsMat(c, rows, rows) && IsMat(u, rows, cols) && UnitLower(k, rows) && IsMat(v, rows, cols)
    requires |piv| <= rows && Agrees(c, u, k, v, |piv|, rows, cols) && HoldsMultipliers(l', c, |piv|, rows)
    requires Stepped(u, piv, cols, cols) && Stepped(v, piv, cols, cols)
    ensures v == u && SameColumns(k, l', |piv|, rows)
  {
    forall i | 0 <= i < rows
      ensures v[i] == u[i]
    {
      if i >= |piv| {
        assert Leading(u, i, cols, cols) && Leading(v, i, cols, cols);
      }
    }
  }

  /** With a column for every row, the same columns are the same matrix. */
  lemma AllColumns(k: Mat, l: Mat, rows: nat)
    requires SameColumns(k, l, rows, rows)
    ensures k == l
  {
    forall i | 0 <= i < rows
      ensures k[i] == l[i]
    {
    }
  }

  /** a = l * u with l unit lower triangular, u upper triangular without a zero on its diagonal. */
  ghost predicate Factorisation(a: Mat, l: Mat, u: Mat, n: nat) {
    && IsMat(a, n, n) && UnitLower(l, n) && Upper(u, n, n) && IsProd(l, u, a, n, n, n)
    && forall i :: 0 <= i < n ==> u[i][i] != 0.0
  }

  /** For a square matrix that is the case of a pivot in every row. */
  lemma FactorisationIsEchelon(a: Mat, l: Mat, u: Mat, n: nat)
    requires Factorisation(a, l, u, n)
    ensures EchelonFactors(a, l, u, Ascending(n), n, n) && Exhausts(Ascending(n), n, n)
  {
    forall k | 0 <= k < n
      ensures StepAt(u, k, k, n)
    {
    }
  }

  // ---- The condition for factors after row exchanges ----

  /** There is a pivot in every row, or no solution of a x = 0 ends in the last column. */
  ghost predicate ExchangesSucceed(a: Mat, rows: nat, cols: nat)
    requires IsMat(a, rows, cols) && cols > 0
  {
    IsRank(a, rows, cols) || NoneEnds(a, cols - 1, cols)
  }

  /** No solution of a x = 0 ends in column j. */
  ghost predicate NoneEnds(a: Mat, j: nat, cols: nat)
    requires IsMat(a, |a|, cols)
  {
    forall x {:trigger Kills(a, x)} :: |x| == cols && Kills(a, x) ==> !EndsIn(x, j)
  }

  /** It takes a pivot to prevent it. */
  lemma PivotIffNoneEnds(a: Mat, u: Mat, piv: seq<nat>, j: nat, cols: nat)
    requires IsMat(a, |a|, cols) && IsMat(u, |u|, cols) && j < cols
    requires Stepped(u, piv, cols, cols) && SameKernel(u, a, cols)
    ensures j in piv <==> NoneEnds(a, j, cols)
  {
    SteppedFreeColumn(u, piv, j, cols);
    if j !in piv {
      var x :| |x| == cols && Kills(u, x) && EndsIn(x, j);
      assert Kills(a, x);
    }
  }

  lemma FullIffRank(a: Mat, u: Mat, piv: seq<nat>, rows: nat, cols: nat)
    requires IsMat(a, rows, cols) && IsMat(u, rows, cols)
    requires Stepped(u, piv, cols, cols) && SameKernel(u, a, cols)
    ensures |piv| == rows <==> IsRank(a, rows, cols)
  {
    SteppedIsRank(a, u, piv, cols);
    if IsRank(a, rows, cols) {
      RankUnique(a, |piv|, rows, cols);
    }
  }

  lemma ExhaustsIff(a: Mat, u: Mat, piv: seq<nat>, rows: nat, cols: nat)
    requires IsMat(a, rows, cols) && IsMat(u, rows, cols) && cols > 0
    requires Stepped(u, piv, cols, cols) && SameKernel(u, a, cols)
    ensures Exhausts(piv, rows, cols) <==> ExchangesSucceed(a, rows, cols)
  {
    FullIffRank(a, u, piv, rows, cols);
    PivotsBelow(piv, cols);
    PivotIffNoneEnds(a, u, piv, cols - 1, cols);
  }

  /** A nonsingular matrix has no solution that ends anywhere. */
  lemma NonsingularSucceeds(a: Mat, rows: nat, cols: nat)
    requires IsMat(a, rows, cols) && cols > 0 && Nonsingular(a, cols)
    ensures ExchangesSucceed(a, rows, cols)
  {
    forall x | |x| == cols && Kills(a, x)
      ensures !EndsIn(x, cols - 1)
    {
      assert x == Zero(cols);
    }
  }

  /** So does the singular matrix [[0, 1], [0, 0]]. */
  lemma SingularMaySucceed()
    ensures var a: Mat := [[0.0, 1.0], [0.0, 0.0]];
      IsMat(a, 2, 2) && !Nonsingular(a, 2) && ExchangesSucceed(a, 2, 2)
  {
    var a: Mat := [[0.0, 1.0], [0.0, 0.0]];
    forall x: Vec | |x| == 2
      ensures Kills(a, x) <==> x[1] == 0.0
    {
      assert Dot(a[0], x, 2) == Dot(a[0], x, 1) + x[1];
      assert Dot(a[1], x, 2) == Dot(a[1], x, 1);
      assert Dot(a[0], x, 1) == Dot(a[1], x, 1) == 0.0;
    }
    var y: Vec := [1.0, 0.0];
    assert Kills(a, y) && y[0] != Zero(2)[0];
  }

  /** p permutes; u is the echelon form of the permuted matrix found so far. */
  ghost predicate PluState(a: Mat, sigma: seq<nat>, p: Mat, c: Mat, u: Mat, piv: seq<nat>, rows: nat, cols: nat) {
    && BasisState(a, sigma, c, u, piv, AfterPivots(piv), rows, cols)
    && SmallMultipliers(c, u, piv, false, rows, cols)
    && p == Permuted(Identity(rows), sigma)
  }

  lemma PluNext(a: Mat, sigma: seq<nat>, p: Mat, c: Mat, u: Mat, piv: seq<nat>, col: nat, rows: nat, cols: nat)
    requires BasisState(a, sigma, c, u, piv, col, rows, cols) && SmallMultipliers(c, u, piv, false, rows, cols)
    requires p == Permuted(Identity(rows), sigma) && col == AfterPivots(piv)
    ensures PluState(a, sigma, p, c, u, piv, rows, cols)
  {
  }

  /** What elimination with the chosen rows and pivots recorded: units are preferred, otherwise large pivots. */
  ghost predicate RowsChosen(a: Mat, sigma: seq<nat>, c: Mat, u: Mat, piv: seq<nat>, rows: nat, cols: nat) {
    && IsMat(a, rows, cols) && IsPermutation(sigma, rows) && |piv| <= rows
    && Recorded(Permuted(a, sigma), c, u, |piv|, rows, cols) && Stepped(u, piv, cols, cols)
    && SmallMultipliers(c, u, piv, true, rows, cols)
  }

  lemma SmallSwap(c: Mat, u: Mat, piv: seq<nat>, unit: bool, s: nat, rows: nat, cols: nat)
    requires SmallMultipliers(c, u, piv, unit, rows, cols) && |piv| < s < rows
    ensures SmallMultipliers(SwapRows(c, s, |piv|), SwapRows(u, s, |piv|), piv, unit, rows, cols)
  {
    var c' := SwapRows(c, s, |piv|);
    forall k, i | 0 <= k < |piv| && k < i < rows
      ensures u[k][piv[k]] == 1.0 || SmallMultiplier(c'[i][k], u[k][piv[k]], unit)
    {
      assert c'[i] == c[if i == s then |piv| else if i == |piv| then s else i];
    }
  }

  /** The entry at (row, col) is 1, or as large as any below it; none of these is 1 where units are preferred. */
  ghost predicate LargePivot(u: Mat, row: nat, col: nat, unit: bool)
    requires row < |u| && forall i :: 0 <= i < |u| ==> col < |u[i]|
  {
    u[row][col] == 1.0 ||
    forall i :: row < i < |u| ==> AbsValue(u[i][col]) <= AbsValue(u[row][col]) && (unit ==> u[i][col] != 1.0)
  }

  /** Such a pivot leaves small multipliers. */
  lemma SmallStep(c: Mat, u: Mat, piv: seq<nat>, unit: bool, col: nat, rows: nat, cols: nat,
                  c': Mat, u': Mat, piv': seq<nat>)
    requires SmallMultipliers(c, u, piv, unit, rows, cols) && |piv| < rows && col < cols && piv' == piv + [col]
    requires ColumnCleared(c, u, c', u', |piv|, col, rows, rows, cols) && u[|piv|][col] != 0.0
    requires LargePivot(u, |piv|, col, unit)
    ensures SmallMultipliers(c', u', piv', unit, rows, cols)
  {
    forall k, i | 0 <= k < |piv'| && k < i < rows
      ensures u'[k][piv'[k]] == 1.0 || SmallMultiplier(c'[i][k], u'[k][piv'[k]], unit)
    {
      if |piv| < i {
        assert RowCleared(c, u, c', u', |piv|, col, i, rows, cols);
        if k == |piv| && u[k][col] != 1.0 {
          AtMostOne(c'[i][k], u[k][col], u[i][col]);
        }
      }
    }
  }

  lemma AtMostOne(c: real, d: real, x: real)
    requires c * d == x && d != 0.0 && AbsValue(x) <= AbsValue(d)
    ensures AbsValue(c) <= 1.0
  {
    var p, q := AbsValue(c), AbsValue(d);
    assert p * q == AbsValue(x);
    LargerProduct(p, q);
  }

  lemma LargerProduct(p: real, q: real)
    requires q > 0.0
    ensures p > 1.0 ==> p * q > q
  {
    if p > 1.0 {
      assert (p - 1.0) * q > 0.0;
    }
  }

  lemma PluInitially(a: Mat, rows: nat, cols: nat)
    requires IsMat(a, rows, cols)
    ensures PluState(a, Ascending(rows), Identity(rows), Identity(rows), a, [], rows, cols)
  {
    BasisInitially(a, rows, cols);
    assert Permuted(Identity(rows), Ascending(rows)) == Identity(rows);
  }

  /** What the row exchanges come to: p permutes, and if they succeeded the permuted matrix is factorable. */
  ghost predicate Exchanged(a: Mat, sigma: seq<nat>, p: Mat, succ: bool, rows: nat, cols: nat) {
    && IsMat(a, rows, cols) && cols > 0 && IsPermutation(sigma, rows) && p == Permuted(Identity(rows), sigma)
    && (succ <==> ExchangesSucceed(a, rows, cols))
    && (succ ==> WellFactorable(Permuted(a, sigma), rows, cols))
  }

  /** Factorable with small multipliers. */
  ghost predicate WellFactorable(a: Mat, rows: nat, cols: nat) {
    exists l, u, piv :: EchelonFactors(a, l, u, piv, rows, cols) && Exhausts(piv, rows, cols)
                        && SmallMultipliers(l, u, piv, false, rows, cols)
  }

  /** Since there is only one echelon form and only one set of multipliers, those found are small. */
  lemma FoundAreSmall(a: Mat, l: Mat, u: Mat, piv: seq<nat>, rows: nat, cols: nat)
    requires WellFactorable(a, rows, cols) && IsMat(l, rows, rows) && IsMat(u, rows, cols)
    requires forall k, v, piv' :: EchelonFactors(a, k, v, piv', rows, cols) ==>
                                    piv' == piv && v == u && SameColumns(k, l, |piv|, rows)
    ensures SmallMultipliers(l, u, piv, false, rows, cols)
  {
    var k, v, piv' :| EchelonFactors(a, k, v, piv', rows, cols) && Exhausts(piv', rows, cols)
                      && SmallMultipliers(k, v, piv', false, rows, cols);
    assert SameColumns(k, l, |piv|, rows);
  }

  lemma PluFactors(a: Mat, sigma: seq<nat>, p: Mat, c: Mat, u: Mat, piv: seq<nat>, rows: nat, cols: nat)
    requires PluState(a, sigma, p, c, u, piv, rows, cols) && cols > 0 && Exhausts(piv, rows, cols)
    ensures Exchanged(a, sigma, p, true, rows, cols)
  {
    assert Stepped(u, piv, cols, cols);
    ExhaustsIff(a, u, piv, rows, cols);
    var l := LowerUpto(c, |piv|, rows);
    RecordedIsProduct(Permuted(a, sigma), c, u, l, |piv|, rows, cols);
    assert EchelonFactors(Permuted(a, sigma), l, u, piv, rows, cols);
    assert SmallMultipliers(l, u, piv, false, rows, cols);
  }

  /** All rows from |piv| on are zero, and neither rows nor columns are used up. */
  lemma PluFails(a: Mat, sigma: seq<nat>, p: Mat, c: Mat, u: Mat, piv: seq<nat>, rows: nat, cols: nat)
    requires PluState(a, sigma, p, c, u, piv, rows, cols) && |piv| < rows && AfterPivots(piv) < cols
    requires forall i, j :: |piv| <= i < rows && AfterPivots(piv) <= j < cols ==> u[i][j] == 0.0
    ensures Exchanged(a, sigma, p, false, rows, cols)
  {
    ZeroBefore(u, piv, cols, cols);
    ExhaustsIff(a, u, piv, rows, cols);
  }
}
