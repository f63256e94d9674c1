/** Reduced row echelon forms: what they say about the kernel of a matrix. */
module Echelons {
  import opened LinAlg

  /** Rows 0..|piv| have their pivot 1 in the columns piv, which are otherwise 0. */
  ghost predicate Pivots(m: Mat, piv: seq<nat>, cols: nat)
    requires IsMat(m, |m|, cols)
  {
    |piv| <= |m| && forall k :: 0 <= k < |piv| ==> PivotAt(m, k, piv[k], cols)
  }

  ghost predicate PivotAt(m: Mat, k: nat, c: nat, cols: nat)
    requires IsMat(m, |m|, cols)
  {
    c < cols && forall i :: 0 <= i < |m| ==> m[i][c] == if i == k then 1.0 else 0.0
  }

  /** The vector that belongs to a column j without a pivot. */
  ghost function FreeVector(m: Mat, piv: seq<nat>, j: nat, cols: nat): (x: Vec)
    requires IsMat(m, |m|, cols) && Pivots(m, piv, cols) && j < cols
    ensures |x| == cols
  {
    seq(cols, c requires 0 <= c < cols =>
      if c == j then 1.0
      else if c in piv then -m[IndexOf(piv, c)][j] else 0.0)
  }

  ghost function IndexOf(piv: seq<nat>, c: nat): (k: nat)
    requires c in piv
    ensures k < |piv| && piv[k] == c
  {
    var k :| 0 <= k < |piv| && piv[k] == c; k
  }

  /** A column without pivot, zero from row |piv| on, gives a non-zero vector of the kernel. */
  lemma FreeVectorKilled(m: Mat, piv: seq<nat>, j: nat, cols: nat)
    requires IsMat(m, |m|, cols) && Pivots(m, piv, cols) && j < cols && j !in piv
    requires forall i :: |piv| <= i < |m| ==> m[i][j] == 0.0
    ensures var x := FreeVector(m, piv, j, cols); Kills(m, x) && x[j] == 1.0
  {
    var x := FreeVector(m, piv, j, cols);
    forall i | 0 <= i < |m|
      ensures Dot(m[i], x, cols) == 0.0
    {
      FreeVectorRow(m, piv, j, cols, i);
    }
  }

  lemma FreeVectorRow(m: Mat, piv: seq<nat>, j: nat, cols: nat, i: nat)
    requires IsMat(m, |m|, cols) && Pivots(m, piv, cols) && j < cols && j !in piv && i < |m|
    requires |piv| <= i ==> m[i][j] == 0.0
    ensures Dot(m[i], FreeVector(m, piv, j, cols), cols) == 0.0
  {
    var x := FreeVector(m, piv, j, cols);
    forall c | 0 <= c < cols && c != j && (i < |piv| ==> c != piv[i])
      ensures m[i][c] == 0.0 || x[c] == 0.0
    {
      if c in piv {
        assert PivotAt(m, IndexOf(piv, c), piv[IndexOf(piv, c)], cols);
      }
    }
    if i < |piv| {
      assert PivotAt(m, i, piv[i], cols);
      forall c | 0 <= c < cols && c != j
        ensures m[i][c] == 0.0 || x[j := 0.0][piv[i] := 0.0][c] == 0.0
      {
      }
      var z := x[j := 0.0][piv[i] := 0.0];
      DotTail(m[i], z, 0, cols);
      DotUpdate(m[i], z, j, 1.0, cols);
      DotUpdate(m[i], z[j := 1.0], piv[i], x[piv[i]], cols);
      assert z[j := 1.0][piv[i] := x[piv[i]]] == x;
      assert PivotAt(m, IndexOf(piv, piv[i]), piv[i], cols);
      assert IndexOf(piv, piv[i]) == i;
    } else {
      DotTail(m[i], x, 0, cols);
    }
  }

  // ---- Reduced row echelon form ----

  ghost predicate Increasing(piv: seq<nat>) {
    forall a, b :: 0 <= a < b < |piv| ==> piv[a] < piv[b]
  }

  /** Row k starts with its pivot. */
  ghost predicate Leading(m: Mat, k: nat, c: nat, cols: nat)
    requires IsMat(m, |m|, cols) && k < |m| && c <= cols
  {
    forall j :: 0 <= j < c ==> m[k][j] == 0.0
  }

  /** The pivots found so far, for the columns before upto. */
  ghost predicate PartlyReduced(m: Mat, piv: seq<nat>, upto: nat, cols: nat)
    requires IsMat(m, |m|, cols) && upto <= cols
  {
    && Increasing(piv)
    && Pivots(m, piv, cols)
    && (forall k :: 0 <= k < |piv| ==> piv[k] < upto && Leading(m, k, piv[k], cols))
    && (forall i :: |piv| <= i < |m| ==> Leading(m, i, upto, cols))
  }

  /** Reduced row echelon form: |piv| pivots, all later rows zero. */
  ghost predicate Reduced(m: Mat, piv: seq<nat>, cols: nat)
    requires IsMat(m, |m|, cols)
  {
    PartlyReduced(m, piv, cols, cols)
  }

  // ---- Steps of the reduction ----

  lemma NothingReduced(m: Mat, cols: nat)
    requires IsMat(m, |m|, cols)
    ensures PartlyReduced(m, [], 0, cols)
  {
  }

  /** Columns that are zero from row |piv| on are passed over. */
  lemma SkipColumns(m: Mat, piv: seq<nat>, upto: nat, c: nat, cols: nat)
    requires IsMat(m, |m|, cols) && upto <= c <= cols && PartlyReduced(m, piv, upto, cols)
    requires forall i, j :: |piv| <= i < |m| && upto <= j < c ==> m[i][j] == 0.0
    ensures PartlyReduced(m, piv, c, cols)
  {
    forall i | |piv| <= i < |m|
      ensures Leading(m, i, c, cols)
    {
      assert Leading(m, i, upto, cols);
    }
  }

  lemma SwapKeepsReduced(m: Mat, piv: seq<nat>, c: nat, r: nat, s: nat, cols: nat)
    requires IsMat(m, |m|, cols) && c <= cols && PartlyReduced(m, piv, c, cols)
    requires |piv| <= r < |m| && |piv| <= s < |m|
    ensures PartlyReduced(SwapRows(m, r, s), piv, c, cols)
  {
    var m' := SwapRows(m, r, s);
    forall k | 0 <= k < |piv|
      ensures PivotAt(m', k, piv[k], cols) && Leading(m', k, piv[k], cols)
    {
      assert PivotAt(m, k, piv[k], cols) && Leading(m, k, piv[k], cols);
    }
    forall i | |piv| <= i < |m|
      ensures Leading(m', i, c, cols)
    {
      assert Leading(m, if i == s then r else if i == r then s else i, c, cols);
    }
  }

  lemma ScaleKeepsReduced(m: Mat, piv: seq<nat>, c: nat, r: nat, v: real, cols: nat)
    requires IsMat(m, |m|, cols) && c <= cols && PartlyReduced(m, piv, c, cols)
    requires |piv| <= r < |m|
    ensures PartlyReduced(ScaleRow(m, r, v), piv, c, cols)
  {
    var m' := ScaleRow(m, r, v);
    forall k | 0 <= k < |piv|
      ensures PivotAt(m', k, piv[k], cols) && Leading(m', k, piv[k], cols)
    {
      assert PivotAt(m, k, piv[k], cols) && Leading(m, k, piv[k], cols);
    }
    forall i | |piv| <= i < |m|
      ensures Leading(m', i, c, cols)
    {
      assert Leading(m, i, c, cols);
    }
  }

  /** Adding a multiple of the pivot row |piv| leaves the columns before c alone. */
  lemma AddKeepsReduced(m: Mat, piv: seq<nat>, c: nat, v: real, to: nat, cols: nat)
    requires IsMat(m, |m|, cols) && c <= cols && PartlyReduced(m, piv, c, cols)
    requires |piv| < |m| && to < |m|
    ensures PartlyReduced(AddRow(m, |piv|, v, to), piv, c, cols)
  {
    var m' := AddRow(m, |piv|, v, to);
    assert Leading(m, |piv|, c, cols);
    assert forall i, j :: 0 <= i < |m| && 0 <= j < c ==> m'[i][j] == m[i][j];
    forall k | 0 <= k < |piv|
      ensures PivotAt(m', k, piv[k], cols) && Leading(m', k, piv[k], cols)
    {
      assert PivotAt(m, k, piv[k], cols) && Leading(m, k, piv[k], cols);
    }
    forall i | |piv| <= i < |m|
      ensures Leading(m', i, c, cols)
    {
      assert Leading(m, i, c, cols);
    }
  }

  lemma ColumnDone(m: Mat, piv: seq<nat>, c: nat, cols: nat)
    requires IsMat(m, |m|, cols) && c < cols && PartlyReduced(m, piv, c, cols)
    requires |piv| < |m| && PivotAt(m, |piv|, c, cols)
    ensures PartlyReduced(m, piv + [c], c + 1, cols)
  {
    var piv', next := piv + [c], c + 1;
    forall k | 0 <= k < |piv'|
      ensures PivotAt(m, k, piv'[k], cols) && piv'[k] < next && Leading(m, k, piv'[k], cols)
    {
      assert k < |piv| ==> PivotAt(m, k, piv[k], cols) && Leading(m, k, piv[k], cols);
      assert k == |piv| ==> Leading(m, k, c, cols);
    }
    forall i | |piv'| <= i < |m|
      ensures Leading(m, i, next, cols)
    {
      assert Leading(m, i, c, cols);
    }
  }

  /** Once rows or columns are used up, the form is complete. */
  lemma ReductionComplete(m: Mat, piv: seq<nat>, upto: nat, cols: nat)
    requires IsMat(m, |m|, cols) && upto <= cols && PartlyReduced(m, piv, upto, cols)
    requires |piv| == |m| || upto == cols
    ensures Reduced(m, piv, cols)
  {
  }

  // ---- The kernel of a reduced form ----

  /** A column has no pivot exactly when some vector of the kernel ends in it. */
  lemma FreeColumn(m: Mat, piv: seq<nat>, j: nat, cols: nat)
    requires IsMat(m, |m|, cols) && Reduced(m, piv, cols) && j < cols
    ensures j !in piv <==> exists x :: |x| == cols && Kills(m, x) && EndsIn(x, j)
  {
    if j !in piv {
      var x := FreeVector(m, piv, j, cols);
      forall i | |piv| <= i < |m|
        ensures m[i][j] == 0.0
      {
        assert Leading(m, i, cols, cols);
      }
      FreeVectorKilled(m, piv, j, cols);
      forall c | j < c < cols
        ensures x[c] == 0.0
      {
        if c in piv {
          assert Leading(m, IndexOf(piv, c), c, cols);
        }
      }
      assert EndsIn(x, j);
    } else {
      var k := IndexOf(piv, j);
      assert Leading(m, k, j, cols) && PivotAt(m, k, j, cols);
      forall x | |x| == cols && EndsIn(x, j)
        ensures !Kills(m, x)
      {
        DotOne(m[k], x, j, cols);
      }
    }
  }

  /** x[j] is the last non-zero component. */
  ghost predicate EndsIn(x: Vec, j: nat) {
    j < |x| && x[j] != 0.0 && forall c :: j < c < |x| ==> x[c] == 0.0
  }

  /** The pivot columns, and with them the rank, depend on the kernel alone. */
  lemma PivotsUnique(m: Mat, m': Mat, piv: seq<nat>, piv': seq<nat>, cols: nat)
    requires IsMat(m, |m|, cols) && IsMat(m', |m'|, cols)
    requires Reduced(m, piv, cols) && Reduced(m', piv', cols)
    requires SameKernel(m, m', cols)
    ensures piv == piv'
  {
    forall j: nat
      ensures j in piv <==> j in piv'
    {
      if j < cols {
        FreeColumn(m, piv, j, cols);
        FreeColumn(m', piv', j, cols);
      }
    }
    SameElements(piv, piv');
  }

  lemma BeforeLast(a: seq<nat>, j: nat)
    requires Increasing(a) && a != []
    ensures j in a[..|a| - 1] <==> j in a && j != a[|a| - 1]
  {
    assert a == a[..|a| - 1] + [a[|a| - 1]];
  }

  lemma {:induction false} SameElements(a: seq<nat>, b: seq<nat>)
    requires Increasing(a) && Increasing(b)
    requires forall j: nat :: j in a <==> j in b
    ensures a == b
  {
    if a != [] {
      assert a[0] in b;
    }
    if b != [] {
      assert b[0] in a;
    }
    if a != [] && b != [] {
      var p, q := |a| - 1, |b| - 1;
      assert a[p] in b && b[q] in a;
      assert a[p] == b[q];
      forall j: nat
        ensures j in a[..p] <==> j in b[..q]
      {
        BeforeLast(a, j);
        BeforeLast(b, j);
      }
      SameElements(a[..p], b[..q]);
      assert a == a[..p] + [a[p]] && b == b[..q] + [b[q]];
    }
  }

  /** The rank is the number of columns exactly when only the zero vector is in the kernel. */
  lemma FullRank(m: Mat, piv: seq<nat>, cols: nat)
    requires IsMat(m, |m|, cols) && Reduced(m, piv, cols)
    ensures |piv| <= cols
    ensures |piv| == cols <==> Nonsingular(m, cols)
  {
    IncreasingBounds(piv, cols);
    if |piv| == cols {
      forall x | |x| == cols && Kills(m, x)
        ensures x == Zero(cols)
      {
        forall k | 0 <= k < cols
          ensures x[k] == 0.0
        {
          assert PivotAt(m, k, piv[k], cols);
          forall c | 0 <= c < cols && c != k
            ensures m[k][c] == 0.0
          {
            assert PivotAt(m, c, piv[c], cols);
          }
          DotOne(m[k], x, k, cols);
        }
      }
    } else {
      var j := SkippedColumn(piv, cols);
      FreeColumn(m, piv, j, cols);
      var x :| |x| == cols && Kills(m, x) && EndsIn(x, j);
      assert x[j] != Zero(cols)[j];
    }
  }

  lemma {:induction false} IncreasingBounds(piv: seq<nat>, cols: nat)
    requires Increasing(piv) && forall k :: 0 <= k < |piv| ==> piv[k] < cols
    ensures |piv| <= cols
    ensures |piv| == cols ==> forall k :: 0 <= k < cols ==> piv[k] == k
  {
    if piv != [] {
      var p := |piv| - 1;
      IncreasingBounds(piv[..p], piv[p]);
    }
  }

  /** A column below cols that is not listed. */
  lemma {:induction false} SkippedColumn(piv: seq<nat>, cols: nat) returns (j: nat)
    requires Increasing(piv) && |piv| < cols && forall k :: 0 <= k < |piv| ==> piv[k] < cols
    ensures j < cols && j !in piv
  {
    if piv == [] || piv[|piv| - 1] < cols - 1 {
      j := cols - 1;
    } else {
      var p := |piv| - 1;
      j := SkippedColumn(piv[..p], cols - 1);
      assert piv == piv[..p] + [piv[p]];
    }
  }

  // ---- The null space ----

  /** Row c of the matrix that projects onto the kernel. */
  ghost function NullRow(m: Mat, piv: seq<nat>, c: nat, cols: nat): (r: Vec)
    requires IsMat(m, |m|, cols) && |piv| <= |m|
    ensures |r| == cols
  {
    if c in piv then Combined(m[IndexOf(piv, c)], -1.0, Unit(cols, c)) else Unit(cols, c)
  }

  lemma NullRowDot(m: Mat, piv: seq<nat>, c: nat, x: Vec)
    requires IsMat(m, |m|, |x|) && |piv| <= |m| && c < |x|
    ensures Dot(NullRow(m, piv, c, |x|), x, |x|)
         == if c in piv then x[c] - Dot(m[IndexOf(piv, c)], x, |x|) else x[c]
  {
    DotUnit(|x|, c, x);
    if c in piv {
      DotCombined(m[IndexOf(piv, c)], -1.0, Unit(|x|, c), x, |x|);
    }
  }

  ghost predicate IsNullMat(ns: Mat, m: Mat, piv: seq<nat>, cols: nat)
    requires IsMat(m, |m|, cols) && |piv| <= |m|
  {
    IsMat(ns, cols, cols) && forall c :: 0 <= c < cols ==> ns[c] == NullRow(m, piv, c, cols)
  }

  /** The null space matrix once the pivots of the rows before row are entered. */
  ghost predicate NullRowsBefore(ns: Mat, m: Mat, piv: seq<nat>, row: nat, cols: nat) {
    && IsMat(m, |m|, cols) && |piv| <= |m| && row <= |piv| && IsMat(ns, cols, cols)
    && forall c :: 0 <= c < cols ==>
         ns[c] == if c in piv && IndexOf(piv, c) < row then NullRow(m, piv, c, cols) else Unit(cols, c)
  }

  lemma NullRowAdded(ns: Mat, ns': Mat, m: Mat, piv: seq<nat>, row: nat, cols: nat)
    requires NullRowsBefore(ns, m, piv, row, cols) && Reduced(m, piv, cols) && row < |piv|
    requires IsMat(ns', cols, cols) && ns' == ns[piv[row] := ns'[piv[row]]]
    requires forall k :: 0 <= k < cols ==> ns'[piv[row]][k] == if k <= piv[row] then 0.0 else -m[row][k]
    ensures NullRowsBefore(ns', m, piv, row + 1, cols)
  {
    var c := piv[row];
    assert PivotAt(m, row, c, cols) && Leading(m, row, c, cols) && IndexOf(piv, c) == row;
    assert ns'[c] == NullRow(m, piv, c, cols);
  }

  lemma {:induction false} IncreasingAbove(piv: seq<nat>, row: nat)
    requires Increasing(piv) && row < |piv|
    ensures row <= piv[row]
  {
    if row > 0 {
      IncreasingAbove(piv, row - 1);
    }
  }

  /** The kernel is exactly what the null space matrix leaves in place. */
  lemma NullFixesKernel(ns: Mat, m: Mat, piv: seq<nat>, x: Vec)
    requires IsMat(m, |m|, |x|) && Reduced(m, piv, |x|) && IsNullMat(ns, m, piv, |x|)
    ensures Kills(m, x) <==> Image(ns, x) == x
  {
    if Kills(m, x) {
      forall c | 0 <= c < |x|
        ensures Image(ns, x)[c] == x[c]
      {
        NullRowDot(m, piv, c, x);
      }
    }
    if Image(ns, x) == x {
      forall i | 0 <= i < |m|
        ensures Dot(m[i], x, |x|) == 0.0
      {
        if i < |piv| {
          assert PivotAt(m, i, piv[i], |x|);
          NullRowDot(m, piv, piv[i], x);
          assert IndexOf(piv, piv[i]) == i;
          assert Image(ns, x)[piv[i]] == x[piv[i]];
        } else {
          assert Leading(m, i, |x|, |x|);
          DotTail(m[i], x, 0, |x|);
        }
      }
    }
  }

  /** Whatever the null space matrix yields is in the kernel. */
  lemma NullYieldsKernel(ns: Mat, m: Mat, piv: seq<nat>, y: Vec)
    requires IsMat(m, |m|, |y|) && Reduced(m, piv, |y|) && IsNullMat(ns, m, piv, |y|)
    ensures Kills(m, Image(ns, y))
  {
    var z := Image(ns, y);
    forall i | 0 <= i < |m|
      ensures Dot(m[i], z, |z|) == 0.0
    {
      if i < |piv| {
        NullYieldsRow(ns, m, piv, y, z, i);
      } else {
        assert Leading(m, i, |y|, |y|);
        DotTail(m[i], z, 0, |y|);
      }
    }
  }

  lemma NullYieldsRow(ns: Mat, m: Mat, piv: seq<nat>, y: Vec, z: Vec, i: nat)
    requires IsMat(m, |m|, |y|) && Pivots(m, piv, |y|) && IsNullMat(ns, m, piv, |y|)
    requires IsImage(ns, y, z) && i < |piv|
    ensures Dot(m[i], z, |y|) == 0.0
  {
    var c := piv[i];
    assert PivotAt(m, i, c, |y|);
    forall d | 0 <= d < |y|
      ensures m[i][d] == 0.0 || z[d] == y[c := z[c]][d]
    {
      NullImageAt(ns, m, piv, y, z, d);
      if d in piv {
        assert PivotAt(m, IndexOf(piv, d), d, |y|);
      }
    }
    DotSame(m[i], z, y[c := z[c]], |y|);
    DotUpdateUnit(m[i], y, c, z[c], |y|);
    NullImageAt(ns, m, piv, y, z, c);
    assert PivotAt(m, IndexOf(piv, c), c, |y|);
  }

  lemma NullImageAt(ns: Mat, m: Mat, piv: seq<nat>, y: Vec, z: Vec, d: nat)
    requires IsMat(m, |m|, |y|) && |piv| <= |m| && IsNullMat(ns, m, piv, |y|)
    requires IsImage(ns, y, z) && d < |y|
    ensures z[d] - y[d] == if d in piv then -Dot(m[IndexOf(piv, d)], y, |y|) else 0.0
  {
    NullRowDot(m, piv, d, y);
  }

  lemma DotUpdateUnit(a: Vec, b: Vec, r: nat, v: real, n: nat)
    requires r < n <= |a| && n <= |b| && a[r] == 1.0
    ensures Dot(a, b[r := v], n) == Dot(a, b, n) + v - b[r]
  {
    DotUpdate(a, b, r, v, n);
  }

  /** Where a is zero, b does not matter. */
  lemma {:induction false} DotSame(a: Vec, b: Vec, b': Vec, n: nat)
    requires n <= |a| && n <= |b| && n <= |b'|
    requires forall k :: 0 <= k < n ==> a[k] == 0.0 || b[k] == b'[k]
    ensures Dot(a, b, n) == Dot(a, b', n)
  {
    if n > 0 {
      DotSame(a, b, b', n - 1);
    }
  }
}
