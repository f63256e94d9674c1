/** The matrix class and its elimination algorithms, over exact numbers. */
module Matrices {
  import opened LinAlg
  import opened Echelons
  import opened Factors
  import opened Elimination
  import opened Bases
  import opened TriFactors

  class Matrix {
    var rowSize: nat
    var colSize: nat
    var mat: Mat

    ghost predicate Valid()
      reads this
    {
      IsMat(mat, rowSize, colSize)
    }

    constructor (rows: nat, cols: nat)
      ensures Valid() && rowSize == rows && colSize == cols
    {
      rowSize, colSize := rows, cols;
      mat := seq(rows, i => Zero(cols));
    }

    // ---- Elements and shape ----

    method Set(row: nat, col: nat, v: real)
      requires Valid() && row < rowSize && col < colSize
      modifies this`mat
      ensures Valid() && mat == old(mat)[row := old(mat)[row][col := v]]
    {
      mat := mat[row := mat[row][col := v]];
    }

    /** A matrix of another shape loses its elements. */
    method Reinit(rows: nat, cols: nat)
      requires Valid()
      modifies this
      ensures Valid() && rowSize == rows && colSize == cols
      ensures old(rowSize) == rows && old(colSize) == cols ==> mat == old(mat)
    {
      if rowSize == rows && colSize == cols {
        return;
      }
      rowSize, colSize := rows, cols;
      mat := seq(rows, i => Zero(cols));
    }

    method DeleteAllElem()
      modifies this
      ensures Valid() && rowSize == 0 && colSize == 0
    {
      rowSize, colSize, mat := 0, 0, [];
    }

    method Copy(m: Matrix)
      requires m.Valid()
      modifies this
      ensures Valid() && rowSize == m.rowSize && colSize == m.colSize && mat == m.mat
    {
      rowSize, colSize, mat := m.rowSize, m.colSize, m.mat;
    }

    method InitIden()
      requires Valid() && rowSize == colSize
      modifies this`mat
      ensures Valid() && mat == Identity(rowSize)
    {
      for i := 0 to rowSize
        invariant Valid()
        invariant forall k :: 0 <= k < i ==> mat[k] == Unit(rowSize, k)
      {
        for j := 0 to colSize
          invariant Valid()
          invariant forall k :: 0 <= k < i ==> mat[k] == Unit(rowSize, k)
          invariant forall k :: 0 <= k < j ==> mat[i][k] == if k == i then 1.0 else 0.0
        {
          if i == j {
            Set(i, j, 1.0);
          } else {
            Set(i, j, 0.0);
          }
        }
        assert mat[i] == Unit(rowSize, i);
      }
    }

    // ---- Row operations ----

    method InterchRow(row1: nat, row2: nat)
      requires Valid() && row1 < rowSize && row2 < rowSize
      modifies this`mat
      ensures Valid() && mat == SwapRows(old(mat), row1, row2)
    {
      if row1 == row2 {
        return;
      }
      ghost var m := mat;
      for i := 0 to colSize
        invariant Valid()
        invariant forall k :: 0 <= k < rowSize && k != row1 && k != row2 ==> mat[k] == m[k]
        invariant forall j :: 0 <= j < colSize ==> mat[row1][j] == if j < i then m[row2][j] else m[row1][j]
        invariant forall j :: 0 <= j < colSize ==> mat[row2][j] == if j < i then m[row1][j] else m[row2][j]
      {
        var tmp := mat[row1][i];
        Set(row1, i, mat[row2][i]);
        Set(row2, i, tmp);
      }
      assert mat[row1] == m[row2] && mat[row2] == m[row1];
      assert mat == SwapRows(m, row1, row2);
    }

    method MulOfRow(row: nat, v: real)
      requires Valid() && row < rowSize && colSize > 0
      modifies this`mat
      ensures Valid() && mat == ScaleRow(old(mat), row, v)
    {
      ghost var m := mat;
      if v == 1.0 {
        assert mat[row] == Scaled(m[row], v);
        return;
      }
      if v == 0.0 {
        SetRow(row, 0.0);
        ZeroMultiple(m[row], mat[row]);
        return;
      }
      for j := 0 to colSize
        invariant Valid()
        invariant forall k :: 0 <= k < rowSize && k != row ==> mat[k] == m[k]
        invariant forall k :: 0 <= k < colSize ==> mat[row][k] == if k < j then m[row][k] * v else m[row][k]
      {
        Set(row, j, mat[row][j] * v);
      }
      IsScaled(m[row], v, mat[row]);
    }

    method SetRow(row: nat, v: real)
      requires Valid() && row < rowSize
      modifies this`mat
      ensures Valid() && mat == old(mat)[row := mat[row]]
      ensures forall k :: 0 <= k < colSize ==> mat[row][k] == v
    {
      ghost var m := mat;
      for i := 0 to colSize
        invariant Valid()
        invariant forall k :: 0 <= k < rowSize && k != row ==> mat[k] == m[k]
        invariant forall k :: 0 <= k < i ==> mat[row][k] == v
      {
        Set(row, i, v);
      }
    }

    method MulAndAddRow(from: nat, v: real, to: nat)
      requires Valid() && from < rowSize && to < rowSize && colSize > 0
      modifies this`mat
      ensures Valid() && mat == AddRow(old(mat), from, v, to)
    {
      ghost var m := mat;
      for j := 0 to colSize
        invariant Valid()
        invariant forall k :: 0 <= k < rowSize && k != to ==> mat[k] == m[k]
        invariant forall k :: 0 <= k < colSize ==>
                    mat[to][k] == if k < j then m[from][k] * v + m[to][k] else m[to][k]
      {
        Set(to, j, mat[from][j] * v + mat[to][j]);
      }
      assert mat[to] == Combined(m[from], v, m[to]);
    }

    method Zeros()
      requires Valid()
      modifies this`mat
      ensures Valid() && forall i :: 0 <= i < rowSize ==> mat[i] == Zero(colSize)
    {
      for i := 0 to rowSize
        invariant Valid()
        invariant forall k :: 0 <= k < i ==> mat[k] == Zero(colSize)
      {
        SetRow(i, 0.0);
        assert mat[i] == Zero(colSize);
      }
    }

    /** Multiplies every element. */
    method MulScalar(v: real)
      requires Valid() && rowSize > 0 && colSize > 0
      modifies this`mat
      ensures Valid() && forall i :: 0 <= i < rowSize ==> mat[i] == Scaled(old(mat)[i], v)
    {
      ghost var m := mat;
      if v == 0.0 {
        Zeros();
        forall i | 0 <= i < rowSize
          ensures mat[i] == Scaled(m[i], v)
        {
          ZeroMultiple(m[i], mat[i]);
        }
        return;
      }
      if v == 1.0 {
        assert forall i :: 0 <= i < rowSize ==> m[i] == Scaled(m[i], v);
        return;
      }
      for i := 0 to rowSize
        invariant Valid()
        invariant forall k :: i <= k < rowSize ==> mat[k] == m[k]
        invariant forall k :: 0 <= k < i ==> mat[k] == Scaled(m[k], v)
      {
        for j := 0 to colSize
          invariant Valid()
          invariant forall k :: i < k < rowSize ==> mat[k] == m[k]
          invariant forall k :: 0 <= k < i ==> mat[k] == Scaled(m[k], v)
          invariant forall l :: 0 <= l < colSize ==> mat[i][l] == if l < j then m[i][l] * v else m[i][l]
        {
          Set(i, j, mat[i][j] * v);
        }
        IsScaled(m[i], v, mat[i]);
      }
    }

    method SetCol(col: nat, v: real)
      requires Valid() && col < colSize
      modifies this`mat
      ensures Valid() && forall i :: 0 <= i < rowSize ==> mat[i] == old(mat)[i][col := v]
    {
      ghost var m := mat;
      for i := 0 to rowSize
        invariant Valid()
        invariant forall k :: i <= k < rowSize ==> mat[k] == m[k]
        invariant forall k :: 0 <= k < i ==> mat[k] == m[k][col := v]
      {
        Set(i, col, v);
      }
    }

    method MulOfColumn(col: nat, v: real)
      requires Valid() && col < colSize && rowSize > 0
      modifies this`mat
      ensures Valid()
      ensures forall i :: 0 <= i < rowSize ==> mat[i] == ScaledAt(old(mat)[i], col, v)
    {
      ghost var m := mat;
      if v == 1.0 {
        assert forall k :: 0 <= k < rowSize ==> m[k] == ScaledAt(m[k], col, v);
        return;
      }
      if v == 0.0 {
        SetCol(col, 0.0);
        forall k | 0 <= k < rowSize
          ensures mat[k] == ScaledAt(m[k], col, v)
        {
          IsScaledAt(m[k], col, v, mat[k]);
        }
        return;
      }
      for i := 0 to rowSize
        invariant Valid()
        invariant forall k :: i <= k < rowSize ==> mat[k] == m[k]
        invariant forall k :: 0 <= k < i ==> mat[k] == ScaledAt(m[k], col, v)
      {
        assert mat[i] == m[i];
        Set(i, col, mat[i][col] * v);
        IsScaledAt(m[i], col, v, mat[i]);
      }
    }

    /** this := a * b. */
    method Mul(a: Matrix, b: Matrix)
      requires Valid() && a.Valid() && b.Valid() && this != a && this != b
      requires a.rowSize > 0 && a.colSize > 0 && b.colSize > 0 && a.colSize == b.rowSize
      modifies this
      ensures Valid() && rowSize == a.rowSize && colSize == b.colSize
      ensures IsProd(a.mat, b.mat, mat, a.rowSize, a.colSize, b.colSize)
    {
      Reinit(a.rowSize, b.colSize);
      for i := 0 to rowSize
        invariant Valid() && rowSize == a.rowSize && colSize == b.colSize
        invariant forall k, j :: 0 <= k < i && 0 <= j < colSize ==>
                    mat[k][j] == Dot(a.mat[k], Col(b.mat, j), a.colSize)
      {
        for j := 0 to colSize
          invariant Valid() && rowSize == a.rowSize && colSize == b.colSize
          invariant forall k, l :: 0 <= k < i && 0 <= l < colSize ==>
                      mat[k][l] == Dot(a.mat[k], Col(b.mat, l), a.colSize)
          invariant forall l :: 0 <= l < j ==> mat[i][l] == Dot(a.mat[i], Col(b.mat, l), a.colSize)
        {
          var tmp := RowTimesColumn(a, b, i, j);
          Set(i, j, tmp);
        }
      }
    }

    static method RowTimesColumn(a: Matrix, b: Matrix, i: nat, j: nat) returns (tmp: real)
      requires a.Valid() && b.Valid() && a.colSize == b.rowSize && i < a.rowSize && j < b.colSize
      ensures tmp == Dot(a.mat[i], Col(b.mat, j), a.colSize)
    {
      tmp := 0.0;
      for k := 0 to a.colSize
        invariant tmp == Dot(a.mat[i], Col(b.mat, j), k)
      {
        tmp := tmp + a.mat[i][k] * b.mat[k][j];
      }
    }

    // ---- Pivots ----

    /** The row, from row on, of the pivot for column col; -1 if the column is zero there. */
    method FindPivot(row: nat, col: nat, preferUnit: bool) returns (swapRow: int)
      requires Valid() && col < colSize
      ensures swapRow == -1 <==> forall k :: row <= k < rowSize ==> mat[k][col] == 0.0
      ensures swapRow != -1 ==> row <= swapRow < rowSize && IsPivot(Col(mat, col), row, preferUnit, swapRow)
    {
      swapRow := -1;
      ghost var x := Col(mat, col);
      var k := row;
      while k < rowSize
        invariant if row <= rowSize then PivotSoFar(x, row, preferUnit, k, swapRow) else swapRow == -1
      {
        var tmp := mat[k][col];
        if tmp == 0.0 {
          PivotSkip(x, row, preferUnit, k, swapRow);
          k := k + 1;
          continue;
        }
        if swapRow == -1 {
          PivotFirst(x, row, preferUnit, k);
          swapRow := k;
          if tmp == 1.0 {
            return;
          }
        } else {
          PivotLater(x, row, preferUnit, k, swapRow);
          if preferUnit && tmp == 1.0 {
            swapRow := k;
            return;
          } else if AbsValue(mat[swapRow][col]) < AbsValue(tmp) {
            swapRow := k;
          }
        }
        k := k + 1;
      }
      if swapRow != -1 {
        PivotDone(x, row, preferUnit, swapRow);
      }
    }

    /** The first column from col on, not zero from row on, with its pivot. */
    method FindColumn(row: nat, col: nat, preferUnit: bool) returns (swapRow: int, w: nat)
      requires Valid() && col <= colSize
      ensures col <= w <= colSize
      ensures forall i, j :: row <= i < rowSize && col <= j < w ==> mat[i][j] == 0.0
      ensures swapRow == -1 <==> w == colSize
      ensures swapRow != -1 ==> row <= swapRow < rowSize && IsPivot(Col(mat, w), row, preferUnit, swapRow)
    {
      swapRow := -1;
      w := col;
      while w < colSize
        invariant col <= w <= colSize && swapRow == -1
        invariant forall i, j :: row <= i < rowSize && col <= j < w ==> mat[i][j] == 0.0
      {
        swapRow := FindPivot(row, w, preferUnit);
        if swapRow == -1 {
          w := w + 1;
          continue;
        }
        return;
      }
    }

    /** Moves the pivot from swapRow to row. */
    method PlacePivot(row: nat, col: nat, swapRow: nat, ghost piv: seq<nat>, ghost orig: Mat)
      requires Valid() && row <= swapRow < rowSize && col < colSize && mat[swapRow][col] != 0.0
      requires |piv| == row && Reducing(mat, piv, col, colSize, orig)
      modifies this`mat
      ensures Valid() && mat[row][col] != 0.0 && Reducing(mat, piv, col, colSize, orig)
    {
      if swapRow != row {
        SwapKeepsReduced(mat, piv, col, swapRow, row, colSize);
        SwapSameKernel(mat, orig, swapRow, row, colSize);
        InterchRow(swapRow, row);
      }
    }

    /** Makes the pivot 1. */
    method UnitPivot(row: nat, col: nat, ghost piv: seq<nat>, ghost orig: Mat)
      requires Valid() && row < rowSize && col < colSize && mat[row][col] != 0.0
      requires |piv| == row && Reducing(mat, piv, col, colSize, orig)
      modifies this`mat
      ensures Valid() && mat[row][col] == 1.0 && Reducing(mat, piv, col, colSize, orig)
    {
      if mat[row][col] != 1.0 {
        var tmp := 1.0 / mat[row][col];
        ScaledUnit(mat[row], col, tmp);
        ScaleKeepsReduced(mat, piv, col, row, tmp, colSize);
        ScaleSameKernel(mat, orig, row, tmp, colSize);
        MulOfRow(row, tmp);
      }
    }

    /** With a pivot 1 at (row, col), clears the rest of the column. */
    method ClearColumn(row: nat, col: nat, ghost piv: seq<nat>, ghost orig: Mat)
      requires Valid() && row < rowSize && col < colSize && mat[row][col] == 1.0
      requires |piv| == row && Reducing(mat, piv, col, colSize, orig)
      modifies this`mat
      ensures Valid() && Reducing(mat, piv + [col], col + 1, colSize, orig)
    {
      for i := 0 to rowSize
        invariant Valid() && mat[row][col] == 1.0
        invariant Reducing(mat, piv, col, colSize, orig)
        invariant forall k :: 0 <= k < i && k != row ==> mat[k][col] == 0.0
      {
        if i != row {
          if mat[i][col] != 0.0 {
            var tmp := -mat[i][col] / mat[row][col];
            AddKeepsReduced(mat, piv, col, tmp, i, colSize);
            AddSameKernel(mat, orig, row, tmp, i, colSize);
            MulAndAddRow(row, tmp, i);
          }
        }
      }
      ColumnDone(mat, piv, col, colSize);
    }

    /** One column of the reduction: the pivot at (swapRow, col) is exchanged into row, made 1 and its
        column cleared. */
    method ReduceAt(row: nat, col: nat, swapRow: nat, ghost piv: seq<nat>, ghost orig: Mat)
      requires Valid() && row <= swapRow < rowSize && col < colSize && mat[swapRow][col] != 0.0
      requires |piv| == row && Reducing(mat, piv, col, colSize, orig)
      modifies this`mat
      ensures Valid() && Reducing(mat, piv + [col], col + 1, colSize, orig)
    {
      PlacePivot(row, col, swapRow, piv, orig);
      UnitPivot(row, col, piv, orig);
      ClearColumn(row, col, piv, orig);
    }

    // ---- Rank and null space ----

    /** The next column with a pivot is reduced; nothing is found when all columns are zero from row on. */
    method ReduceNext(row: nat, col: nat, ghost piv: seq<nat>, ghost orig: Mat)
      returns (found: bool, row': nat, col': nat, ghost piv': seq<nat>)
      requires Valid() && |piv| == row < rowSize && col < colSize && Reducing(mat, piv, col, colSize, orig)
      modifies this`mat
      ensures Valid() && |piv'| == row' && Reducing(mat, piv', col', colSize, orig)
      ensures if found then row' == row + 1 else row' == row && col' == colSize
    {
      var swapRow, w := FindColumn(row, col, true);
      SkipColumns(mat, piv, col, w, colSize);
      found, row', col', piv' := swapRow != -1, row, w, piv;
      if found {
        ReduceAt(row, w, swapRow, piv, orig);
        row', col', piv' := row + 1, w + 1, piv + [w];
      }
    }

    /** Leaves the reduced row echelon form in basis and returns its number of pivots. */
    method Rank(basis: Matrix) returns (rankv: nat, ghost piv: seq<nat>)
      requires Valid() && rowSize > 0 && colSize > 0 && basis != this
      modifies basis
      ensures basis.Valid() && basis.rowSize == rowSize && basis.colSize == colSize
      ensures Reduced(basis.mat, piv, colSize) && rankv == |piv|
      ensures SameKernel(basis.mat, mat, colSize)
      ensures rankv <= colSize && (rankv == colSize <==> Nonsingular(mat, colSize))
      ensures IsRank(mat, rankv, colSize)
    {
      basis.Copy(this);
      piv := [];
      var row: nat, col: nat, found := 0, 0, true;
      NothingReduced(mat, colSize);
      while found && row < rowSize && col < colSize
        invariant basis.Valid() && basis.rowSize == rowSize && basis.colSize == colSize
        invariant |piv| == row <= rowSize && (found || col == colSize)
        invariant Reducing(basis.mat, piv, col, colSize, mat)
        decreases rowSize - row, found
      {
        found, row, col, piv := basis.ReduceNext(row, col, piv, mat);
      }
      rankv := row;
      RankFound(basis.mat, piv, col, colSize, mat);
      ReducedIsRank(mat, basis.mat, piv, colSize);
    }

    /** The mode that leaves the pivots as they are and returns rows of the matrix: as many as its rank,
        with the same kernel. Of a matrix whose rank is its number of rows, the eliminated form is
        returned instead. */
    method RankRows(basis: Matrix)
      returns (rankv: nat, ghost sigma: seq<nat>, ghost piv: seq<nat>, ghost c: Mat, ghost u: Mat)
      requires Valid() && rowSize > 0 && colSize > 0 && basis != this
      modifies basis
      ensures basis.Valid() && basis.rowSize == rankv && basis.colSize == colSize
      ensures IsRank(mat, rankv, colSize) && SameKernel(basis.mat, mat, colSize)
      ensures IsPermutation(sigma, rowSize) && |piv| == rankv
      ensures RowsChosen(mat, sigma, c, u, piv, rowSize, colSize)
      ensures rankv < rowSize ==> basis.mat == Permuted(mat, sigma)[..rankv]
      ensures rankv == rowSize ==> basis.mat == u
    {
      basis.Copy(this);
      var rowpos := Ascending(rowSize);
      ghost var a := mat;
      piv, c, u := [], Identity(rowSize), basis.mat;
      BasisInitially(mat, rowSize, colSize);
      var row: nat, col: nat, found := 0, 0, true;
      while found && row < rowSize && col < colSize
        invariant basis.rowSize == rowSize && basis.colSize == colSize && basis.mat == u
        invariant |piv| == row <= rowSize && (found || col == colSize)
        invariant BasisState(a, rowpos, c, u, piv, col, rowSize, colSize)
        invariant SmallMultipliers(c, u, piv, true, rowSize, colSize)
        decreases rowSize - row, found
      {
        found, rowpos, row, col, c, piv := basis.RankRow(rowpos, row, col, a, c, piv);
        u := basis.mat;
      }
      rankv, sigma := row, rowpos;
      BasisFound(a, sigma, c, u, piv, col, rowSize, colSize);
      if rankv < rowSize {
        basis.TakeRows(this, rowpos, rankv);
      }
    }

    /** One row of the elimination; nothing is found when all columns are zero from row on. */
    method RankRow(rowpos: seq<nat>, row: nat, col: nat, ghost a: Mat, ghost c: Mat, ghost piv: seq<nat>)
      returns (found: bool, rowpos': seq<nat>, row': nat, col': nat, ghost c': Mat, ghost piv': seq<nat>)
      requires Valid() && |piv| == row < rowSize && col < colSize
      requires BasisState(a, rowpos, c, mat, piv, col, rowSize, colSize)
      requires SmallMultipliers(c, mat, piv, true, rowSize, colSize)
      modifies this`mat
      ensures |piv'| == row' && BasisState(a, rowpos', c', mat, piv', col', rowSize, colSize)
      ensures SmallMultipliers(c', mat, piv', true, rowSize, colSize)
      ensures if found then row' == row + 1 else row' == row && col' == colSize
    {
      var swapRow, w := FindColumn(row, col, true);
      BasisSkip(a, rowpos, c, mat, piv, col, w, rowSize, colSize);
      found, rowpos', row', col', c', piv' := swapRow != -1, rowpos, row, w, c, piv;
      if found {
        rowpos', c' := BringUp(rowpos, row, w, swapRow, a, c, piv);
        ghost var c0, u0 := c', mat;
        row', col', c', piv' := EliminateBelow(rowpos', row, w, a, c', piv);
        SmallStep(c0, u0, piv, true, w, rowSize, colSize, c', mat, piv');
      }
    }

    /** The rows below the pivot are cleared; the pivot stays as it is. */
    method EliminateBelow(ghost rowpos: seq<nat>, row: nat, col: nat, ghost a: Mat, ghost c: Mat,
                          ghost piv: seq<nat>)
      returns (row': nat, col': nat, ghost c': Mat, ghost piv': seq<nat>)
      requires |piv| == row < rowSize && col < colSize
      requires BasisState(a, rowpos, c, mat, piv, col, rowSize, colSize) && mat[row][col] != 0.0
      modifies this`mat
      ensures row' == row + 1 == |piv'| && piv' == piv + [col] && col' == col + 1
      ensures BasisState(a, rowpos, c', mat, piv', col', rowSize, colSize)
      ensures ColumnCleared(c, old(mat), c', mat, row, col, rowSize, rowSize, colSize)
    {
      ghost var u := mat;
      ZeroBelow(a, rowpos, c, u, piv, col, rowSize, colSize);
      row', col', piv' := row + 1, col + 1, piv + [col];
      c' := ClearBelow(row, col, Permuted(a, rowpos), c);
      BasisStep(a, rowpos, c, u, piv, col, rowSize, colSize, c', mat, piv', col');
    }

    /** The pivot row is exchanged with the current one, in the matrix and in the record of the rows. */
    method BringUp(rowpos: seq<nat>, row: nat, col: nat, swapRow: nat, ghost a: Mat, ghost c: Mat,
                   ghost piv: seq<nat>)
      returns (rowpos': seq<nat>, ghost c': Mat)
      requires Valid() && |piv| == row <= swapRow < rowSize && col < colSize
      requires IsPivot(Col(mat, col), row, true, swapRow)
      requires BasisState(a, rowpos, c, mat, piv, col, rowSize, colSize)
      requires SmallMultipliers(c, mat, piv, true, rowSize, colSize)
      modifies this`mat
      ensures BasisState(a, rowpos', c', mat, piv, col, rowSize, colSize) && mat[row][col] != 0.0
      ensures SmallMultipliers(c', mat, piv, true, rowSize, colSize) && LargePivot(mat, row, col, true)
    {
      rowpos', c' := rowpos, c;
      PivotIsLarge(Col(mat, col), row, true, swapRow);
      if swapRow != row {
        SmallSwap(c, mat, piv, true, swapRow, rowSize, colSize);
        BasisSwap(a, rowpos, c, mat, piv, col, swapRow, rowSize, colSize);
        InterchRow(swapRow, row);
        rowpos', c' := SwapRows(rowpos, swapRow, row), SwapRows(c, swapRow, row);
      }
    }

    /** Becomes the first n of the listed rows of m. */
    method TakeRows(m: Matrix, rowpos: seq<nat>, n: nat)
      requires Valid() && m.Valid() && m != this && m.colSize == colSize
      requires IsPermutation(rowpos, m.rowSize) && n < m.rowSize
      modifies this
      ensures Valid() && rowSize == n && colSize == m.colSize && mat == Permuted(m.mat, rowpos)[..n]
    {
      Reinit(n, colSize);
      for i := 0 to n
        invariant Valid() && rowSize == n && colSize == m.colSize
        invariant forall k :: 0 <= k < i ==> mat[k] == m.mat[rowpos[k]]
      {
        SetRowFrom(i, m, rowpos[i]);
      }
    }

    method SetRowFrom(row: nat, m: Matrix, mrow: nat)
      requires Valid() && m.Valid() && m != this && m.colSize == colSize && row < rowSize && mrow < m.rowSize
      modifies this`mat
      ensures Valid() && mat == old(mat)[row := m.mat[mrow]]
    {
      ghost var before := mat;
      for j := 0 to colSize
        invariant Valid()
        invariant forall k :: 0 <= k < rowSize && k != row ==> mat[k] == before[k]
        invariant forall k :: 0 <= k < j ==> mat[row][k] == m.mat[mrow][k]
      {
        Set(row, j, m.mat[mrow][j]);
      }
      assert mat[row] == m.mat[mrow];
    }

    /** ns becomes the projection onto the kernel. */
    method Nullspace(ns: Matrix)
      requires Valid() && ns.Valid() && rowSize > 0 && colSize > 0 && ns != this
      modifies ns
      ensures ns.Valid() && ns.rowSize == colSize && ns.colSize == colSize
      ensures ProjectsOnKernel(ns.mat, mat, colSize)
    {
      ns.Reinit(colSize, colSize);
      var tmp := new Matrix(0, 0);
      var rankv;
      ghost var piv;
      rankv, piv := Rank(tmp);
      ns.InitIden();
      ns.ReflectRows(tmp, piv);
      NullspaceFound(ns.mat, tmp.mat, piv, colSize, mat);
    }

    method ReflectRows(m: Matrix, ghost piv: seq<nat>)
      requires Valid() && m.Valid() && m != this && rowSize == colSize == m.colSize
      requires Reduced(m.mat, piv, colSize) && mat == Identity(rowSize)
      modifies this`mat
      ensures Valid() && IsNullMat(mat, m.mat, piv, colSize)
    {
      var row := 0;
      while row < m.rowSize
        invariant row <= |piv| && NullRowsBefore(mat, m.mat, piv, row, colSize)
      {
        var col := m.LeadingEntry(row, piv);
        if col == colSize {
          break;
        }
        ghost var before := mat;
        ReflectRow(m, row, col);
        NullRowAdded(before, mat, m.mat, piv, row, colSize);
        row := row + 1;
      }
      assert row == |piv|;
    }

    /** The first non-zero entry of a row of a reduced form, searched from the diagonal on. */
    method LeadingEntry(row: nat, ghost piv: seq<nat>) returns (col: nat)
      requires Valid() && row < rowSize && Reduced(mat, piv, colSize) && row <= |piv|
      ensures row < |piv| ==> col == piv[row]
      ensures row == |piv| ==> col == colSize
    {
      if row < |piv| {
        assert PivotAt(mat, row, piv[row], colSize) && Leading(mat, row, piv[row], colSize);
        IncreasingAbove(piv, row);
      } else {
        assert Leading(mat, row, colSize, colSize);
      }
      FullRank(mat, piv, colSize);
      col := row;
      while col < colSize
        invariant row <= col <= colSize
        invariant row < |piv| ==> col <= piv[row]
      {
        if mat[row][col] != 0.0 {
          break;
        }
        col := col + 1;
      }
    }

    /** Row col of the identity becomes the row that expresses the pivot variable col. */
    method ReflectRow(m: Matrix, row: nat, col: nat)
      requires Valid() && m.Valid() && m != this && row < m.rowSize && col < rowSize
      requires rowSize == colSize == m.colSize && mat[col] == Unit(colSize, col)
      modifies this`mat
      ensures Valid() && mat == old(mat)[col := mat[col]]
      ensures forall k :: 0 <= k < colSize ==> mat[col][k] == if k <= col then 0.0 else -m.mat[row][k]
    {
      Set(col, col, 0.0);
      ghost var m0 := mat;
      for k := col + 1 to colSize
        invariant Valid() && mat == m0[col := mat[col]]
        invariant forall j :: 0 <= j < colSize ==>
                    mat[col][j] == if col < j < k then -m.mat[row][j] else 0.0
      {
        Set(col, k, -m.mat[row][k]);
      }
    }

    // ---- Inverse ----

    /** Exchanges rows j and swapRow of this and e. */
    method SwapBoth(e: Matrix, j: nat, swapRow: nat, ghost a: Mat)
      requires Valid() && e.Valid() && e != this && rowSize == e.rowSize
      requires Inverting(mat, e.mat, j, rowSize, a) && j <= swapRow < rowSize && mat[swapRow][j] != 0.0
      modifies this`mat, e`mat
      ensures Valid() && e.Valid() && mat[j][j] != 0.0 && Inverting(mat, e.mat, j, rowSize, a)
    {
      if swapRow != j {
        InvertingSwap(mat, e.mat, j, rowSize, a, swapRow, j);
        InterchRow(swapRow, j);
        e.InterchRow(swapRow, j);
      }
    }

    /** Makes the diagonal element 1. */
    method UnitBoth(e: Matrix, j: nat, ghost a: Mat)
      requires Valid() && e.Valid() && e != this && rowSize == e.rowSize && j < rowSize
      requires Inverting(mat, e.mat, j, rowSize, a) && mat[j][j] != 0.0
      modifies this`mat, e`mat
      ensures Valid() && e.Valid() && mat[j][j] == 1.0 && Inverting(mat, e.mat, j, rowSize, a)
    {
      if mat[j][j] != 1.0 {
        var tmp := 1.0 / mat[j][j];
        ScaledUnit(mat[j], j, tmp);
        InvertingScale(mat, e.mat, j, rowSize, a, tmp);
        MulOfRow(j, tmp);
        e.MulOfRow(j, tmp);
      }
    }

    /** Clears the rest of column j. */
    method ClearBoth(e: Matrix, j: nat, ghost a: Mat)
      requires Valid() && e.Valid() && e != this && rowSize == e.rowSize && j < rowSize
      requires Inverting(mat, e.mat, j, rowSize, a) && mat[j][j] == 1.0
      modifies this`mat, e`mat
      ensures Valid() && e.Valid() && Inverting(mat, e.mat, j + 1, rowSize, a)
    {
      for i := 0 to rowSize
        invariant Valid() && e.Valid() && Inverting(mat, e.mat, j, rowSize, a)
        invariant mat[j][j] == 1.0
        invariant forall k :: 0 <= k < i && k != j ==> mat[k][j] == 0.0
      {
        if i != j {
          if mat[i][j] != 0.0 {
            var tmp := -1.0 * mat[i][j];
            InvertingAdd(mat, e.mat, j, rowSize, a, tmp, i);
            MulAndAddRow(j, tmp, i);
            e.MulAndAddRow(j, tmp, i);
          }
        }
      }
      InvertingDone(mat, e.mat, j, rowSize, a);
    }

    /** The case of size 2: the adjugate divided by the determinant. */
    method Inv2(e: Matrix) returns (nonsingular: bool)
      requires Valid() && e.Valid() && e != this && rowSize == colSize == 2
      modifies e
      ensures e.Valid()
      ensures nonsingular ==> e.rowSize == e.colSize == 2 && Inverse(mat, e.mat, 2)
      ensures !nonsingular ==>
                e.rowSize == e.colSize == 0 && exists x :: |x| == 2 && Kills(mat, x) && x != Zero(2)
    {
      e.Reinit(rowSize, colSize);
      var k := Det2(mat);
      if k == 0.0 {
        Singular2(mat);
        e.DeleteAllElem();
        return false;
      }
      k := 1.0 / k;
      SetAdjugate(e);
      ghost var c := e.mat;
      e.MulScalar(k);
      Adjugate(mat, c, e.mat, k);
      return true;
    }

    method SetAdjugate(e: Matrix)
      requires Valid() && e.Valid() && e != this && rowSize == colSize == e.rowSize == e.colSize == 2
      modifies e`mat
      ensures e.Valid() && IsAdjugate(mat, e.mat)
    {
      e.Set(0, 0, mat[1][1]);
      e.Set(1, 1, mat[0][0]);
      e.Set(0, 1, -1.0 * mat[0][1]);
      e.Set(1, 0, -1.0 * mat[1][0]);
    }

    /** One column of the elimination, unless it has no pivot. */
    method JordanColumn(e: Matrix, j: nat, ghost a: Mat) returns (found: bool)
      requires Valid() && e.Valid() && e != this && j < rowSize == colSize == e.rowSize == e.colSize
      requires Inverting(mat, e.mat, j, rowSize, a)
      modifies this`mat, e`mat
      ensures Valid() && e.Valid()
      ensures found ==> Inverting(mat, e.mat, j + 1, rowSize, a)
      ensures !found ==> exists x :: |x| == rowSize && Kills(a, x) && x != Zero(rowSize)
    {
      var swapRow := FindPivot(j, j, true);
      found := swapRow != -1;
      if found {
        SwapBoth(e, j, swapRow, a);
        UnitBoth(e, j, a);
        ClearBoth(e, j, a);
      } else {
        NotInvertible(mat, e.mat, j, rowSize, a);
      }
    }

    /** Gauss-Jordan elimination of this, which becomes the identity, and e, which becomes the inverse. */
    method GaussJordan(e: Matrix, ghost a: Mat) returns (nonsingular: bool)
      requires Valid() && e.Valid() && e != this && rowSize == colSize > 0 && a == mat
      requires e.rowSize == e.colSize == rowSize
      modifies this`mat, e
      ensures Valid() && e.Valid()
      ensures nonsingular ==> e.rowSize == e.colSize == rowSize && Inverse(a, e.mat, rowSize)
      ensures !nonsingular ==>
                e.rowSize == e.colSize == 0 && exists x :: |x| == rowSize && Kills(a, x) && x != Zero(rowSize)
    {
      e.InitIden();
      NothingReduced(mat, rowSize);
      for j := 0 to colSize
        invariant Valid() && e.Valid() && e.rowSize == e.colSize == rowSize
        invariant Inverting(mat, e.mat, j, rowSize, a)
      {
        var found := JordanColumn(e, j, a);
        if !found {
          e.DeleteAllElem();
          return false;
        }
      }
      Inverted(mat, e.mat, rowSize, a);
      return true;
    }

    /** Inverts this matrix into e, which may be this matrix. */
    method Inv(e: Matrix) returns (nonsingular: bool)
      requires Valid() && e.Valid() && rowSize > 0 && colSize > 0
      requires rowSize == 1 && colSize == 1 ==> mat[0][0] != 0.0
      modifies e
      ensures e.Valid()
      ensures nonsingular ==> old(rowSize) == old(colSize) == e.rowSize == e.colSize
      ensures nonsingular ==> Inverse(old(mat), e.mat, e.rowSize)
      ensures old(rowSize) == old(colSize) ==> (nonsingular <==> Nonsingular(old(mat), old(colSize)))
      ensures !nonsingular ==> e.rowSize == 0 && e.colSize == 0
    {
      ghost var a, n := mat, colSize;
      if rowSize != colSize {
        e.DeleteAllElem();
        return false;
      }
      var p := new Matrix(0, 0);
      p.Copy(this);
      if rowSize == 1 {
        e.Reinit(1, 1);
        e.Set(0, 0, 1.0 / p.mat[0][0]);
        Inverse1(a, e.mat);
        nonsingular := true;
      } else if rowSize == 2 {
        nonsingular := p.Inv2(e);
      } else {
        e.Reinit(rowSize, colSize);
        nonsingular := p.GaussJordan(e, a);
      }
      if nonsingular {
        InverseMeansNonsingular(a, e.mat, n);
      }
    }

    // ---- Triangular factors ----

    /** The first column from col on, not zero from row on, with the first such row. */
    method FirstNonZero(row: nat, col: nat) returns (swapRow: int, w: nat)
      requires Valid() && row < rowSize && col <= colSize
      ensures col <= w <= colSize
      ensures forall i, j :: row <= i < rowSize && col <= j < w ==> mat[i][j] == 0.0
      ensures swapRow == -1 <==> w == colSize
      ensures swapRow != -1 ==> row <= swapRow < rowSize && mat[swapRow][w] != 0.0
      ensures swapRow != -1 ==> forall i :: row <= i < swapRow ==> mat[i][w] == 0.0
    {
      w := col;
      while w < colSize
        invariant col <= w <= colSize
        invariant forall i, j :: row <= i < rowSize && col <= j < w ==> mat[i][j] == 0.0
      {
        for k := row to rowSize
          invariant forall i :: row <= i < k ==> mat[i][w] == 0.0
        {
          if mat[k][w] != 0.0 {
            return k, w;
          }
        }
        w := w + 1;
      }
      return -1, w;
    }

    /** Subtracts multiples of row from the rows below it until column col is zero there. The ghost matrix
        of multipliers records them. */
    method ClearBelow(row: nat, col: nat, ghost a: Mat, ghost c: Mat) returns (ghost c': Mat)
      requires Valid() && row < rowSize && col < colSize && mat[row][col] != 0.0
      requires forall i, j :: row <= i < rowSize && 0 <= j < col ==> mat[i][j] == 0.0
      requires Recorded(a, c, mat, row, rowSize, colSize)
      modifies this`mat
      ensures Valid() && Recorded(a, c', mat, row + 1, rowSize, colSize)
      ensures ColumnCleared(c, old(mat), c', mat, row, col, rowSize, rowSize, colSize)
      ensures SameKernel(mat, old(mat), colSize)
    {
      c' := c;
      ghost var u := mat;
      var topent := mat[row][col];
      ClearingStart(a, c, mat, row, rowSize, colSize);
      assert topent == u[row][col];
      for i := row + 1 to rowSize
        invariant Valid() && ClearingBelow(a, c, u, c', mat, row, col, i, rowSize, colSize)
      {
        var tmp := ClearingFactor(mat[i][col], topent);
        ClearingBelowStep(a, c, u, c', mat, row, col, i, tmp, rowSize, colSize);
        c' := c'[i := c'[i][row := -tmp]];
        if mat[i][col] != 0.0 {
          MulAndAddRow(row, tmp, i);
        } else {
          Quotient(mat[i][col], topent, tmp);
          AddZeroRow(mat, row, tmp, i);
        }
      }
      ClearingEnd(a, c', mat, row, rowSize, colSize);
    }

    /** Column row of this, from row on, becomes column col of u. */
    method TakeColumn(u: Matrix, row: nat, col: nat)
      requires Valid() && u.Valid() && u != this && rowSize == colSize == u.rowSize
      requires row < rowSize && col < u.colSize
      modifies this`mat
      ensures Valid()
      ensures forall i, k :: 0 <= i < rowSize && 0 <= k < rowSize ==>
                mat[i][k] == if k == row && i >= row then u.mat[i][col] else old(mat)[i][k]
    {
      ghost var l := mat;
      for i := row to rowSize
        invariant Valid()
        invariant forall t, k :: 0 <= t < rowSize && 0 <= k < rowSize ==>
                    mat[t][k] == if k == row && row <= t < i then u.mat[t][col] else l[t][k]
      {
        Set(i, row, u.mat[i][col]);
      }
    }

    /** Divides every column by its diagonal element. */
    method UnitDiagonal(ghost c: Mat, ghost done: nat)
      requires Valid() && rowSize == colSize > 0 && LowerColumns(mat, c, done, rowSize)
      modifies this`mat
      ensures Valid() && HoldsMultipliers(mat, c, done, rowSize)
    {
      ghost var l := mat;
      for i := 0 to rowSize
        invariant Valid()
        invariant forall t, k :: 0 <= t < rowSize && i <= k < rowSize ==> mat[t][k] == l[t][k]
        invariant forall k :: 0 <= k < i ==> DividedColumn(mat, c, k, done, rowSize)
      {
        assert LowerColumn(l, c, i, done, rowSize);
        var tmp := 1.0 / mat[i][i];
        ghost var before := mat;
        MulOfColumn(i, tmp);
        ColumnDivided(before, mat, c, i, done, tmp, rowSize);
        forall k | 0 <= k < i
          ensures DividedColumn(mat, c, k, done, rowSize)
        {
          DividedFrame(before, mat, c, k, done, rowSize);
        }
      }
      AllDivided(mat, c, done, rowSize);
    }

    /** One column of the factorisation. */
    static method LuColumn(l: Matrix, u: Matrix, row: nat, col: nat, ghost a: Mat, ghost c: Mat, ghost piv: seq<nat>)
      returns (row': nat, col': nat, ghost c': Mat, ghost piv': seq<nat>)
      requires l.Valid() && u.Valid() && l != u && l.rowSize == l.colSize == u.rowSize
      requires LuState(a, c, l.mat, u.mat, piv, u.rowSize, u.colSize)
      requires |piv| == row < u.rowSize && AfterPivots(piv) <= col < u.colSize && u.mat[row][col] != 0.0
      requires forall i, j :: row <= i < u.rowSize && AfterPivots(piv) <= j < col ==> u.mat[i][j] == 0.0
      modifies l`mat, u`mat
      ensures row' == row + 1 == |piv'| && col' == AfterPivots(piv')
      ensures LuState(a, c', l.mat, u.mat, piv', u.rowSize, u.colSize)
    {
      row', col', piv' := row + 1, col + 1, piv + [col];
      ghost var l0, u0 := l.mat, u.mat;
      ZeroBefore(u.mat, piv, col, u.colSize);
      l.TakeColumn(u, row, col);
      c' := u.ClearBelow(row, col, a, c);
      LuStep(a, c, l0, u0, piv, col, u.rowSize, u.colSize, c', l.mat, u.mat, piv');
    }

    /** this = l * u with l unit lower triangular and u in echelon form, without exchanging rows. It succeeds
        exactly if there are such factors whose pivots leave no row or no column over. */
    method Lu(l: Matrix, u: Matrix) returns (succ: bool, ghost piv: seq<nat>)
      requires Valid() && l.Valid() && u.Valid() && rowSize > 1 && colSize > 1
      requires l != this && u != this && l != u
      modifies l, u
      ensures l.Valid() && l.rowSize == l.colSize == rowSize
      ensures u.Valid() && u.rowSize == rowSize && u.colSize == colSize
      ensures succ <==> Factorable(mat, rowSize, colSize)
      ensures succ ==> LuFactors(mat, l.mat, u.mat, piv, rowSize, colSize) && Upper(u.mat, rowSize, colSize)
      ensures succ ==> forall k, v, piv' :: EchelonFactors(mat, k, v, piv', rowSize, colSize) ==>
                                  piv' == piv && v == u.mat && SameColumns(k, l.mat, |piv|, rowSize)
      ensures rowSize == colSize ==>
                forall k, v :: Factorisation(mat, k, v, rowSize) ==> succ && l.mat == k && u.mat == v
    {
      u.Copy(this);
      l.Reinit(rowSize, rowSize);
      l.InitIden();
      LuInitially(mat, rowSize, colSize);
      succ, piv := LuColumns(l, u, mat);
      if rowSize == colSize {
        forall k, v | Factorisation(mat, k, v, rowSize)
          ensures succ && l.mat == k && u.mat == v
        {
          FactorisationIsEchelon(mat, k, v, rowSize);
          AllColumns(k, l.mat, rowSize);
        }
      }
    }

    static method LuColumns(l: Matrix, u: Matrix, ghost a: Mat) returns (succ: bool, ghost piv: seq<nat>)
      requires l.Valid() && u.Valid() && l != u && l.rowSize == l.colSize == u.rowSize > 0 && u.colSize > 0
      requires LuState(a, l.mat, l.mat, u.mat, [], u.rowSize, u.colSize)
      modifies l`mat, u`mat
      ensures l.Valid() && u.Valid()
      ensures succ <==> Factorable(a, u.rowSize, u.colSize)
      ensures succ ==> LuFactors(a, l.mat, u.mat, piv, u.rowSize, u.colSize) && Upper(u.mat, u.rowSize, u.colSize)
      ensures succ ==> forall k, v, piv' :: EchelonFactors(a, k, v, piv', u.rowSize, u.colSize) ==>
                                  piv' == piv && v == u.mat && SameColumns(k, l.mat, |piv|, u.rowSize)
    {
      var row: nat, col: nat := 0, 0;
      piv := [];
      ghost var c, lm, um := l.mat, l.mat, u.mat;
      while row < u.rowSize && col < u.colSize
        invariant row == |piv| <= u.rowSize && col == AfterPivots(piv) && l.mat == lm && u.mat == um
        invariant LuState(a, c, lm, um, piv, u.rowSize, u.colSize)
      {
        var swapRow, w := u.FirstNonZero(row, col);
        if swapRow != row {
          LuStuck(a, c, lm, um, piv, w, swapRow, u.rowSize, u.colSize);
          return false, piv;
        }
        row, col, c, piv := LuColumn(l, u, row, w, a, c, piv);
        lm, um := l.mat, u.mat;
      }
      ghost var l1 := l.mat;
      l.UnitDiagonal(c, row);
      LuDone(a, c, l1, u.mat, piv, u.rowSize, u.colSize, l.mat);
      return true, piv;
    }

    /** Moves the pivot row into place, in p as well. */
    static method Exchange(p: Matrix, u: Matrix, row: nat, col: nat, swapRow: nat, ghost a: Mat,
                           ghost sigma: seq<nat>, ghost c: Mat, ghost piv: seq<nat>)
      returns (ghost sigma': seq<nat>, ghost c': Mat)
      requires p.Valid() && u.Valid() && p != u && p.rowSize == p.colSize == u.rowSize
      requires BasisState(a, sigma, c, u.mat, piv, col, u.rowSize, u.colSize)
      requires p.mat == Permuted(Identity(u.rowSize), sigma)
      requires SmallMultipliers(c, u.mat, piv, false, u.rowSize, u.colSize)
      requires |piv| == row < swapRow < u.rowSize
      modifies p`mat, u`mat
      ensures p.Valid() && u.Valid() && u.mat == SwapRows(old(u.mat), swapRow, row)
      ensures BasisState(a, sigma', c', u.mat, piv, col, u.rowSize, u.colSize)
      ensures p.mat == Permuted(Identity(u.rowSize), sigma')
      ensures SmallMultipliers(c', u.mat, piv, false, u.rowSize, u.colSize)
    {
      SmallSwap(c, u.mat, piv, false, swapRow, u.rowSize, u.colSize);
      BasisSwap(a, sigma, c, u.mat, piv, col, swapRow, u.rowSize, u.colSize);
      PermutedSwap(Identity(u.rowSize), sigma, swapRow, row);
      u.InterchRow(swapRow, row);
      p.InterchRow(swapRow, row);
      sigma', c' := SwapRows(sigma, swapRow, row), SwapRows(c, swapRow, row);
    }

    /** Moves the pivot row into place and clears the column below it. */
    static method ExchangeAndClear(p: Matrix, u: Matrix, row: nat, col: nat, swapRow: nat, ghost a: Mat,
                                   ghost sigma: seq<nat>, ghost c: Mat, ghost piv: seq<nat>)
      returns (ghost sigma': seq<nat>, ghost c': Mat)
      requires p.Valid() && u.Valid() && p != u && p.rowSize == p.colSize == u.rowSize
      requires BasisState(a, sigma, c, u.mat, piv, col, u.rowSize, u.colSize)
      requires p.mat == Permuted(Identity(u.rowSize), sigma)
      requires SmallMultipliers(c, u.mat, piv, false, u.rowSize, u.colSize)
      requires |piv| == row <= swapRow < u.rowSize && col < u.colSize && IsPivot(Col(u.mat, col), row, false, swapRow)
      modifies p`mat, u`mat
      ensures PluState(a, sigma', p.mat, c', u.mat, piv + [col], u.rowSize, u.colSize)
    {
      sigma', c' := sigma, c;
      PivotIsLarge(Col(u.mat, col), row, false, swapRow);
      if swapRow != row {
        sigma', c' := Exchange(p, u, row, col, swapRow, a, sigma, c, piv);
      }
      c' := ClearPivot(p, u, row, col, a, sigma', c', piv);
    }

    /** Clears the column below a pivot that is 1 or as large as anything there. */
    static method ClearPivot(p: Matrix, u: Matrix, row: nat, col: nat, ghost a: Mat, ghost sigma: seq<nat>,
                             ghost c: Mat, ghost piv: seq<nat>)
      returns (ghost c': Mat)
      requires u.Valid() && p != u && col < u.colSize && |piv| == row < u.rowSize
      requires BasisState(a, sigma, c, u.mat, piv, col, u.rowSize, u.colSize)
      requires p.mat == Permuted(Identity(u.rowSize), sigma)
      requires SmallMultipliers(c, u.mat, piv, false, u.rowSize, u.colSize)
      requires u.mat[row][col] != 0.0 && LargePivot(u.mat, row, col, false)
      modifies u`mat
      ensures PluState(a, sigma, p.mat, c', u.mat, piv + [col], u.rowSize, u.colSize)
    {
      var row', col';
      ghost var u0, piv' := u.mat, piv;
      row', col', c', piv' := u.EliminateBelow(sigma, row, col, a, c, piv);
      SmallStep(c, u0, piv, false, col, u.rowSize, u.colSize, c', u.mat, piv');
      PluNext(a, sigma, p.mat, c', u.mat, piv', col', u.rowSize, u.colSize);
    }

    /** One row of the elimination with row exchanges; row' and col' are where the next one starts. */
    static method PluRow(p: Matrix, u: Matrix, row: nat, col: nat, ghost a: Mat, ghost sigma: seq<nat>,
                         ghost c: Mat, ghost piv: seq<nat>)
      returns (found: bool, row': nat, col': nat, ghost sigma': seq<nat>, ghost c': Mat, ghost piv': seq<nat>)
      requires p != u && p.rowSize == p.colSize == u.rowSize
      requires PluState(a, sigma, p.mat, c, u.mat, piv, u.rowSize, u.colSize)
      requires row == |piv| < u.rowSize && col == AfterPivots(piv) < u.colSize
      modifies p`mat, u`mat
      ensures found ==> row' == row + 1 == |piv'| && col' == AfterPivots(piv')
      ensures found ==> PluState(a, sigma', p.mat, c', u.mat, piv', u.rowSize, u.colSize)
      ensures !found ==> u.Valid() && Exchanged(a, sigma', p.mat, false, u.rowSize, u.colSize)
    {
      var swapRow, w := u.FindColumn(row, col, false);
      found, row', col', sigma', c', piv' := swapRow != -1, row + 1, w + 1, sigma, c, piv + [w];
      if found {
        BasisSkip(a, sigma, c, u.mat, piv, col, w, u.rowSize, u.colSize);
        sigma', c' := ExchangeAndClear(p, u, row, w, swapRow, a, sigma, c, piv);
      } else {
        PluFails(a, sigma, p.mat, c, u.mat, piv, u.rowSize, u.colSize);
      }
    }

    /** p * this = l * u for a permutation matrix p, whose row i is row sigma[i] of the identity. */
    method Plu(p: Matrix, l: Matrix, u: Matrix) returns (succ: bool, ghost sigma: seq<nat>, ghost piv: seq<nat>)
      requires Valid() && p.Valid() && l.Valid() && u.Valid() && rowSize > 1 && colSize > 1
      requires p != this && l != this && u != this && p != l && p != u && l != u
      modifies p, l, u
      ensures IsPermutation(sigma, rowSize)
      ensures p.Valid() && p.rowSize == p.colSize == rowSize && p.mat == Permuted(Identity(rowSize), sigma)
      ensures l.Valid() && u.Valid() && u.rowSize == rowSize && u.colSize == colSize
      ensures succ ==> l.rowSize == l.colSize == rowSize
      ensures succ ==> IsProd(p.mat, mat, Permuted(mat, sigma), rowSize, rowSize, colSize)
      ensures succ ==> LuFactors(Permuted(mat, sigma), l.mat, u.mat, piv, rowSize, colSize)
      ensures succ ==> Upper(u.mat, rowSize, colSize) && SmallMultipliers(l.mat, u.mat, piv, false, rowSize, colSize)
      ensures succ <==> ExchangesSucceed(mat, rowSize, colSize)
      ensures Nonsingular(mat, colSize) ==> succ
    {
      if Nonsingular(mat, colSize) {
        NonsingularSucceeds(mat, rowSize, colSize);
      }
      piv := [];
      succ, sigma := ExchangeRows(p, u);
      if !succ {
        return;
      }
      var permd := new Matrix(0, 0);
      permd.Mul(p, this);
      PermutationProduct(mat, sigma, permd.mat, rowSize, colSize);
      succ, piv := permd.Lu(l, u);
      FoundAreSmall(permd.mat, l.mat, u.mat, piv, rowSize, colSize);
    }

    /** Finds the row exchanges by eliminating a copy of this in u. */
    method ExchangeRows(p: Matrix, u: Matrix) returns (succ: bool, ghost sigma: seq<nat>)
      requires Valid() && p.Valid() && u.Valid() && p != this && u != this && p != u && colSize > 0
      modifies p, u
      ensures p.Valid() && p.rowSize == p.colSize == rowSize
      ensures u.Valid() && u.rowSize == rowSize && u.colSize == colSize
      ensures Exchanged(mat, sigma, p.mat, succ, rowSize, colSize)
    {
      p.Reinit(rowSize, rowSize);
      p.InitIden();
      u.Copy(this);
      PluInitially(mat, rowSize, colSize);
      succ, sigma := PluRows(p, u, mat);
    }

    /** Row by row: eliminates u, and makes the row exchanges in p as well. */
    static method PluRows(p: Matrix, u: Matrix, ghost a: Mat) returns (succ: bool, ghost sigma: seq<nat>)
      requires p.Valid() && u.Valid() && p != u && p.rowSize == p.colSize == u.rowSize && u.colSize > 0
      requires PluState(a, Ascending(u.rowSize), p.mat, p.mat, u.mat, [], u.rowSize, u.colSize)
      modifies p`mat, u`mat
      ensures u.Valid() && Exchanged(a, sigma, p.mat, succ, u.rowSize, u.colSize)
    {
      var rows, cols := u.rowSize, u.colSize;
      var row: nat, col: nat := 0, 0;
      ghost var piv: seq<nat>, c, pm, um := [], p.mat, p.mat, u.mat;
      sigma := Ascending(rows);
      while row < rows && col < cols
        invariant row == |piv| <= rows && col == AfterPivots(piv) <= cols && p.mat == pm && u.mat == um
        invariant PluState(a, sigma, pm, c, um, piv, rows, cols)
      {
        succ, row, col, sigma, c, piv := PluRow(p, u, row, col, a, sigma, c, piv);
        if !succ {
          return;
        }
        pm, um := p.mat, u.mat;
      }
      PluFactors(a, sigma, pm, c, um, piv, rows, cols);
      succ := true;
    }
  }
}
