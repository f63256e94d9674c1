/** What each step of the matrix algorithms keeps: the states of the reduction, of the inversion and of
    the triangular factorisations, as values. */
module Elimination {
  import opened LinAlg
  import opened Echelons
  import opened Factors

  lemma ZeroMultiple(a: Vec, z: Vec)
    requires |z| == |a| && forall k :: 0 <= k < |a| ==> z[k] == 0.0
    ensures z == Scaled(a, 0.0)
  {
  }

  lemma IsScaled(a: Vec, v: real, z: Vec)
    requires |z| == |a| && forall k :: 0 <= k < |a| ==> z[k] == a[k] * v
    ensures z == Scaled(a, v)
  {
  }

  function ScaledAt(a: Vec, k: nat, v: real): Vec
    requires k < |a|
  {
    a[k := a[k] * v]
  }

  lemma IsScaledAt(a: Vec, k: nat, v: real, z: Vec)
    requires k < |a| == |z| && z == a[k := z[k]] && z[k] == a[k] * v
    ensures z == ScaledAt(a, k, v)
  {
  }

  lemma ScaledUnit(a: Vec, k: nat, v: real)
    requires k < |a| && a[k] != 0.0 && v == 1.0 / a[k]
    ensures Scaled(a, v)[k] == 1.0 && v != 0.0
  {
    var s := Scaled(a, v)[k];
    assert s == a[k] * v;
  }

  // ---- The choice of a pivot in a column x, from row on ----

  ghost predicate FirstUnit(x: Vec, row: nat, s: nat) {
    row <= s < |x| && x[s] == 1.0 && forall k :: row <= k < s ==> x[k] != 1.0
  }

  ghost predicate FirstNonZeroAt(x: Vec, row: nat, s: nat) {
    row <= s < |x| && x[s] != 0.0 && forall k :: row <= k < s ==> x[k] == 0.0
  }

  /** Of the entries before upto. */
  ghost predicate FirstLargest(x: Vec, row: nat, upto: nat, s: nat) {
    && row <= s < upto <= |x| && x[s] != 0.0
    && (forall k :: row <= k < upto ==> AbsValue(x[k]) <= AbsValue(x[s]))
    && (forall k :: row <= k < s ==> AbsValue(x[k]) < AbsValue(x[s]))
  }

  ghost predicate LeadsWithOne(x: Vec, row: nat, upto: nat) {
    exists s: nat :: s < upto && FirstNonZeroAt(x, row, s) && x[s] == 1.0
  }

  /** The first entry 1, if units are preferred and there is one; otherwise the first non-zero entry if that
      is 1; otherwise the first one of greatest size. */
  ghost predicate IsPivot(x: Vec, row: nat, preferUnit: bool, s: nat) {
    if preferUnit && exists k :: row <= k < |x| && x[k] == 1.0 then FirstUnit(x, row, s)
    else if LeadsWithOne(x, row, |x|) then FirstNonZeroAt(x, row, s)
    else FirstLargest(x, row, |x|, s)
  }

  /** A pivot is not zero, and is 1 or as large as any entry; with units preferred none of these is 1 then. */
  lemma PivotIsLarge(x: Vec, row: nat, preferUnit: bool, s: nat)
    requires IsPivot(x, row, preferUnit, s)
    ensures row <= s < |x| && x[s] != 0.0
    ensures x[s] == 1.0 || forall k :: row <= k < |x| ==>
                                         AbsValue(x[k]) <= AbsValue(x[s]) && (preferUnit ==> x[k] != 1.0)
  {
    if LeadsWithOne(x, row, |x|) && FirstNonZeroAt(x, row, s) {
      var t: nat :| FirstNonZeroAt(x, row, t) && x[t] == 1.0;
      OnlyFirst(x, row, s, t);
    }
  }

  lemma OnlyFirst(x: Vec, row: nat, s: nat, t: nat)
    requires FirstNonZeroAt(x, row, s) && FirstNonZeroAt(x, row, t)
    ensures s == t
  {
    assert x[s] != 0.0 && x[t] != 0.0;
  }

  /** What the search knows before entry k. */
  ghost predicate PivotSoFar(x: Vec, row: nat, preferUnit: bool, k: nat, s: int) {
    && row <= k <= |x|
    && (s == -1 ==> forall i :: row <= i < k ==> x[i] == 0.0)
    && (s != -1 ==> row <= s && FirstLargest(x, row, k, s))
    && (preferUnit ==> forall i :: row <= i < k ==> x[i] != 1.0)
    && !LeadsWithOne(x, row, k)
  }

  lemma PivotSkip(x: Vec, row: nat, preferUnit: bool, k: nat, s: int)
    requires PivotSoFar(x, row, preferUnit, k, s) && k < |x| && x[k] == 0.0
    ensures PivotSoFar(x, row, preferUnit, k + 1, s)
  {
  }

  lemma PivotFirst(x: Vec, row: nat, preferUnit: bool, k: nat)
    requires PivotSoFar(x, row, preferUnit, k, -1) && k < |x| && x[k] != 0.0
    ensures x[k] == 1.0 ==> IsPivot(x, row, preferUnit, k)
    ensures x[k] != 1.0 ==> PivotSoFar(x, row, preferUnit, k + 1, k)
  {
    assert FirstNonZeroAt(x, row, k);
    assert x[k] == 1.0 ==> FirstUnit(x, row, k);
  }

  lemma PivotLater(x: Vec, row: nat, preferUnit: bool, k: nat, s: nat)
    requires PivotSoFar(x, row, preferUnit, k, s) && k < |x| && x[k] != 0.0
    ensures preferUnit && x[k] == 1.0 ==> IsPivot(x, row, preferUnit, k)
    ensures !(preferUnit && x[k] == 1.0) ==>
              PivotSoFar(x, row, preferUnit, k + 1, if AbsValue(x[s]) < AbsValue(x[k]) then k else s)
  {
    assert preferUnit && x[k] == 1.0 ==> FirstUnit(x, row, k);
  }

  lemma PivotDone(x: Vec, row: nat, preferUnit: bool, s: nat)
    requires PivotSoFar(x, row, preferUnit, |x|, s)
    ensures IsPivot(x, row, preferUnit, s)
  {
  }

  /** Partly reduced, with the kernel it had at first. */
  ghost predicate Reducing(m: Mat, piv: seq<nat>, upto: nat, cols: nat, orig: Mat) {
    && IsMat(m, |m|, cols) && IsMat(orig, |orig|, cols) && upto <= cols
    && PartlyReduced(m, piv, upto, cols) && SameKernel(m, orig, cols)
  }

  lemma RankFound(m: Mat, piv: seq<nat>, upto: nat, cols: nat, orig: Mat)
    requires Reducing(m, piv, upto, cols, orig) && (|piv| == |m| || upto == cols)
    ensures Reduced(m, piv, cols) && |piv| <= cols
    ensures |piv| == cols <==> Nonsingular(orig, cols)
  {
    ReductionComplete(m, piv, upto, cols);
    FullRank(m, piv, cols);
  }

  /** ns leaves exactly the kernel of a in place, and yields nothing else. */
  ghost predicate ProjectsOnKernel(ns: Mat, a: Mat, cols: nat)
    requires IsMat(ns, cols, cols) && IsMat(a, |a|, cols)
  {
    && (forall x :: |x| == cols ==> (Kills(a, x) <==> Image(ns, x) == x))
    && (forall y :: |y| == cols ==> Kills(a, Image(ns, y)))
  }

  lemma NullspaceFound(ns: Mat, m: Mat, piv: seq<nat>, cols: nat, orig: Mat)
    requires IsMat(m, |m|, cols) && Reduced(m, piv, cols) && IsNullMat(ns, m, piv, cols)
    requires IsMat(orig, |orig|, cols) && SameKernel(m, orig, cols)
    ensures ProjectsOnKernel(ns, orig, cols)
  {
    forall x | |x| == cols
      ensures Kills(orig, x) <==> Image(ns, x) == x
    {
      NullFixesKernel(ns, m, piv, x);
    }
    forall y | |y| == cols
      ensures Kills(orig, Image(ns, y))
    {
      NullYieldsKernel(ns, m, piv, y);
    }
  }

  // ---- The state of the inversion ----

  /** [p | e] arose from [a | I] and the first j columns of p are those of the identity. */
  ghost predicate Inverting(p: Mat, e: Mat, j: nat, n: nat, a: Mat) {
    && IsMat(p, n, n) && IsMat(e, n, n) && IsMat(a, n, n) && j <= n
    && PartlyReduced(p, Ascending(j), j, n)
    && SameKernel(Beside(p, e), Beside(a, Identity(n)), n + n)
  }

  lemma InvertingSwap(p: Mat, e: Mat, j: nat, n: nat, a: Mat, r: nat, s: nat)
    requires Inverting(p, e, j, n, a) && j <= r < n && j <= s < n
    ensures Inverting(SwapRows(p, r, s), SwapRows(e, r, s), j, n, a)
  {
    SwapKeepsReduced(p, Ascending(j), j, r, s, n);
    SwapKeepsAugmented(p, e, n, a, r, s);
  }

  lemma SwapKeepsAugmented(p: Mat, e: Mat, n: nat, a: Mat, r: nat, s: nat)
    requires IsMat(p, n, n) && IsMat(e, n, n) && IsMat(a, n, n) && r < n && s < n
    requires SameKernel(Beside(p, e), Beside(a, Identity(n)), n + n)
    ensures SameKernel(Beside(SwapRows(p, r, s), SwapRows(e, r, s)), Beside(a, Identity(n)), n + n)
  {
    BesideSwap(p, e, r, s);
    SwapSameKernel(Beside(p, e), Beside(a, Identity(n)), r, s, n + n);
  }

  lemma InvertingScale(p: Mat, e: Mat, j: nat, n: nat, a: Mat, v: real)
    requires Inverting(p, e, j, n, a) && j < n && v != 0.0
    ensures Inverting(ScaleRow(p, j, v), ScaleRow(e, j, v), j, n, a)
  {
    ScaleKeepsReduced(p, Ascending(j), j, j, v, n);
    BesideScale(p, e, j, v);
    ScaleSameKernel(Beside(p, e), Beside(a, Identity(n)), j, v, n + n);
  }

  lemma InvertingAdd(p: Mat, e: Mat, j: nat, n: nat, a: Mat, v: real, to: nat)
    requires Inverting(p, e, j, n, a) && j < n && to < n && to != j
    ensures Inverting(AddRow(p, j, v, to), AddRow(e, j, v, to), j, n, a)
  {
    AddKeepsReduced(p, Ascending(j), j, v, to, n);
    BesideAdd(p, e, j, v, to);
    AddSameKernel(Beside(p, e), Beside(a, Identity(n)), j, v, to, n + n);
  }

  lemma InvertingDone(p: Mat, e: Mat, j: nat, n: nat, a: Mat)
    requires Inverting(p, e, j, n, a) && j < n
    requires forall i :: 0 <= i < n ==> p[i][j] == if i == j then 1.0 else 0.0
    ensures Inverting(p, e, j + 1, n, a)
  {
    ColumnDone(p, Ascending(j), j, n);
    assert Ascending(j) + [j] == Ascending(j + 1);
  }

  /** All columns done: e is the inverse of a. */
  lemma Inverted(p: Mat, e: Mat, n: nat, a: Mat)
    requires Inverting(p, e, n, n, a)
    ensures Inverse(a, e, n)
  {
    forall i | 0 <= i < n
      ensures p[i] == Unit(n, i)
    {
      forall c | 0 <= c < n
        ensures p[i][c] == Unit(n, i)[c]
      {
        assert PivotAt(p, c, Ascending(n)[c], n);
      }
    }
    assert p == Identity(n);
    InverseFromKernel(a, e, n);
  }

  /** A column without a pivot: a kills a non-zero vector. */
  lemma NotInvertible(p: Mat, e: Mat, j: nat, n: nat, a: Mat)
    requires Inverting(p, e, j, n, a) && j < n
    requires forall i :: j <= i < n ==> p[i][j] == 0.0
    ensures exists x :: |x| == n && Kills(a, x) && x != Zero(n)
  {
    FreeVectorKilled(p, Ascending(j), j, n);
    var x := FreeVector(p, Ascending(j), j, n);
    forall i | 0 <= i < n
      ensures Dot(p[i], x, n) + Dot(e[i], Zero(n), n) == 0.0
    {
      DotTail(e[i], Zero(n), 0, n);
    }
    KillsBeside(p, e, x, Zero(n));
    assert |x + Zero(n)| == n + n;
    forall i | 0 <= i < n
      ensures Dot(a[i], x, n) == 0.0
    {
      KilledBeside(a, Identity(n), x, Zero(n), i);
      DotTail(Identity(n)[i], Zero(n), 0, n);
    }
    assert x[j] != Zero(n)[j];
  }

  /** e is the inverse of a on both sides. */
  ghost predicate Inverse(a: Mat, e: Mat, n: nat)
    requires IsMat(a, n, n) && IsMat(e, n, n)
  {
    IsProd(e, a, Identity(n), n, n, n) && IsProd(a, e, Identity(n), n, n, n)
  }

  /** A matrix with an inverse kills no vector but zero. */
  lemma InverseMeansNonsingular(a: Mat, e: Mat, n: nat)
    requires IsMat(a, n, n) && IsMat(e, n, n) && Inverse(a, e, n)
    ensures Nonsingular(a, n)
  {
    forall x | |x| == n && Kills(a, x)
      ensures x == Zero(n)
    {
      LeftInverseKernel(e, a, n, x);
    }
  }

  // ---- Size 2 ----

  lemma Dot2(a: Vec, b: Vec)
    requires |a| == 2 && |b| == 2
    ensures Dot(a, b, 2) == a[0] * b[0] + a[1] * b[1]
  {
    assert Dot(a, b, 1) == Dot(a, b, 0) + a[0] * b[0];
  }

  /** The determinant of a matrix of size 2. */
  function Det2(a: Mat): real
    requires IsMat(a, 2, 2)
  {
    a[0][0] * a[1][1] - a[0][1] * a[1][0]
  }

  /** c is the adjugate of a. */
  ghost predicate IsAdjugate(a: Mat, c: Mat)
    requires IsMat(a, 2, 2) && IsMat(c, 2, 2)
  {
    && c[0][0] == a[1][1] && c[0][1] == -1.0 * a[0][1]
    && c[1][0] == -1.0 * a[1][0] && c[1][1] == a[0][0]
  }

  lemma Adjugate(a: Mat, c: Mat, e: Mat, k: real)
    requires IsMat(a, 2, 2) && IsMat(c, 2, 2) && IsMat(e, 2, 2)
    requires Det2(a) != 0.0 && k == 1.0 / Det2(a) && IsAdjugate(a, c)
    requires e[0] == Scaled(c[0], k) && e[1] == Scaled(c[1], k)
    ensures Inverse(a, e, 2)
  {
    Reciprocal(Det2(a), k);
    AdjugateProducts(a[0][0], a[0][1], a[1][0], a[1][1], k, e[0][0], e[0][1], e[1][0], e[1][1]);
    Identity2(e, a);
    Identity2(a, e);
  }

  lemma Reciprocal(d: real, k: real)
    requires d != 0.0 && k == 1.0 / d
    ensures d * k == 1.0
  {
  }

  lemma Identity2(a: Mat, b: Mat)
    requires IsMat(a, 2, 2) && IsMat(b, 2, 2)
    requires a[0][0] * b[0][0] + a[0][1] * b[1][0] == 1.0 && a[0][0] * b[0][1] + a[0][1] * b[1][1] == 0.0
    requires a[1][0] * b[0][0] + a[1][1] * b[1][0] == 0.0 && a[1][0] * b[0][1] + a[1][1] * b[1][1] == 1.0
    ensures IsProd(a, b, Identity(2), 2, 2, 2)
  {
    Entry2(a, b, 0, 0);
    Entry2(a, b, 0, 1);
    Entry2(a, b, 1, 0);
    Entry2(a, b, 1, 1);
  }

  lemma Entry2(a: Mat, b: Mat, i: nat, j: nat)
    requires IsMat(a, 2, 2) && IsMat(b, 2, 2) && i < 2 && j < 2
    requires a[i][0] * b[0][j] + a[i][1] * b[1][j] == if i == j then 1.0 else 0.0
    ensures Identity(2)[i][j] == Dot(a[i], Col(b, j), 2)
  {
    Dot2(a[i], Col(b, j));
  }

  lemma AdjugateProducts(p: real, q: real, r: real, s: real, k: real, e: real, f: real, g: real, h: real)
    requires (p * s - q * r) * k == 1.0
    requires e == s * k && f == (-1.0 * q) * k && g == (-1.0 * r) * k && h == p * k
    ensures e * p + f * r == 1.0 && e * q + f * s == 0.0 && g * p + h * r == 0.0 && g * q + h * s == 1.0
    ensures p * e + q * g == 1.0 && p * f + q * h == 0.0 && r * e + s * g == 0.0 && r * f + s * h == 1.0
  {
  }

  lemma Singular2(a: Mat)
    requires IsMat(a, 2, 2) && Det2(a) == 0.0
    ensures exists x :: |x| == 2 && Kills(a, x) && x != Zero(2)
  {
    var p, q, r, s := a[0][0], a[0][1], a[1][0], a[1][1];
    if p != 0.0 || q != 0.0 {
      Killed2(a, -q, p);
    } else if r != 0.0 || s != 0.0 {
      Killed2(a, -s, r);
    } else {
      Killed2(a, 1.0, 0.0);
    }
  }

  lemma Killed2(a: Mat, x0: real, x1: real)
    requires IsMat(a, 2, 2) && (x0 != 0.0 || x1 != 0.0)
    requires a[0][0] * x0 + a[0][1] * x1 == 0.0 && a[1][0] * x0 + a[1][1] * x1 == 0.0
    ensures exists x :: |x| == 2 && Kills(a, x) && x != Zero(2)
  {
    var x := [x0, x1];
    Dot2(a[0], x);
    Dot2(a[1], x);
    assert x[0] != Zero(2)[0] || x[1] != Zero(2)[1];
    assert Kills(a, x);
  }

  lemma Inverse1(a: Mat, e: Mat)
    requires IsMat(a, 1, 1) && IsMat(e, 1, 1) && a[0][0] != 0.0 && e[0][0] == 1.0 / a[0][0]
    ensures Inverse(a, e, 1)
  {
    assert Dot(e[0], Col(a, 0), 1) == Dot(e[0], Col(a, 0), 0) + e[0][0] * a[0][0];
    assert Dot(a[0], Col(e, 0), 1) == Dot(a[0], Col(e, 0), 0) + a[0][0] * e[0][0];
  }

  // ---- The state of the triangular factorisation ----

  /** Column k of l: multiples of the multipliers for a finished column, a unit column otherwise. */
  ghost predicate LowerColumn(l: Mat, c: Mat, k: nat, done: nat, rows: nat)
    requires IsMat(l, rows, rows) && IsMat(c, rows, rows) && k < rows
  {
    && (k < done ==> l[k][k] != 0.0)
    && (k >= done ==> l[k][k] == 1.0)
    && (forall i :: 0 <= i < k ==> l[i][k] == 0.0)
    && (forall i :: k < i < rows ==> l[i][k] == if k < done then c[i][k] * l[k][k] else 0.0)
  }

  ghost predicate LowerColumns(l: Mat, c: Mat, done: nat, rows: nat) {
    && IsMat(l, rows, rows) && IsMat(c, rows, rows)
    && forall k :: 0 <= k < rows ==> LowerColumn(l, c, k, done, rows)
  }

  /** The multiple of a pivot d that removes x. */
  function ClearingFactor(x: real, d: real): real
    requires d != 0.0
  {
    -1.0 * x / d
  }

  /** What clearing a column below its pivot does to the rows and the multipliers. */
  ghost predicate ColumnCleared(c: Mat, u: Mat, c': Mat, u': Mat, row: nat, col: nat, upto: nat,
                                rows: nat, cols: nat) {
    && IsMat(c, rows, rows) && IsMat(c', rows, rows) && IsMat(u, rows, cols) && IsMat(u', rows, cols)
    && row < rows && col < cols
    && (forall t :: 0 <= t < rows && (t <= row || upto <= t) ==> u'[t] == u[t] && c'[t] == c[t])
    && (forall t :: row < t < upto && t < rows ==> RowCleared(c, u, c', u', row, col, t, rows, cols))
  }

  ghost predicate RowCleared(c: Mat, u: Mat, c': Mat, u': Mat, row: nat, col: nat, t: nat,
                             rows: nat, cols: nat)
    requires IsMat(c, rows, rows) && IsMat(c', rows, rows) && IsMat(u, rows, cols) && IsMat(u', rows, cols)
    requires row < rows && col < cols && t < rows
  {
    && c'[t] == c[t][row := c'[t][row]]
    && c'[t][row] * u[row][col] == u[t][col]
    && forall j :: 0 <= j <= col ==> u'[t][j] == 0.0
  }

  /** One row: the multiple v of the pivot row is added. */
  lemma ClearOneRow(c: Mat, u: Mat, c1: Mat, u1: Mat, row: nat, col: nat, t: nat, v: real,
                    rows: nat, cols: nat)
    requires ColumnCleared(c, u, c1, u1, row, col, t, rows, cols) && row < t < rows
    requires forall i, j :: row <= i < rows && 0 <= j < col ==> u[i][j] == 0.0
    requires u[row][col] != 0.0 && v == ClearingFactor(u[t][col], u[row][col])
    ensures ColumnCleared(c, u, c1[t := c1[t][row := -v]], AddRow(u1, row, v, t), row, col, t + 1, rows, cols)
  {
    var c2, u2 := c1[t := c1[t][row := -v]], AddRow(u1, row, v, t);
    Quotient(u[t][col], u[row][col], v);
    assert u1[t] == u[t] && u1[row] == u[row] && c1[t] == c[t];
    forall j | 0 <= j <= col
      ensures u2[t][j] == 0.0
    {
      assert u2[t][j] == u1[row][j] * v + u1[t][j];
      if j == col {
        assert u2[t][col] == u[row][col] * v + u[t][col];
      }
    }
    assert RowCleared(c, u, c2, u2, row, col, t, rows, cols);
    forall s | row < s < t
      ensures RowCleared(c, u, c2, u2, row, col, s, rows, cols)
    {
      assert RowCleared(c, u, c1, u1, row, col, s, rows, cols);
    }
  }

  lemma Quotient(x: real, d: real, v: real)
    requires d != 0.0 && v == ClearingFactor(x, d)
    ensures d * v + x == 0.0 && -v * d == x && (x == 0.0 ==> v == 0.0)
  {
    assert v == -(x / d);
    assert (x / d) * d == x;
  }

  /** While the rows below the pivot are cleared, one after the other. */
  ghost predicate ClearingBelow(a: Mat, c: Mat, u: Mat, c': Mat, u': Mat, row: nat, col: nat, upto: nat,
                                rows: nat, cols: nat) {
    && Clearing(a, c', u', row, upto, rows, cols)
    && ColumnCleared(c, u, c', u', row, col, upto, rows, cols)
    && SameKernel(u', u, cols)
  }

  lemma ClearingBelowStep(a: Mat, c: Mat, u: Mat, c1: Mat, u1: Mat, row: nat, col: nat, t: nat, v: real,
                          rows: nat, cols: nat)
    requires ClearingBelow(a, c, u, c1, u1, row, col, t, rows, cols) && row < t < rows
    requires forall i, j :: row <= i < rows && 0 <= j < col ==> u[i][j] == 0.0
    requires u[row][col] != 0.0 && v == ClearingFactor(u1[t][col], u[row][col])
    ensures ClearingBelow(a, c, u, c1[t := c1[t][row := -v]], AddRow(u1, row, v, t), row, col, t + 1, rows, cols)
  {
    ClearOneRow(c, u, c1, u1, row, col, t, v, rows, cols);
    ClearingStep(a, c1, u1, row, t, v, rows, cols);
    AddSameKernel(u1, u, row, v, t, cols);
  }

  lemma LowerStep(c: Mat, l: Mat, u: Mat, row: nat, col: nat, rows: nat, cols: nat, c': Mat, l': Mat, u': Mat)
    requires LowerColumns(l, c, row, rows) && ColumnCleared(c, u, c', u', row, col, rows, rows, cols)
    requires IsMat(l', rows, rows) && u[row][col] != 0.0
    requires forall i, k :: 0 <= i < rows && 0 <= k < rows ==>
               l'[i][k] == if k == row && i >= row then u[i][col] else l[i][k]
    ensures LowerColumns(l', c', row + 1, rows)
  {
    var next := row + 1;
    forall k | 0 <= k < rows
      ensures LowerColumn(l', c', k, next, rows)
    {
      assert LowerColumn(l, c, k, row, rows);
      forall i | k < i < rows
        ensures l'[i][k] == if k < next then c'[i][k] * l'[k][k] else 0.0
      {
        if row < i {
          assert RowCleared(c, u, c', u', row, col, i, rows, cols);
        }
      }
    }
  }

  lemma AddZeroRow(m: Mat, from: nat, v: real, to: nat)
    requires from < |m| && to < |m| && |m[from]| == |m[to]| && v == 0.0
    ensures AddRow(m, from, v, to) == m
  {
    assert Combined(m[from], v, m[to]) == m[to];
  }

  ghost predicate DividedColumn(l: Mat, c: Mat, k: nat, done: nat, rows: nat)
    requires IsMat(l, rows, rows) && IsMat(c, rows, rows) && k < rows
  {
    && l[k][k] == 1.0
    && (forall i :: 0 <= i < k ==> l[i][k] == 0.0)
    && (forall i :: k < i < rows ==> l[i][k] == if k < done then c[i][k] else 0.0)
  }

  lemma ColumnDivided(l: Mat, l': Mat, c: Mat, k: nat, done: nat, v: real, rows: nat)
    requires IsMat(l, rows, rows) && IsMat(l', rows, rows) && IsMat(c, rows, rows) && k < rows
    requires LowerColumn(l, c, k, done, rows) && v == 1.0 / l[k][k]
    requires forall i :: 0 <= i < rows ==> l'[i] == ScaledAt(l[i], k, v)
    ensures DividedColumn(l', c, k, done, rows)
  {
    forall i | 0 <= i < rows
      ensures l'[i][k] == if i == k then 1.0 else if i < k then 0.0 else if k < done then c[i][k] else 0.0
    {
      assert l'[i][k] == l[i][k] * v;
      if k < i && k < done {
        DivideProduct(c[i][k], l[k][k], v);
      }
    }
  }

  lemma DividedFrame(l: Mat, l': Mat, c: Mat, k: nat, done: nat, rows: nat)
    requires IsMat(l, rows, rows) && IsMat(l', rows, rows) && IsMat(c, rows, rows) && k < rows
    requires DividedColumn(l, c, k, done, rows) && forall i :: 0 <= i < rows ==> l'[i][k] == l[i][k]
    ensures DividedColumn(l', c, k, done, rows)
  {
  }

  lemma AllDivided(l: Mat, c: Mat, done: nat, rows: nat)
    requires IsMat(l, rows, rows) && IsMat(c, rows, rows)
    requires forall k :: 0 <= k < rows ==> DividedColumn(l, c, k, done, rows)
    ensures HoldsMultipliers(l, c, done, rows)
  {
    forall i, k | 0 <= k < rows && 0 <= i < rows
      ensures l[i][k] == if i == k then 1.0 else if i < k then 0.0 else if k < done then c[i][k] else 0.0
    {
      assert DividedColumn(l, c, k, done, rows);
    }
  }

  lemma DivideProduct(x: real, d: real, v: real)
    requires d != 0.0 && v == 1.0 / d
    ensures (x * d) * v == x
  {
    assert d * v == 1.0;
    assert (x * d) * v == x * (d * v);
  }

  lemma KernelChain(u': Mat, u: Mat, a: Mat, cols: nat)
    requires IsMat(u', |u'|, cols) && IsMat(u, |u|, cols) && IsMat(a, |a|, cols)
    requires SameKernel(u', u, cols) && SameKernel(u, a, cols)
    ensures SameKernel(u', a, cols)
  {
  }
}
