/** Matrices over the real numbers as values: inner products, the elementary row operations and what
    they do to the solutions of a linear system, and inverses. */
module LinAlg {

  type Vec = seq<real>
  type Mat = seq<Vec>

  predicate IsMat(m: Mat, rows: nat, cols: nat) {
    |m| == rows && forall i :: 0 <= i < rows ==> |m[i]| == cols
  }

  function AbsValue(v: real): (r: real)
    ensures r >= 0.0 && (r == v || r == -v)
  {
    if v < 0.0 then -v else v
  }

  /** Column j of a matrix. */
  function Col(m: Mat, j: nat): (c: Vec)
    requires forall i :: 0 <= i < |m| ==> j < |m[i]|
    ensures |c| == |m| && forall i :: 0 <= i < |m| ==> c[i] == m[i][j]
  {
    seq(|m|, i requires 0 <= i < |m| => m[i][j])
  }

  function Unit(n: nat, k: int): (u: Vec)
    ensures |u| == n && forall i :: 0 <= i < n ==> u[i] == if i == k then 1.0 else 0.0
  {
    seq(n, i => if i == k then 1.0 else 0.0)
  }

  function Zero(n: nat): (z: Vec)
    ensures |z| == n && forall i :: 0 <= i < n ==> z[i] == 0.0
  {
    seq(n, i => 0.0)
  }

  function Identity(n: nat): (m: Mat)
    ensures IsMat(m, n, n) && forall i :: 0 <= i < n ==> m[i] == Unit(n, i)
  {
    seq(n, i => Unit(n, i))
  }

  // ---- Inner products ----

  /** The inner product of the first n components. */
  ghost function Dot(a: Vec, b: Vec, n: nat): real
    requires n <= |a| && n <= |b|
  {
    if n == 0 then 0.0 else Dot(a, b, n - 1) + a[n - 1] * b[n - 1]
  }

  lemma {:induction false} DotExt(a: Vec, a': Vec, b: Vec, b': Vec, n: nat)
    requires n <= |a| && n <= |b| && n <= |a'| && n <= |b'|
    requires forall k :: 0 <= k < n ==> a[k] == a'[k] && b[k] == b'[k]
    ensures Dot(a, b, n) == Dot(a', b', n)
  {
    if n > 0 {
      DotExt(a, a', b, b', n - 1);
    }
  }

  /** Components from m on that multiply to 0 do not matter. */
  lemma {:induction false} DotTail(a: Vec, b: Vec, m: nat, n: nat)
    requires m <= n <= |a| && n <= |b|
    requires forall k :: m <= k < n ==> a[k] == 0.0 || b[k] == 0.0
    ensures Dot(a, b, n) == Dot(a, b, m)
  {
    if m < n {
      DotTail(a, b, m, n - 1);
    }
  }

  /** A product with at most one non-zero term. */
  lemma {:induction false} DotOne(a: Vec, b: Vec, r: nat, n: nat)
    requires r < n <= |a| && n <= |b|
    requires forall k :: 0 <= k < n && k != r ==> a[k] == 0.0 || b[k] == 0.0
    ensures Dot(a, b, n) == a[r] * b[r]
  {
    DotTail(a, b, r + 1, n);
    DotTail(a, b, 0, r);
  }

  /** Changing one component of b. */
  lemma {:induction false} DotUpdate(a: Vec, b: Vec, r: nat, v: real, n: nat)
    requires r < n <= |a| && n <= |b|
    ensures Dot(a, b[r := v], n) == Dot(a, b, n) + a[r] * (v - b[r])
  {
    if r == n - 1 {
      DotExt(a, a, b[r := v], b, n - 1);
    } else {
      DotUpdate(a, b, r, v, n - 1);
    }
  }

  lemma {:induction false} DotScaled(a: Vec, v: real, b: Vec, n: nat)
    requires n <= |a| && n <= |b|
    ensures Dot(Scaled(a, v), b, n) == Dot(a, b, n) * v
  {
    if n > 0 {
      DotScaled(a, v, b, n - 1);
    }
  }

  lemma {:induction false} DotCombined(f: Vec, v: real, a: Vec, b: Vec, n: nat)
    requires |f| == |a| && n <= |a| && n <= |b|
    ensures Dot(Combined(f, v, a), b, n) == Dot(f, b, n) * v + Dot(a, b, n)
  {
    if n > 0 {
      DotCombined(f, v, a, b, n - 1);
    }
  }

  // ---- Row operations ----

  function Scaled(a: Vec, v: real): (s: Vec)
    ensures |s| == |a| && forall k :: 0 <= k < |a| ==> s[k] == a[k] * v
  {
    seq(|a|, k requires 0 <= k < |a| => a[k] * v)
  }

  function Combined(f: Vec, v: real, a: Vec): (s: Vec)
    requires |f| == |a|
    ensures |s| == |a| && forall k :: 0 <= k < |a| ==> s[k] == f[k] * v + a[k]
  {
    seq(|a|, k requires 0 <= k < |a| => f[k] * v + a[k])
  }

  function SwapRows<T>(m: seq<T>, r: nat, s: nat): seq<T>
    requires r < |m| && s < |m|
  {
    m[r := m[s]][s := m[r]]
  }

  function ScaleRow(m: Mat, r: nat, v: real): Mat
    requires r < |m|
  {
    m[r := Scaled(m[r], v)]
  }

  function AddRow(m: Mat, from: nat, v: real, to: nat): Mat
    requires from < |m| && to < |m| && |m[from]| == |m[to]|
  {
    m[to := Combined(m[from], v, m[to])]
  }

  // ---- Linear systems ----

  /** m * x = 0. */
  ghost predicate Kills(m: Mat, x: Vec)
    requires IsMat(m, |m|, |x|)
  {
    forall i :: 0 <= i < |m| ==> Dot(m[i], x, |x|) == 0.0
  }

  lemma SwapKeepsKernel(m: Mat, r: nat, s: nat, x: Vec)
    requires IsMat(m, |m|, |x|) && r < |m| && s < |m|
    ensures Kills(SwapRows(m, r, s), x) <==> Kills(m, x)
  {
    var m' := SwapRows(m, r, s);
    assert m[r] == m'[s] && m[s] == m'[r];
    assert forall i :: 0 <= i < |m| && i != r && i != s ==> m[i] == m'[i];
  }

  lemma ScaleKeepsKernel(m: Mat, r: nat, v: real, x: Vec)
    requires IsMat(m, |m|, |x|) && r < |m| && v != 0.0
    ensures Kills(ScaleRow(m, r, v), x) <==> Kills(m, x)
  {
    var m' := ScaleRow(m, r, v);
    DotScaled(m[r], v, x, |x|);
    assert forall i :: 0 <= i < |m| && i != r ==> m[i] == m'[i];
    if Kills(m', x) {
      assert Dot(m'[r], x, |x|) == 0.0;
    }
  }

  lemma AddKeepsKernel(m: Mat, from: nat, v: real, to: nat, x: Vec)
    requires IsMat(m, |m|, |x|) && from < |m| && to < |m| && from != to
    ensures Kills(AddRow(m, from, v, to), x) <==> Kills(m, x)
  {
    var m' := AddRow(m, from, v, to);
    DotCombined(m[from], v, m[to], x, |x|);
    assert forall i :: 0 <= i < |m| && i != to ==> m[i] == m'[i];
    if Kills(m', x) {
      assert Dot(m'[from], x, |x|) == 0.0;
      assert Dot(m'[to], x, |x|) == 0.0;
    }
  }

  // ---- Products ----

  /** Row i of a * x for a vector x. */
  ghost predicate IsImage(a: Mat, x: Vec, y: Vec)
    requires IsMat(a, |a|, |x|)
  {
    |y| == |a| && forall i :: 0 <= i < |a| ==> y[i] == Dot(a[i], x, |x|)
  }

  ghost function Image(a: Mat, x: Vec): (y: Vec)
    requires IsMat(a, |a|, |x|)
    ensures IsImage(a, x, y)
  {
    seq(|a|, i requires 0 <= i < |a| => Dot(a[i], x, |x|))
  }

  /** c = a * b. */
  ghost predicate IsProd(a: Mat, b: Mat, c: Mat, rows: nat, n: nat, cols: nat)
    requires IsMat(a, rows, n) && IsMat(b, n, cols) && IsMat(c, rows, cols)
  {
    forall i, j :: 0 <= i < rows && 0 <= j < cols ==> c[i][j] == Dot(a[i], Col(b, j), n)
  }

  lemma DotUnit(n: nat, k: nat, x: Vec)
    requires k < n <= |x|
    ensures Dot(Unit(n, k), x, n) == x[k] && Dot(x, Unit(n, k), n) == x[k]
  {
    DotOne(Unit(n, k), x, k, n);
    DotOne(x, Unit(n, k), k, n);
  }

  /** The matrix [p | e]. */
  function Beside(p: Mat, e: Mat): Mat
    requires |p| == |e|
  {
    seq(|p|, i requires 0 <= i < |p| => p[i] + e[i])
  }

  lemma {:induction false} DotConcat(a: Vec, c: Vec, x: Vec, y: Vec, n: nat)
    requires |a| == |x| && |c| == |y| && n <= |c|
    ensures Dot(a + c, x + y, |x| + n) == Dot(a, x, |x|) + Dot(c, y, n)
  {
    if n == 0 {
      DotExt(a + c, a, x + y, x, |x|);
    } else {
      DotConcat(a, c, x, y, n - 1);
    }
  }

  lemma BesideRow(p: Mat, e: Mat, x: Vec, y: Vec, i: nat)
    requires IsMat(p, |p|, |x|) && IsMat(e, |p|, |y|) && i < |p|
    ensures Dot(Beside(p, e)[i], x + y, |x + y|) == Dot(p[i], x, |x|) + Dot(e[i], y, |y|)
  {
    DotConcat(p[i], e[i], x, y, |y|);
  }

  lemma KilledBeside(p: Mat, e: Mat, x: Vec, y: Vec, i: nat)
    requires IsMat(p, |p|, |x|) && IsMat(e, |p|, |y|) && i < |p|
    requires Kills(Beside(p, e), x + y)
    ensures Dot(p[i], x, |x|) + Dot(e[i], y, |y|) == 0.0
  {
    assert Dot(Beside(p, e)[i], x + y, |x + y|) == 0.0;
    BesideRow(p, e, x, y, i);
  }

  lemma KillsBeside(p: Mat, e: Mat, x: Vec, y: Vec)
    requires IsMat(p, |p|, |x|) && IsMat(e, |p|, |y|)
    requires forall i :: 0 <= i < |p| ==> Dot(p[i], x, |x|) + Dot(e[i], y, |y|) == 0.0
    ensures Kills(Beside(p, e), x + y)
  {
    forall i | 0 <= i < |p|
      ensures Dot(Beside(p, e)[i], x + y, |x + y|) == 0.0
    {
      BesideRow(p, e, x, y, i);
    }
  }

  function Opposite(x: Vec): (y: Vec)
    ensures |y| == |x| && forall i :: 0 <= i < |x| ==> y[i] == -x[i]
  {
    seq(|x|, i requires 0 <= i < |x| => -x[i])
  }

  lemma {:induction false} DotOpposite(a: Vec, b: Vec, n: nat)
    requires n <= |a| && n <= |b|
    ensures Dot(a, Opposite(b), n) == -Dot(a, b, n)
  {
    if n > 0 {
      DotOpposite(a, b, n - 1);
    }
  }

  /** p * x = 0 and q * x = 0 have the same solutions. */
  ghost predicate SameKernel(p: Mat, q: Mat, cols: nat)
    requires IsMat(p, |p|, cols) && IsMat(q, |q|, cols)
  {
    forall x :: |x| == cols ==> (Kills(p, x) <==> Kills(q, x))
  }

  /** If [I | e] has the kernel of [a | I], then e is the inverse of a on both sides. */
  lemma InverseFromKernel(a: Mat, e: Mat, n: nat)
    requires IsMat(a, n, n) && IsMat(e, n, n)
    requires SameKernel(Beside(Identity(n), e), Beside(a, Identity(n)), n + n)
    ensures IsProd(e, a, Identity(n), n, n, n) && IsProd(a, e, Identity(n), n, n, n)
  {
    forall i, j | 0 <= i < n && 0 <= j < n
      ensures Identity(n)[i][j] == Dot(e[i], Col(a, j), n)
    {
      LeftInverseEntry(a, e, n, i, j);
    }
    forall i, j | 0 <= i < n && 0 <= j < n
      ensures Identity(n)[i][j] == Dot(a[i], Col(e, j), n)
    {
      RightInverseEntry(a, e, n, i, j);
    }
  }

  lemma LeftInverseEntry(a: Mat, e: Mat, n: nat, i: nat, j: nat)
    requires IsMat(a, n, n) && IsMat(e, n, n) && i < n && j < n
    requires SameKernel(Beside(Identity(n), e), Beside(a, Identity(n)), n + n)
    ensures Identity(n)[i][j] == Dot(e[i], Col(a, j), n)
  {
    var x, y := Unit(n, j), Opposite(Col(a, j));
    forall k | 0 <= k < n
      ensures Dot(a[k], x, n) + Dot(Identity(n)[k], y, n) == 0.0
    {
      DotUnit(n, j, a[k]);
      DotUnit(n, k, y);
    }
    KillsBeside(a, Identity(n), x, y);
    assert |x + y| == n + n;
    KilledBeside(Identity(n), e, x, y, i);
    DotUnit(n, i, x);
    DotOpposite(e[i], Col(a, j), n);
  }

  lemma RightInverseEntry(a: Mat, e: Mat, n: nat, i: nat, j: nat)
    requires IsMat(a, n, n) && IsMat(e, n, n) && i < n && j < n
    requires SameKernel(Beside(Identity(n), e), Beside(a, Identity(n)), n + n)
    ensures Identity(n)[i][j] == Dot(a[i], Col(e, j), n)
  {
    var x, y := Opposite(Col(e, j)), Unit(n, j);
    forall k | 0 <= k < n
      ensures Dot(Identity(n)[k], x, n) + Dot(e[k], y, n) == 0.0
    {
      DotUnit(n, j, e[k]);
      DotUnit(n, k, x);
    }
    KillsBeside(Identity(n), e, x, y);
    assert |x + y| == n + n;
    KilledBeside(a, Identity(n), x, y, i);
    DotUnit(n, i, y);
    DotOpposite(a[i], Col(e, j), n);
  }

  // ---- Row operations on two matrices side by side ----

  lemma BesideSwap(p: Mat, e: Mat, r: nat, s: nat)
    requires |p| == |e| && r < |p| && s < |p|
    ensures Beside(SwapRows(p, r, s), SwapRows(e, r, s)) == SwapRows(Beside(p, e), r, s)
  {
  }

  lemma BesideScale(p: Mat, e: Mat, r: nat, v: real)
    requires |p| == |e| && r < |p|
    ensures Beside(ScaleRow(p, r, v), ScaleRow(e, r, v)) == ScaleRow(Beside(p, e), r, v)
  {
    var left, right := Scaled(p[r], v) + Scaled(e[r], v), Scaled(p[r] + e[r], v);
    forall k | 0 <= k < |p[r]| + |e[r]|
      ensures left[k] == right[k]
    {
      assert k >= |p[r]| ==> (p[r] + e[r])[k] == e[r][k - |p[r]|];
    }
    assert left == right;
  }

  lemma BesideAdd(p: Mat, e: Mat, from: nat, v: real, to: nat)
    requires |p| == |e| && from < |p| && to < |p| && |p[from]| == |p[to]| && |e[from]| == |e[to]|
    ensures Beside(AddRow(p, from, v, to), AddRow(e, from, v, to)) == AddRow(Beside(p, e), from, v, to)
  {
    var left := Combined(p[from], v, p[to]) + Combined(e[from], v, e[to]);
    var right := Combined(p[from] + e[from], v, p[to] + e[to]);
    forall k | 0 <= k < |p[to]| + |e[to]|
      ensures left[k] == right[k]
    {
      assert k >= |p[to]| ==> (p[to] + e[to])[k] == e[to][k - |p[to]|];
      assert k >= |p[to]| ==> (p[from] + e[from])[k] == e[from][k - |p[to]|];
    }
    assert left == right;
  }

  // ---- Kernels under row operations ----

  lemma SwapSameKernel(m: Mat, orig: Mat, r: nat, s: nat, cols: nat)
    requires IsMat(m, |m|, cols) && IsMat(orig, |orig|, cols) && r < |m| && s < |m|
    requires SameKernel(m, orig, cols)
    ensures SameKernel(SwapRows(m, r, s), orig, cols)
  {
    forall x | |x| == cols
      ensures Kills(SwapRows(m, r, s), x) <==> Kills(orig, x)
    {
      SwapKeepsKernel(m, r, s, x);
    }
  }

  lemma ScaleSameKernel(m: Mat, orig: Mat, r: nat, v: real, cols: nat)
    requires IsMat(m, |m|, cols) && IsMat(orig, |orig|, cols) && r < |m| && v != 0.0
    requires SameKernel(m, orig, cols)
    ensures SameKernel(ScaleRow(m, r, v), orig, cols)
  {
    forall x | |x| == cols
      ensures Kills(ScaleRow(m, r, v), x) <==> Kills(orig, x)
    {
      ScaleKeepsKernel(m, r, v, x);
    }
  }

  lemma AddSameKernel(m: Mat, orig: Mat, from: nat, v: real, to: nat, cols: nat)
    requires IsMat(m, |m|, cols) && IsMat(orig, |orig|, cols)
    requires from < |m| && to < |m| && from != to
    requires SameKernel(m, orig, cols)
    ensures SameKernel(AddRow(m, from, v, to), orig, cols)
  {
    forall x | |x| == cols
      ensures Kills(AddRow(m, from, v, to), x) <==> Kills(orig, x)
    {
      AddKeepsKernel(m, from, v, to, x);
    }
  }

  // ---- Invertible matrices ----

  /** b * x, using the first m components of x. */
  ghost function PartImage(b: Mat, x: Vec, m: nat): (y: Vec)
    requires IsMat(b, |b|, |x|) && m <= |x|
    ensures |y| == |b| && forall k :: 0 <= k < |b| ==> y[k] == Dot(b[k], x, m)
  {
    seq(|b|, k requires 0 <= k < |b| => Dot(b[k], x, m))
  }

  /** (a * b) * x = a * (b * x) for a row a, using the first m components of x. */
  lemma {:induction false} DotAssociative(a: Vec, b: Mat, x: Vec, z: Vec, m: nat)
    requires IsMat(b, |a|, |x|) && |z| == |x| && m <= |x|
    requires forall j :: 0 <= j < |x| ==> z[j] == Dot(a, Col(b, j), |a|)
    ensures Dot(a, PartImage(b, x, m), |a|) == Dot(z, x, m)
    decreases m
  {
    if m == 0 {
      DotTail(a, PartImage(b, x, 0), 0, |a|);
    } else {
      DotAssociative(a, b, x, z, m - 1);
      ColumnStep(a, b, x, z[m - 1], m - 1);
    }
  }

  lemma ColumnStep(a: Vec, b: Mat, x: Vec, t: real, m: nat)
    requires IsMat(b, |a|, |x|) && m < |x| && t == Dot(a, Col(b, m), |a|)
    ensures Dot(a, PartImage(b, x, m + 1), |a|) == Dot(a, PartImage(b, x, m), |a|) + t * x[m]
  {
    PartImageStep(b, x, m);
    DotLinear(a, Col(b, m), x[m], PartImage(b, x, m), PartImage(b, x, m + 1), t, |a|);
  }

  ghost predicate Shifted(c: Vec, v: real, y: Vec, y': Vec) {
    |c| == |y| == |y'| && forall k :: 0 <= k < |c| ==> y'[k] == c[k] * v + y[k]
  }

  lemma PartImageStep(b: Mat, x: Vec, m: nat)
    requires IsMat(b, |b|, |x|) && m < |x|
    ensures Shifted(Col(b, m), x[m], PartImage(b, x, m), PartImage(b, x, m + 1))
  {
  }

  lemma {:induction false} DotLinear(a: Vec, c: Vec, v: real, y: Vec, y': Vec, t: real, n: nat)
    requires |a| == |c| && Shifted(c, v, y, y') && n <= |a| && t == Dot(a, c, n)
    ensures Dot(a, y', n) == Dot(a, y, n) + t * v
    decreases n
  {
    if n > 0 {
      var term := a[n - 1] * c[n - 1];
      DotLinear(a, c, v, y, y', t - term, n - 1);
      Distribute(a[n - 1], c[n - 1], v, y[n - 1], t);
    }
  }

  lemma Distribute(p: real, q: real, v: real, y: real, t: real)
    ensures p * (q * v + y) + (t - p * q) * v == p * y + t * v
  {
  }

  /** A matrix with a left inverse kills no other vector than zero. */
  lemma LeftInverseKernel(e: Mat, a: Mat, n: nat, x: Vec)
    requires IsMat(a, n, n) && IsMat(e, n, n) && IsProd(e, a, Identity(n), n, n, n)
    requires |x| == n && Kills(a, x)
    ensures x == Zero(n)
  {
    forall i | 0 <= i < n
      ensures x[i] == 0.0
    {
      DotAssociative(e[i], a, x, Identity(n)[i], n);
      DotUnit(n, i, x);
      DotTail(e[i], PartImage(a, x, n), 0, n);
    }
  }

  /** Only the zero vector solves m * x = 0. */
  ghost predicate Nonsingular(m: Mat, n: nat)
    requires IsMat(m, |m|, n)
  {
    forall x :: |x| == n && Kills(m, x) ==> x == Zero(n)
  }
}
