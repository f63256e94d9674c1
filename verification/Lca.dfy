/** Lowest common ancestors: by walking up parents, and by binary lifting. */
module Lca {
  import opened Arithmetic

  datatype Option<T> = None | Some(value: T)

  /** A rooted tree: every vertex but the root has a parent, one level above it. The root has height 0. */
  datatype Tree = Tree(vertices: seq<nat>, root: nat, parent: map<nat, nat>, height: map<nat, nat>) {
    ghost predicate Valid() {
      && root in vertices && root !in parent && root in height && height[root] == 0
      && forall v {:trigger ValidVertex(v)} :: v in vertices ==> ValidVertex(v)
    }

    ghost predicate ValidVertex(v: nat) {
      && v in height
      && (v != root ==> v in parent && parent[v] in vertices && parent[v] in height
                        && height[v] == height[parent[v]] + 1)
    }

    predicate HasKid(v: nat) {
      exists w :: w in vertices && w in parent && parent[w] == v
    }

    function Parent(v: nat): Option<nat> {
      if v in parent then Some(parent[v]) else None
    }

    /** The k-th ancestor. */
    ghost function Up(v: nat, k: nat): (a: nat)
      requires Valid() && v in vertices && ValidVertex(v) && k <= height[v]
      ensures a in vertices && ValidVertex(a) && height[a] == height[v] - k
      decreases k
    {
      if k == 0 then v else assert ValidVertex(parent[v]); Up(parent[v], k - 1)
    }

    /** x is v or above it. */
    ghost predicate AncestorOf(x: nat, v: nat)
      requires Valid() && v in vertices
    {
      ValidVertex(v) && exists k :: 0 <= k <= height[v] && Up(v, k) == x
    }

    /** c is above a and b, and everything above both is above c. */
    ghost predicate IsLca(a: nat, b: nat, c: nat)
      requires Valid() && a in vertices && b in vertices
    {
      && c in vertices && AncestorOf(c, a) && AncestorOf(c, b)
      && forall x :: x in vertices && AncestorOf(x, a) && AncestorOf(x, b) ==> AncestorOf(x, c)
    }
  }

  lemma {:induction false} UpAdd(t: Tree, v: nat, j: nat, k: nat)
    requires t.Valid() && v in t.vertices && t.ValidVertex(v) && j + k <= t.height[v]
    ensures t.Up(t.Up(v, j), k) == t.Up(v, j + k)
    decreases j
  {
    if j > 0 {
      UpAdd(t, t.parent[v], j - 1, k);
    }
  }

  lemma AncestorAt(t: Tree, x: nat, v: nat)
    requires t.Valid() && x in t.vertices && v in t.vertices
    ensures t.ValidVertex(x) && t.ValidVertex(v)
    ensures t.AncestorOf(x, v) <==> t.height[x] <= t.height[v] && t.Up(v, t.height[v] - t.height[x]) == x
  {
  }

  /** There is only one lowest common ancestor. */
  lemma LcaUnique(t: Tree, a: nat, b: nat, c: nat, d: nat)
    requires t.Valid() && a in t.vertices && b in t.vertices
    requires t.IsLca(a, b, c) && t.IsLca(a, b, d)
    ensures c == d
  {
    AncestorAt(t, c, d);
    AncestorAt(t, d, c);
  }

  /** Where two vertices of equal height that differ have the same parent, that is their meeting point. */
  lemma MeetingPoint(t: Tree, a: nat, b: nat, i: nat, j: nat)
    requires t.Valid() && a in t.vertices && b in t.vertices && t.ValidVertex(a) && t.ValidVertex(b)
    requires i < t.height[a] && j < t.height[b] && t.height[a] - i == t.height[b] - j
    requires t.Up(a, i) != t.Up(b, j) && t.Up(a, i + 1) == t.Up(b, j + 1)
    ensures t.IsLca(a, b, t.Up(a, i + 1))
  {
    var c := t.Up(a, i + 1);
    forall x | x in t.vertices && t.AncestorOf(x, a) && t.AncestorOf(x, b)
      ensures t.AncestorOf(x, c)
    {
      AncestorAt(t, x, a);
      AncestorAt(t, x, b);
      var k, l := t.height[a] - t.height[x], t.height[b] - t.height[x];
      if k <= i {
        UpAdd(t, a, k, i - k);
        UpAdd(t, b, l, j - l);
      } else {
        UpAdd(t, a, i + 1, k - i - 1);
      }
    }
  }

  lemma MeetingAbove(t: Tree, a: nat, b: nat, i: nat, j: nat, k: nat)
    requires t.Valid() && a in t.vertices && b in t.vertices && t.ValidVertex(a) && t.ValidVertex(b)
    requires i + k < t.height[a] && j + k < t.height[b] && t.height[a] - i == t.height[b] - j
    requires t.Up(t.Up(a, i), k) != t.Up(t.Up(b, j), k)
    requires t.Up(t.Up(a, i), k + 1) == t.Up(t.Up(b, j), k + 1)
    ensures t.IsLca(a, b, t.Up(t.Up(a, i), k + 1))
  {
    UpAdd(t, a, i, k);
    UpAdd(t, b, j, k);
    UpAdd(t, a, i, k + 1);
    UpAdd(t, b, j, k + 1);
    MeetingPoint(t, a, b, i + k, j + k);
  }

  /** A vertex above another is their lowest common ancestor. */
  lemma MeetingSelf(t: Tree, a: nat, b: nat, i: nat, j: nat)
    requires t.Valid() && a in t.vertices && b in t.vertices && t.ValidVertex(a) && t.ValidVertex(b)
    requires i <= t.height[a] && j <= t.height[b] && t.Up(a, i) == t.Up(b, j) && (i == 0 || j == 0)
    ensures t.IsLca(a, b, t.Up(a, i))
  {
  }

  // ---- Walking up ----

  class NaiveLCA {
    const tree: Tree

    constructor (t: Tree)
      ensures tree == t
    {
      tree := t;
    }

    method Query(a: nat, b: nat) returns (c: nat)
      requires tree.Valid() && a in tree.vertices && b in tree.vertices
      ensures tree.IsLca(a, b, c)
    {
      var av, bv := a, b;
      ghost var i, j := 0, 0;
      assert tree.ValidVertex(a) && tree.ValidVertex(b);
      if tree.height[av] > tree.height[bv] {
        while tree.height[av] > tree.height[bv]
          invariant i <= tree.height[a] && av == tree.Up(a, i) && tree.height[av] >= tree.height[bv]
          decreases tree.height[av]
        {
          UpAdd(tree, a, i, 1);
          av := tree.parent[av];
          i := i + 1;
        }
      } else if tree.height[bv] > tree.height[av] {
        while tree.height[bv] > tree.height[av]
          invariant j <= tree.height[b] && bv == tree.Up(b, j) && tree.height[bv] >= tree.height[av]
          decreases tree.height[bv]
        {
          UpAdd(tree, b, j, 1);
          bv := tree.parent[bv];
          j := j + 1;
        }
      }
      if av == bv {
        MeetingSelf(tree, a, b, i, j);
        return av;
      }
      c := WalkTogether(a, b, av, bv, i, j);
    }

    /** From two different vertices of equal height, up to where the walks meet. */
    method WalkTogether(ghost a: nat, ghost b: nat, av: nat, bv: nat, ghost i: nat, ghost j: nat) returns (c: nat)
      requires tree.Valid() && a in tree.vertices && b in tree.vertices
      requires tree.ValidVertex(a) && tree.ValidVertex(b) && i <= tree.height[a] && j <= tree.height[b]
      requires av == tree.Up(a, i) && bv == tree.Up(b, j)
      requires av != bv && tree.height[av] == tree.height[bv]
      ensures tree.IsLca(a, b, c)
    {
      var cv;
      ghost var k := 0;
      c, cv := av, bv;
      while c != cv
        invariant k <= tree.height[av] && c == tree.Up(av, k) && cv == tree.Up(bv, k)
        invariant c == cv ==> tree.IsLca(a, b, c)
        decreases tree.height[av] - k
      {
        OnlyRoot(tree, c, cv);
        UpAdd(tree, av, k, 1);
        UpAdd(tree, bv, k, 1);
        if tree.parent[c] == tree.parent[cv] {
          MeetingAbove(tree, a, b, i, j, k);
        }
        c, cv, k := tree.parent[c], tree.parent[cv], k + 1;
      }
    }
  }

  /** Only the root has height 0. */
  lemma OnlyRoot(t: Tree, v: nat, w: nat)
    requires t.Valid() && v in t.vertices && w in t.vertices && v != w
    requires t.ValidVertex(v) && t.ValidVertex(w) && t.height[v] == t.height[w]
    ensures v != t.root && w != t.root && t.height[v] > 0
  {
  }

  // ---- Binary lifting ----

  type Table = map<nat, map<nat, nat>>

  /** Entry d of the vector of v; nothing past its end. */
  function Entry(anc: Table, v: nat, d: nat): Option<nat> {
    if v in anc && d in anc[v] then Some(anc[v][d]) else None
  }

  /** Entry d of v, if it is there, is the 2^d-th ancestor. */
  ghost predicate EntrySound(t: Tree, anc: Table, v: nat, d: nat)
    requires t.Valid() && v in t.vertices
  {
    && t.ValidVertex(v)
    && (Entry(anc, v, d).Some? ==> Pow2(d) <= t.height[v] && Entry(anc, v, d).value == t.Up(v, Pow2(d)))
  }

  ghost predicate Sound(t: Tree, anc: Table)
    requires t.Valid()
  {
    forall v, d {:trigger Entry(anc, v, d)} :: v in t.vertices ==> EntrySound(t, anc, v, d)
  }

  /** Entry d of v is there if the tree is high enough above v. */
  ghost predicate EntryThere(t: Tree, anc: Table, v: nat, d: nat)
    requires t.Valid() && v in t.vertices
  {
    t.ValidVertex(v) && (Pow2(d) <= t.height[v] ==> Entry(anc, v, d).Some?)
  }

  /** Level d is filled in for the first k vertices. */
  ghost predicate LevelFilled(t: Tree, anc: Table, d: nat, k: nat)
    requires t.Valid() && k <= |t.vertices|
  {
    forall i {:trigger t.vertices[i]} :: 0 <= i < k ==> EntryThere(t, anc, t.vertices[i], d)
  }

  ghost predicate Filled(t: Tree, anc: Table, levels: nat)
    requires t.Valid()
  {
    forall d :: 0 <= d < levels ==> LevelFilled(t, anc, d, |t.vertices|)
  }

  /** What the table holds: exactly the ancestors at the powers of two. */
  lemma EntryIs(t: Tree, anc: Table, levels: nat, v: nat, d: nat)
    requires t.Valid() && Sound(t, anc) && Filled(t, anc, levels) && d < levels && v in t.vertices
    ensures t.ValidVertex(v)
    ensures Entry(anc, v, d) == if Pow2(d) <= t.height[v] then Some(t.Up(v, Pow2(d))) else None
  {
    var i :| 0 <= i < |t.vertices| && t.vertices[i] == v;
    assert LevelFilled(t, anc, d, |t.vertices|);
    assert EntryThere(t, anc, t.vertices[i], d);
    assert EntrySound(t, anc, v, d);
  }

  /** Adding one sound entry. */
  lemma EntryAdded(t: Tree, anc: Table, anc': Table, v: nat, d: nat, a: nat, levels: nat)
    requires t.Valid() && Sound(t, anc) && Filled(t, anc, levels)
    requires v in t.vertices && t.ValidVertex(v) && Pow2(d) <= t.height[v] && a == t.Up(v, Pow2(d))
    requires forall w, e :: Entry(anc', w, e) == if w == v && e == d then Some(a) else Entry(anc, w, e)
    ensures Sound(t, anc') && Filled(t, anc', levels)
  {
    forall w, e | w in t.vertices
      ensures EntrySound(t, anc', w, e)
    {
      assert EntrySound(t, anc, w, e);
    }
    forall e | 0 <= e < levels
      ensures LevelFilled(t, anc', e, |t.vertices|)
    {
      LevelKept(t, anc, anc', e, |t.vertices|);
    }
  }

  lemma LevelKept(t: Tree, anc: Table, anc': Table, d: nat, k: nat)
    requires t.Valid() && k <= |t.vertices| && LevelFilled(t, anc, d, k)
    requires forall w, e :: Entry(anc, w, e).Some? ==> Entry(anc', w, e).Some?
    ensures LevelFilled(t, anc', d, k)
  {
    forall i | 0 <= i < k
      ensures EntryThere(t, anc', t.vertices[i], d)
    {
      assert EntryThere(t, anc, t.vertices[i], d);
    }
  }

  function Doubled(anc: Table, v: nat, d: nat): Option<nat>
    requires d > 0
  {
    match Entry(anc, v, d - 1)
    case None => None
    case Some(a) => Entry(anc, a, d - 1)
  }

  lemma SecondStep(t: Tree, anc: Table, v: nat, d: nat, p: nat, a: nat)
    requires t.Valid() && Sound(t, anc) && Filled(t, anc, d) && d > 0 && p == Pow2(d - 1)
    requires v in t.vertices && t.ValidVertex(v) && p <= t.height[v] && a == t.Up(v, p)
    ensures Entry(anc, a, d - 1) == if p + p <= t.height[v] then Some(t.Up(v, p + p)) else None
  {
    EntryIs(t, anc, d, a, d - 1);
    if p + p <= t.height[v] {
      UpAdd(t, v, p, p);
    }
  }

  /** Two steps of 2^(d-1). */
  lemma DoubledIs(t: Tree, anc: Table, v: nat, d: nat)
    requires t.Valid() && Sound(t, anc) && Filled(t, anc, d) && d > 0 && v in t.vertices
    ensures t.ValidVertex(v)
    ensures Doubled(anc, v, d) == if Pow2(d) <= t.height[v] then Some(t.Up(v, Pow2(d))) else None
  {
    EntryIs(t, anc, d, v, d - 1);
    TwoSteps(t, anc, v, d, Pow2(d - 1), Pow2(d));
  }

  lemma TwoSteps(t: Tree, anc: Table, v: nat, d: nat, p: nat, q: nat)
    requires t.Valid() && Sound(t, anc) && Filled(t, anc, d) && d > 0 && v in t.vertices && t.ValidVertex(v)
    requires p == Pow2(d - 1) && q == p + p
    requires Entry(anc, v, d - 1) == if p <= t.height[v] then Some(t.Up(v, p)) else None
    ensures Doubled(anc, v, d) == if q <= t.height[v] then Some(t.Up(v, q)) else None
  {
    if p <= t.height[v] {
      SecondStep(t, anc, v, d, p, t.Up(v, p));
    }
  }

  /** The largest height among the first k vertices. */
  ghost function Highest(t: Tree, k: nat): (h: nat)
    requires t.Valid() && k <= |t.vertices|
    ensures forall i :: 0 <= i < k ==> t.ValidVertex(t.vertices[i]) && t.height[t.vertices[i]] <= h
  {
    if k == 0 then 0
    else
      assert t.ValidVertex(t.vertices[k - 1]);
      var r, h := Highest(t, k - 1), t.height[t.vertices[k - 1]];
      if r < h then h else r
  }

  /** Below every vertex there is a leaf, at least as high. */
  lemma {:induction false} LeafBelow(t: Tree, v: nat) returns (w: nat)
    requires t.Valid() && v in t.vertices
    ensures t.ValidVertex(v) && w in t.vertices && t.ValidVertex(w) && !t.HasKid(w)
    ensures t.height[v] <= t.height[w]
    decreases Highest(t, |t.vertices|) - if t.ValidVertex(v) then t.height[v] else 0
  {
    assert t.ValidVertex(v);
    if t.HasKid(v) {
      var k :| k in t.vertices && k in t.parent && t.parent[k] == v;
      assert t.ValidVertex(k);
      w := LeafBelow(t, k);
    } else {
      w := v;
    }
  }

  /** A leaf is no higher than h. */
  ghost predicate LeafBound(t: Tree, v: nat, h: nat) {
    t.ValidVertex(v) && (t.HasKid(v) || t.height[v] <= h)
  }

  /** Among the first k vertices, h is the greatest height of a leaf, or 0. */
  ghost predicate HighestLeaf(t: Tree, k: nat, h: nat)
    requires t.Valid() && k <= |t.vertices|
  {
    && h <= Highest(t, k)
    && forall i {:trigger t.vertices[i]} :: 0 <= i < k ==> LeafBound(t, t.vertices[i], h)
  }

  lemma HighestLeafStep(t: Tree, i: nat, h: nat, next: nat, h': nat)
    requires t.Valid() && i < |t.vertices| && HighestLeaf(t, i, h) && next == i + 1
    requires t.ValidVertex(t.vertices[i])
    requires h' == if t.HasKid(t.vertices[i]) || t.height[t.vertices[i]] <= h then h else t.height[t.vertices[i]]
    ensures HighestLeaf(t, next, h')
  {
    assert Highest(t, next) >= Highest(t, i);
    forall k | 0 <= k < next
      ensures LeafBound(t, t.vertices[k], h')
    {
      assert k < i ==> LeafBound(t, t.vertices[k], h);
    }
  }

  lemma LeavesAreHighest(t: Tree, h: nat)
    requires t.Valid() && HighestLeaf(t, |t.vertices|, h)
    ensures Highest(t, |t.vertices|) == h
  {
    HighestIsReached(t, |t.vertices|);
    if Highest(t, |t.vertices|) > 0 {
      var i :| 0 <= i < |t.vertices| && t.ValidVertex(t.vertices[i])
               && t.height[t.vertices[i]] == Highest(t, |t.vertices|);
      var w := LeafBelow(t, t.vertices[i]);
      var j :| 0 <= j < |t.vertices| && t.vertices[j] == w;
      assert LeafBound(t, t.vertices[j], h);
    }
  }

  /** The condition of the loop over d fails: d > maxHeight - 1, as 32-bit numbers. */
  predicate LoopLeaves(maxHeight: nat, d: nat) {
    d > (maxHeight - 1) % 0x1_0000_0000
  }

  /** The greatest height is 0 exactly if the root is the only vertex. */
  lemma HighestIsZeroIff(t: Tree)
    requires t.Valid()
    ensures Highest(t, |t.vertices|) == 0 <==> forall v :: v in t.vertices ==> v == t.root
  {
    var n := |t.vertices|;
    HighestIsReached(t, n);
    if Highest(t, n) == 0 {
      forall v | v in t.vertices
        ensures v == t.root
      {
        var i :| 0 <= i < n && t.vertices[i] == v;
        assert t.ValidVertex(v) && t.height[v] <= Highest(t, n);
      }
    } else {
      var i :| 0 <= i < n && t.ValidVertex(t.vertices[i]) && t.height[t.vertices[i]] == Highest(t, n);
      assert t.vertices[i] in t.vertices && t.vertices[i] != t.root;
    }
  }

  lemma {:induction false} HighestIsReached(t: Tree, k: nat)
    requires t.Valid() && k <= |t.vertices|
    ensures Highest(t, k) == 0 || exists i :: 0 <= i < k && t.ValidVertex(t.vertices[i])
                                         && t.height[t.vertices[i]] == Highest(t, k)
  {
    if k > 0 {
      assert t.ValidVertex(t.vertices[k - 1]);
      HighestIsReached(t, k - 1);
    }
  }

  /** With the greatest height found in the tree, the loop of standInLine can end exactly if some vertex
      is not the root: on a tree of one vertex its bound wraps around and the loop runs on for ever. */
  lemma LoopEndsIff(t: Tree)
    requires t.Valid() && Highest(t, |t.vertices|) < 0x1_0000_0000
    ensures (exists d :: 0 <= d < 0x1_0000_0000 && LoopLeaves(Highest(t, |t.vertices|), d))
       <==> exists v :: v in t.vertices && v != t.root
  {
    HighestIsZeroIff(t);
    var h := Highest(t, |t.vertices|);
    if h > 0 {
      assert LoopLeaves(h, h);
    }
  }

  /** A tree on which it does not. */
  lemma LoneRootNeverLeaves()
    ensures var t := Tree([1], 1, map[], map[1 := 0]);
      t.Valid() && forall d :: 0 <= d < 0x1_0000_0000 ==> !LoopLeaves(Highest(t, |t.vertices|), d)
  {
    var t := Tree([1], 1, map[], map[1 := 0]);
    assert t.ValidVertex(1);
    HighestIsZeroIff(t);
  }

  /** All heights are below 2^m, so m levels of the table suffice. */
  ghost predicate Enough(t: Tree, m: nat)
    requires t.Valid()
  {
    m > 0 && forall v {:trigger t.ValidVertex(v)} :: v in t.vertices && t.ValidVertex(v) ==> t.height[v] < Pow2(m)
  }

  /** Vertices a and b of equal height are one, or have one ancestor, at distance m, if the tree goes
      that high. */
  ghost predicate MeetWithin(t: Tree, a: nat, b: nat, m: nat)
    requires t.Valid()
  {
    && a in t.vertices && b in t.vertices && t.ValidVertex(a) && t.ValidVertex(b)
    && t.height[a] == t.height[b]
    && t.Up(a, Min(m, t.height[a])) == t.Up(b, Min(m, t.height[b]))
  }

  lemma {:induction false} MeetAtRoot(t: Tree, v: nat)
    requires t.Valid() && v in t.vertices && t.ValidVertex(v)
    ensures t.Up(v, t.height[v]) == t.root
    decreases t.height[v]
  {
    if v != t.root {
      assert t.ValidVertex(t.parent[v]);
      MeetAtRoot(t, t.parent[v]);
    }
  }

  /** One step of the search halves the distance. */
  lemma MeetNearer(t: Tree, a: nat, b: nat, p: nat)
    requires t.Valid() && MeetWithin(t, a, b, 2 * p)
    requires t.height[a] < p || t.Up(a, p) == t.Up(b, p)
    ensures MeetWithin(t, a, b, p)
  {
  }

  lemma MeetHigher(t: Tree, a: nat, b: nat, p: nat)
    requires t.Valid() && MeetWithin(t, a, b, 2 * p) && p <= t.height[a]
    ensures MeetWithin(t, t.Up(a, p), t.Up(b, p), p)
  {
    var m := Min(p, t.height[a] - p);
    assert p + m == Min(2 * p, t.height[a]);
    UpAdd(t, a, p, m);
    UpAdd(t, b, p, m);
  }

  /** The number with the bits q from bit d on and the lower bits low. */
  function FromBits(d: nat, q: nat, low: nat): nat {
    Pow2(d) * q + low
  }

  lemma BitsDone(dis: nat, d: nat, q: nat, low: nat)
    requires q == dis / Pow2(d) && dis == FromBits(d, q, low) && dis < Pow2(d)
    ensures low == dis
  {
    DivModUnique(dis, Pow2(d), 0, dis);
  }

  /** Splitting off one more bit. */
  lemma BitStep(dis: nat, d: nat, q: nat, low: nat)
    requires q == dis / Pow2(d) && low < Pow2(d) && dis == FromBits(d, q, low)
    ensures var low' := if q % 2 == 1 then low + Pow2(d) else low;
      && low' < Pow2(d + 1) && dis == FromBits(d + 1, q / 2, low') && q / 2 == dis / Pow2(d + 1)
      && low' <= dis
  {
    var p, h := Pow2(d), q / 2;
    var low' := if q % 2 == 1 then low + p else low;
    Halve(p, q, h);
    DivModUnique(dis, 2 * p, h, low');
  }

  lemma Halve(p: nat, q: nat, h: nat)
    requires h == q / 2
    ensures p * q == (2 * p) * h + (if q % 2 == 1 then p else 0) && (2 * p) * h >= 0
  {
    assert q == 2 * h + q % 2;
    assert p * (2 * h) == (2 * p) * h;
    assert p * (2 * h + 1) == p * (2 * h) + p;
  }

  lemma HeightEnough(t: Tree)
    requires t.Valid() && exists v :: v in t.vertices && v != t.root
    ensures Enough(t, Highest(t, |t.vertices|))
  {
    HighestIsZeroIff(t);
    forall v | v in t.vertices && t.ValidVertex(v)
      ensures t.height[v] < Pow2(Highest(t, |t.vertices|))
    {
      var i :| 0 <= i < |t.vertices| && t.vertices[i] == v;
    }
  }

  class BinLCA {
    const tree: Tree
    var maxHeight: Option<nat>
    var anc: Table

    ghost predicate Valid()
      reads this
    {
      tree.Valid() && Sound(tree, anc)
    }

    constructor (t: Tree)
      requires t.Valid()
      ensures Valid() && tree == t && maxHeight == None
    {
      tree, maxHeight, anc := t, None, map[];
      new;
      forall v, d | v in t.vertices
        ensures EntrySound(t, anc, v, d)
      {
        assert t.ValidVertex(v);
      }
    }

    method SetMaxHeight(max: nat)
      modifies this`maxHeight
      ensures maxHeight == Some(max)
    {
      maxHeight := Some(max);
    }

    /** vec->set(d, a) on the vector of v, allocated if need be. */
    method SetAncestor(v: nat, d: nat, a: nat)
      modifies this`anc
      ensures forall w, e ::
                Entry(anc, w, e) == if w == v && e == d then Some(a) else Entry(old(anc), w, e)
    {
      var vec := if v in anc then anc[v] else map[];
      anc := anc[v := vec[d := a]];
    }

    method InitAncestorDisTab()
      requires Valid() && maxHeight.Some?
      modifies this`anc
      ensures Valid() && Filled(tree, anc, Max(maxHeight.value, 1))
    {
      FillParents();
      if maxHeight.value <= 1 {
        return;
      }
      var maxDistance := maxHeight.value - 1;
      var d := 1;
      while d <= maxDistance
        invariant 1 <= d <= maxHeight.value && Valid() && Filled(tree, anc, d)
      {
        FillLevel(d);
        d := d + 1;
      }
    }

    method FillParents()
      requires Valid()
      modifies this`anc
      ensures Valid() && Filled(tree, anc, 1)
    {
      for i := 0 to |tree.vertices|
        invariant Valid() && LevelFilled(tree, anc, 0, i)
      {
        var v := tree.vertices[i];
        assert tree.ValidVertex(v);
        var parent := tree.Parent(v);
        ghost var before := anc;
        if parent.Some? {
          SetAncestor(v, 0, parent.value);
          EntryAdded(tree, before, anc, v, 0, parent.value, 0);
        }
        LevelKept(tree, before, anc, 0, i);
      }
    }

    method FillLevel(d: nat)
      requires Valid() && d > 0 && Filled(tree, anc, d)
      modifies this`anc
      ensures Valid() && Filled(tree, anc, d + 1)
    {
      for i := 0 to |tree.vertices|
        invariant Valid() && Filled(tree, anc, d) && LevelFilled(tree, anc, d, i)
      {
        var v := tree.vertices[i];
        DoubledIs(tree, anc, v, d);
        var a := Entry(anc, v, d - 1);
        if a.None? {
          continue;
        }
        var a2 := Entry(anc, a.value, d - 1);
        if a2.None? {
          continue;
        }
        ghost var before := anc;
        SetAncestor(v, d, a2.value);
        EntryAdded(tree, before, anc, v, d, a2.value, d);
        LevelKept(tree, before, anc, d, i);
      }
    }

    /** Only leaves are looked at. */
    method FindMaxHeight() returns (maxHeight: nat)
      requires tree.Valid()
      ensures maxHeight == Highest(tree, |tree.vertices|)
    {
      maxHeight := 0;
      for i := 0 to |tree.vertices|
        invariant HighestLeaf(tree, i, maxHeight)
      {
        var v := tree.vertices[i];
        assert tree.ValidVertex(v);
        ghost var h := maxHeight;
        if !tree.HasKid(v) {
          maxHeight := if tree.height[v] > maxHeight then tree.height[v] else maxHeight;
        }
        HighestLeafStep(tree, i, h, i + 1, maxHeight);
      }
      LeavesAreHighest(tree, maxHeight);
    }

    /** Climbs dis levels, one table entry for every bit of dis. */
    method Climb(v: nat, dis: nat) returns (pv: nat)
      requires Valid() && maxHeight.Some? && maxHeight.value > 0 && Filled(tree, anc, maxHeight.value)
      requires v in tree.vertices && tree.ValidVertex(v) && dis <= tree.height[v] && dis < Pow2(maxHeight.value)
      ensures pv == tree.Up(v, dis)
    {
      var maxDistance := maxHeight.value - 1;
      pv := v;
      var d: nat := 0;
      ghost var q: nat, low: nat := dis, 0;
      while d <= maxDistance
        invariant d <= maxHeight.value && q == dis / Pow2(d) && low < Pow2(d) && dis == FromBits(d, q, low)
        invariant low <= dis && pv == tree.Up(v, low)
      {
        pv, d, q, low := ClimbStep(v, dis, pv, d, q, low);
      }
      BitsDone(dis, d, q, low);
    }

    /** Climbs 2^d levels if bit d of dis is set. */
    method ClimbStep(ghost v: nat, dis: nat, pv: nat, d: nat, ghost q: nat, ghost low: nat)
      returns (pv': nat, d': nat, ghost q': nat, ghost low': nat)
      requires Valid() && maxHeight.Some? && d < maxHeight.value && Filled(tree, anc, maxHeight.value)
      requires v in tree.vertices && tree.ValidVertex(v) && low <= dis <= tree.height[v]
      requires q == dis / Pow2(d) && low < Pow2(d) && dis == FromBits(d, q, low) && pv == tree.Up(v, low)
      ensures d' == d + 1 && q' == dis / Pow2(d') && low' < Pow2(d') && dis == FromBits(d', q', low')
      ensures low' <= dis && pv' == tree.Up(v, low')
    {
      BitStep(dis, d, q, low);
      pv', d', q', low' := pv, d + 1, q / 2, low;
      if (dis / Pow2(d)) % 2 == 1 {
        EntryIs(tree, anc, maxHeight.value, pv, d);
        UpAdd(tree, v, low, Pow2(d));
        pv', low' := Entry(anc, pv, d).value, low + Pow2(d);
      }
    }

    /** Lifts the deeper vertex to the height of the other. */
    method StandInLine(a: nat, b: nat) returns (av: nat, bv: nat)
      requires Valid() && maxHeight.Some? && Enough(tree, maxHeight.value)
      requires Filled(tree, anc, maxHeight.value)
      requires a in tree.vertices && b in tree.vertices && tree.ValidVertex(a) && tree.ValidVertex(b)
      ensures av == if tree.height[a] < tree.height[b] then a else tree.Up(a, tree.height[a] - tree.height[b])
      ensures bv == if tree.height[a] < tree.height[b] then tree.Up(b, tree.height[b] - tree.height[a]) else b
    {
      var ah, bh := tree.height[a], tree.height[b];
      av, bv := a, b;
      if ah < bh {
        bv := Climb(b, bh - ah);
      } else {
        av := Climb(a, ah - bh);
      }
    }

    /** Moves two different vertices of equal height to just below their lowest common ancestor. */
    method Approach(a: nat, b: nat) returns (av: nat, ghost i: nat)
      requires Valid() && maxHeight.Some? && Enough(tree, maxHeight.value)
      requires Filled(tree, anc, maxHeight.value)
      requires a in tree.vertices && b in tree.vertices && tree.ValidVertex(a) && tree.ValidVertex(b)
      requires a != b && tree.height[a] == tree.height[b]
      ensures i < tree.height[a] && av == tree.Up(a, i) && av != tree.Up(b, i)
      ensures tree.Up(a, i + 1) == tree.Up(b, i + 1)
    {
      var bv;
      av, bv, i := a, b, 0;
      MeetAtRoot(tree, a);
      MeetAtRoot(tree, b);
      var d: nat := maxHeight.value;
      while d > 0
        invariant d <= maxHeight.value
        invariant i <= tree.height[a] && av == tree.Up(a, i) && bv == tree.Up(b, i) && av != bv
        invariant MeetWithin(tree, av, bv, Pow2(d))
      {
        d := d - 1;
        av, bv, i := ApproachStep(a, b, av, bv, i, d);
      }
      OnlyRoot(tree, av, bv);
      assert Pow2(d) == 1;
      UpAdd(tree, a, i, 1);
      UpAdd(tree, b, i, 1);
    }

    /** Both vertices climb 2^d levels, unless that leads to the same vertex or out of the tree. */
    method ApproachStep(ghost a: nat, ghost b: nat, av: nat, bv: nat, ghost i: nat, d: nat)
      returns (av': nat, bv': nat, ghost i': nat)
      requires Valid() && maxHeight.Some? && d < maxHeight.value && Filled(tree, anc, maxHeight.value)
      requires a in tree.vertices && b in tree.vertices && tree.ValidVertex(a) && tree.ValidVertex(b)
      requires tree.height[a] == tree.height[b] && i <= tree.height[a]
      requires av == tree.Up(a, i) && bv == tree.Up(b, i) && av != bv
      requires MeetWithin(tree, av, bv, 2 * Pow2(d))
      ensures i' <= tree.height[a] && av' == tree.Up(a, i') && bv' == tree.Up(b, i') && av' != bv'
      ensures MeetWithin(tree, av', bv', Pow2(d))
    {
      EntryIs(tree, anc, maxHeight.value, av, d);
      EntryIs(tree, anc, maxHeight.value, bv, d);
      var ancA, ancB := Entry(anc, av, d), Entry(anc, bv, d);
      av', bv', i' := av, bv, i;
      if ancA != ancB {
        UpAdd(tree, a, i, Pow2(d));
        UpAdd(tree, b, i, Pow2(d));
        MeetHigher(tree, av, bv, Pow2(d));
        av', bv', i' := ancA.value, ancB.value, i + Pow2(d);
      } else {
        MeetNearer(tree, av, bv, Pow2(d));
      }
    }

    /** The height is found once; the table is filled again by every query. */
    method Query(a: nat, b: nat) returns (c: nat)
      requires Valid() && a in tree.vertices && b in tree.vertices
      requires maxHeight.None? ==> exists v :: v in tree.vertices && v != tree.root
      requires maxHeight.Some? ==> Enough(tree, maxHeight.value)
      modifies this
      ensures Valid() && tree.IsLca(a, b, c)
      ensures maxHeight.Some? && Enough(tree, maxHeight.value)
      ensures old(maxHeight).Some? ==> maxHeight == old(maxHeight)
    {
      if maxHeight.None? {
        var h := FindMaxHeight();
        maxHeight := Some(h);
        HeightEnough(tree);
      }
      assert tree.ValidVertex(a) && tree.ValidVertex(b);
      InitAncestorDisTab();
      var av, bv := StandInLine(a, b);
      c := MeetingVertex(a, b, av, bv);
    }

    /** The lowest common ancestor, once av and bv above a and b are level. */
    method MeetingVertex(ghost a: nat, ghost b: nat, av: nat, bv: nat) returns (c: nat)
      requires Valid() && maxHeight.Some? && Enough(tree, maxHeight.value)
      requires Filled(tree, anc, maxHeight.value)
      requires a in tree.vertices && b in tree.vertices && tree.ValidVertex(a) && tree.ValidVertex(b)
      requires av == if tree.height[a] < tree.height[b] then a else tree.Up(a, tree.height[a] - tree.height[b])
      requires bv == if tree.height[a] < tree.height[b] then tree.Up(b, tree.height[b] - tree.height[a]) else b
      ensures tree.IsLca(a, b, c)
    {
      ghost var i, j := tree.height[a] - tree.height[av], tree.height[b] - tree.height[bv];
      if av == bv {
        MeetingSelf(tree, a, b, i, j);
        return av;
      }
      ghost var k;
      var below;
      below, k := Approach(av, bv);
      MeetingAbove(tree, a, b, i, j, k);
      EntryIs(tree, anc, maxHeight.value, below, 0);
      UpAdd(tree, av, k, 1);
      return Entry(anc, below, 0).value;
    }
  }
}
