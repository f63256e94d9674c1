/** The segment tree, against counting per point. */
module SegTrees {
  import opened Arithmetic

  /** A tree node's interval and count. */
  datatype Seg = Seg(start: nat, end: nat, count: nat)

  type Segs = map<nat, Seg>
  type Kids = map<nat, seq<nat>>
  type Range = (nat, nat)

  // ---- Counting per point ----

  predicate Overlap(r: Range, s: nat, e: nat) {
    r.0 <= e && s <= r.1
  }

  /** How many of the ranges meet [s, e]; for s = e, how many cover the point. */
  ghost function Touching(h: seq<Range>, s: nat, e: nat): nat {
    if h == [] then 0
    else Touching(h[..|h| - 1], s, e) + if Overlap(h[|h| - 1], s, e) then 1 else 0
  }

  /** The most ranges that cover one point of [s, e]. */
  ghost function Peak(h: seq<Range>, s: nat, e: nat): nat
    requires s <= e
    decreases e - s
  {
    if s == e then Touching(h, s, s) else Max(Touching(h, s, s), Peak(h, s + 1, e))
  }

  /** Peak is a maximum over points. */
  lemma {:induction false} PeakIsMaximum(h: seq<Range>, s: nat, e: nat) returns (p: nat)
    requires s <= e
    ensures s <= p <= e && Touching(h, p, p) == Peak(h, s, e)
    ensures forall q :: s <= q <= e ==> Touching(h, q, q) <= Peak(h, s, e)
    decreases e - s
  {
    p := s;
    if s < e {
      p := PeakIsMaximum(h, s + 1, e);
      if Touching(h, s, s) > Touching(h, p, p) {
        p := s;
      }
    }
  }

  lemma {:induction false} PeakSplit(h: seq<Range>, s: nat, m: nat, e: nat)
    requires s <= m < e
    ensures Peak(h, s, e) == Max(Peak(h, s, m), Peak(h, m + 1, e))
    decreases m - s
  {
    if s < m {
      PeakSplit(h, s + 1, m, e);
    }
  }

  /** Histories that meet the same intervals inside [s, e]. */
  ghost predicate Agree(h: seq<Range>, h': seq<Range>, s: nat, e: nat) {
    forall a, b :: s <= a <= b <= e ==> Touching(h, a, b) == Touching(h', a, b)
  }

  lemma {:induction false} PeakAgree(h: seq<Range>, h': seq<Range>, s: nat, e: nat)
    requires s <= e && Agree(h, h', s, e)
    ensures Peak(h, s, e) == Peak(h', s, e)
    decreases e - s
  {
    if s < e {
      PeakAgree(h, h', s + 1, e);
    }
  }

  lemma TouchingLast(h: seq<Range>, r: Range, s: nat, e: nat)
    ensures Touching(h + [r], s, e) == Touching(h, s, e) + if Overlap(r, s, e) then 1 else 0
  {
    assert (h + [r])[..|h|] == h;
  }

  /** Only what lies in [s, e] matters of a range. */
  lemma Clipped(h: seq<Range>, r: Range, r': Range, s: nat, e: nat)
    requires forall a, b :: s <= a <= b <= e ==> (Overlap(r, a, b) <==> Overlap(r', a, b))
    ensures Agree(h + [r], h + [r'], s, e)
  {
    forall a, b | s <= a <= b <= e
      ensures Touching(h + [r], a, b) == Touching(h + [r'], a, b)
    {
      TouchingLast(h, r, a, b);
      TouchingLast(h, r', a, b);
    }
  }

  lemma Missed(h: seq<Range>, r: Range, s: nat, e: nat)
    requires !Overlap(r, s, e)
    ensures Agree(h, h + [r], s, e)
  {
    forall a, b | s <= a <= b <= e
      ensures Touching(h, a, b) == Touching(h + [r], a, b)
    {
      TouchingLast(h, r, a, b);
    }
  }

  // ---- The tree ----

  function Mid(s: nat, e: nat): nat {
    (s + e) / 2
  }

  /** The number of nodes of the tree over [s, e]. */
  function Size(s: nat, e: nat): nat
    requires s <= e
  {
    2 * (e - s) + 1
  }

  /** The tree over [s, e] with root v; its vertices are numbered from v on in preorder. */
  ghost predicate Shape(segs: Segs, kids: Kids, v: nat, s: nat, e: nat)
    decreases e - s
  {
    && v > 0 && v in segs && v in kids && s <= e && segs[v].start == s && segs[v].end == e
    && if s == e then kids[v] == []
       else
         var m := Mid(s, e);
         && kids[v] == [v + 1, v + 1 + Size(s, m)]
         && Shape(segs, kids, v + 1, s, m) && Shape(segs, kids, v + 1 + Size(s, m), m + 1, e)
  }

  /** v is a leaf over one point, or its kids hold the two halves of its interval, the left one not the smaller
      and at most one point larger. */
  ghost predicate Halved(segs: Segs, kids: Kids, v: nat) {
    && v in segs && v in kids
    && if kids[v] == [] then segs[v].start == segs[v].end
       else
         && |kids[v]| == 2 && kids[v][0] in segs && kids[v][1] in segs
         && var l, r := segs[kids[v][0]], segs[kids[v][1]];
         && segs[v].start == l.start <= l.end && l.end + 1 == r.start <= r.end == segs[v].end
         && (r.end - r.start == l.end - l.start || r.end - r.start == l.end - l.start - 1)
  }

  /** No branch below v is longer than d. */
  ghost predicate DepthAtMost(kids: Kids, v: nat, d: nat)
    decreases d
  {
    && v in kids
    && (kids[v] != [] ==> d > 0)
    && (d > 0 ==> forall i :: 0 <= i < |kids[v]| ==> DepthAtMost(kids, kids[v][i], d - 1))
  }

  lemma {:induction false} ShapeIsHalved(segs: Segs, kids: Kids, v: nat, s: nat, e: nat, k: nat)
    requires Shape(segs, kids, v, s, e) && v <= k < v + Size(s, e)
    ensures Halved(segs, kids, k)
    decreases e - s
  {
    if s < e {
      var m := Mid(s, e);
      if v < k < v + 1 + Size(s, m) {
        ShapeIsHalved(segs, kids, v + 1, s, m, k);
      } else if v < k {
        ShapeIsHalved(segs, kids, v + 1 + Size(s, m), m + 1, e, k);
      }
    }
  }

  /** The tree over at most 2^d points, and no other, has a depth of at most d. */
  lemma {:induction false} DepthIsLogarithm(segs: Segs, kids: Kids, v: nat, s: nat, e: nat, d: nat)
    requires Shape(segs, kids, v, s, e)
    ensures DepthAtMost(kids, v, d) <==> e - s + 1 <= Pow2(d)
    decreases d
  {
    if s < e && d > 0 {
      var m := Mid(s, e);
      DepthIsLogarithm(segs, kids, v + 1, s, m, d - 1);
      DepthIsLogarithm(segs, kids, v + 1 + Size(s, m), m + 1, e, d - 1);
      assert kids[v][0] == v + 1 && kids[v][1] == v + 1 + Size(s, m);
    }
  }

  /** What a node over [s, e] counts. */
  ghost function Expected(acc: bool, h: seq<Range>, s: nat, e: nat): nat
    requires s <= e
  {
    if acc then Touching(h, s, e) else Peak(h, s, e)
  }

  /** Every node of the tree over [s, e] counts what it should after the ranges h. */
  ghost predicate Counted(segs: Segs, v: nat, s: nat, e: nat, acc: bool, h: seq<Range>)
    requires s <= e
    decreases e - s
  {
    && v in segs && segs[v].count == Expected(acc, h, s, e)
    && (s < e ==>
          var m := Mid(s, e);
          Counted(segs, v + 1, s, m, acc, h) && Counted(segs, v + 1 + Size(s, m), m + 1, e, acc, h))
  }

  /** The two tables are alike on the n vertices from v on. */
  ghost predicate SameFrom(segs: Segs, segs': Segs, v: nat, n: nat) {
    forall k :: v <= k < v + n && k in segs ==> k in segs' && segs'[k] == segs[k]
  }

  ghost predicate SameIntervals(segs: Segs, segs': Segs) {
    forall k :: k in segs ==> k in segs' && segs'[k].start == segs[k].start && segs'[k].end == segs[k].end
  }

  lemma {:induction false} ShapeKept(segs: Segs, segs': Segs, kids: Kids, v: nat, s: nat, e: nat)
    requires Shape(segs, kids, v, s, e) && SameIntervals(segs, segs')
    ensures Shape(segs', kids, v, s, e)
    decreases e - s
  {
    if s < e {
      var m := Mid(s, e);
      ShapeKept(segs, segs', kids, v + 1, s, m);
      ShapeKept(segs, segs', kids, v + 1 + Size(s, m), m + 1, e);
    }
  }

  lemma {:induction false} CountedKept(segs: Segs, segs': Segs, v: nat, s: nat, e: nat, acc: bool, h: seq<Range>)
    requires s <= e && Counted(segs, v, s, e, acc, h) && SameFrom(segs, segs', v, Size(s, e))
    ensures Counted(segs', v, s, e, acc, h)
    decreases e - s
  {
    if s < e {
      var m := Mid(s, e);
      CountedKept(segs, segs', v + 1, s, m, acc, h);
      CountedKept(segs, segs', v + 1 + Size(s, m), m + 1, e, acc, h);
    }
  }

  lemma {:induction false} CountedAgree(segs: Segs, v: nat, s: nat, e: nat, acc: bool, h: seq<Range>, h': seq<Range>)
    requires s <= e && Counted(segs, v, s, e, acc, h) && Agree(h, h', s, e)
    ensures Counted(segs, v, s, e, acc, h')
    decreases e - s
  {
    PeakAgree(h, h', s, e);
    if s < e {
      var m := Mid(s, e);
      CountedAgree(segs, v + 1, s, m, acc, h, h');
      CountedAgree(segs, v + 1 + Size(s, m), m + 1, e, acc, h, h');
    }
  }

  /** The kids of the changed root count the range r, and so does the root itself. */
  lemma CountedUp(segs: Segs, v: nat, s: nat, e: nat, acc: bool, h: seq<Range>, r: Range)
    requires s < e && v in segs && Overlap(r, s, e) && r.0 <= r.1
    requires Counted(segs, v + 1, s, Mid(s, e), acc, h + [r])
    requires Counted(segs, v + 1 + Size(s, Mid(s, e)), Mid(s, e) + 1, e, acc, h + [r])
    requires acc ==> segs[v].count == Touching(h, s, e) + 1
    requires !acc ==>
               segs[v].count == Max(segs[v + 1].count, segs[v + 1 + Size(s, Mid(s, e))].count)
    ensures Counted(segs, v, s, e, acc, h + [r])
  {
    TouchingLast(h, r, s, e);
    PeakSplit(h + [r], s, Mid(s, e), e);
  }

  /** The part of the tree that r does not reach. */
  lemma CountedMissed(segs: Segs, segs': Segs, v: nat, s: nat, e: nat, acc: bool, h: seq<Range>, r: Range)
    requires s <= e && Counted(segs, v, s, e, acc, h) && SameFrom(segs, segs', v, Size(s, e))
    requires !Overlap(r, s, e)
    ensures Counted(segs', v, s, e, acc, h + [r])
  {
    CountedKept(segs, segs', v, s, e, acc, h);
    Missed(h, r, s, e);
    CountedAgree(segs', v, s, e, acc, h, h + [r]);
  }

  /** The part of the tree that was updated with the clipped range r'. */
  lemma CountedClipped(segs: Segs, segs': Segs, v: nat, s: nat, e: nat, acc: bool, h: seq<Range>,
                       r: Range, r': Range)
    requires s <= e && Counted(segs, v, s, e, acc, h + [r']) && SameFrom(segs, segs', v, Size(s, e))
    requires r' == (Max(r.0, s), if r.1 < e then r.1 else e)
    ensures Counted(segs', v, s, e, acc, h + [r])
  {
    CountedKept(segs, segs', v, s, e, acc, h + [r']);
    Clipped(h, r', r, s, e);
    CountedAgree(segs', v, s, e, acc, h + [r'], h + [r]);
  }

  /** The tree over [s, e] from v on was updated with the range r, and nothing else. */
  ghost predicate Entered(segs0: Segs, segs: Segs, v: nat, s: nat, e: nat, acc: bool, h: seq<Range>, r: Range)
    requires s <= e
  {
    && segs.Keys == segs0.Keys && SameIntervals(segs0, segs)
    && (forall k :: k in segs && !(v <= k < v + Size(s, e)) ==> segs[k] == segs0[k])
    && Counted(segs, v, s, e, acc, h + [r])
  }

  /** Both kids are updated with the range r; of the root, nothing is changed yet. */
  ghost predicate KidsEntered(segs0: Segs, segs: Segs, v: nat, s: nat, e: nat, acc: bool, h: seq<Range>, r: Range)
    requires s < e
  {
    && segs.Keys == segs0.Keys && SameIntervals(segs0, segs)
    && (forall k :: k in segs && !(v < k < v + Size(s, e)) ==> segs[k] == segs0[k])
    && Counted(segs, v + 1, s, Mid(s, e), acc, h + [r])
    && Counted(segs, v + 1 + Size(s, Mid(s, e)), Mid(s, e) + 1, e, acc, h + [r])
  }

  lemma LeftEntered(segs0: Segs, segs: Segs, v: nat, s: nat, e: nat, acc: bool, h: seq<Range>, r: Range)
    requires s < e && r.1 <= Mid(s, e)
    requires Counted(segs0, v, s, e, acc, h) && Entered(segs0, segs, v + 1, s, Mid(s, e), acc, h, r)
    ensures KidsEntered(segs0, segs, v, s, e, acc, h, r)
  {
    CountedMissed(segs0, segs, v + 1 + Size(s, Mid(s, e)), Mid(s, e) + 1, e, acc, h, r);
  }

  lemma RightEntered(segs0: Segs, segs: Segs, v: nat, s: nat, e: nat, acc: bool, h: seq<Range>, r: Range)
    requires s < e && Mid(s, e) < r.0
    requires Counted(segs0, v, s, e, acc, h)
    requires Entered(segs0, segs, v + 1 + Size(s, Mid(s, e)), Mid(s, e) + 1, e, acc, h, r)
    ensures KidsEntered(segs0, segs, v, s, e, acc, h, r)
  {
    CountedMissed(segs0, segs, v + 1, s, Mid(s, e), acc, h, r);
  }

  lemma BothEntered(segs0: Segs, segs1: Segs, segs: Segs, v: nat, s: nat, e: nat, acc: bool,
                    h: seq<Range>, r: Range)
    requires s < e && s <= r.0 <= Mid(s, e) < r.1 <= e
    requires Entered(segs0, segs1, v + 1, s, Mid(s, e), acc, h, (r.0, Mid(s, e)))
    requires Entered(segs1, segs, v + 1 + Size(s, Mid(s, e)), Mid(s, e) + 1, e, acc, h, (Mid(s, e) + 1, r.1))
    ensures KidsEntered(segs0, segs, v, s, e, acc, h, r)
  {
    var m := Mid(s, e);
    CountedClipped(segs1, segs, v + 1, s, m, acc, h, r, (r.0, m));
    CountedClipped(segs, segs, v + 1 + Size(s, m), m + 1, e, acc, h, r, (m + 1, r.1));
  }

  /** The right kid is as before while the left one is updated. */
  lemma RightUntouched(segs0: Segs, segs1: Segs, kids: Kids, v: nat, s: nat, e: nat, acc: bool,
                       h: seq<Range>, r: Range)
    requires s < e && Shape(segs0, kids, v, s, e) && Counted(segs0, v, s, e, acc, h)
    requires Entered(segs0, segs1, v + 1, s, Mid(s, e), acc, h, r)
    ensures Shape(segs1, kids, v + 1 + Size(s, Mid(s, e)), Mid(s, e) + 1, e)
    ensures Counted(segs1, v + 1 + Size(s, Mid(s, e)), Mid(s, e) + 1, e, acc, h)
  {
    ShapeKept(segs0, segs1, kids, v + 1 + Size(s, Mid(s, e)), Mid(s, e) + 1, e);
    CountedKept(segs0, segs1, v + 1 + Size(s, Mid(s, e)), Mid(s, e) + 1, e, acc, h);
  }

  /** The count of the root was changed last. */
  lemma EnteredUp(segs0: Segs, segs1: Segs, segs: Segs, v: nat, s: nat, e: nat, acc: bool, h: seq<Range>, r: Range)
    requires s < e && v in segs0 && KidsEntered(segs0, segs1, v, s, e, acc, h, r)
    requires Overlap(r, s, e) && r.0 <= r.1 && segs0[v].count == Expected(acc, h, s, e)
    requires segs == segs1[v := segs1[v].(count :=
               if acc then segs1[v].count + 1
               else Max(segs1[v + 1].count, segs1[v + 1 + Size(s, Mid(s, e))].count))]
    ensures Entered(segs0, segs, v, s, e, acc, h, r)
  {
    RootChanged(segs1, segs, v, s, e, acc, h + [r]);
    CountedUp(segs, v, s, e, acc, h, r);
  }

  lemma RootChanged(segs1: Segs, segs: Segs, v: nat, s: nat, e: nat, acc: bool, h: seq<Range>)
    requires s < e && forall k :: k in segs1 && k != v ==> k in segs && segs[k] == segs1[k]
    requires Counted(segs1, v + 1, s, Mid(s, e), acc, h)
    requires Counted(segs1, v + 1 + Size(s, Mid(s, e)), Mid(s, e) + 1, e, acc, h)
    ensures Counted(segs, v + 1, s, Mid(s, e), acc, h)
    ensures Counted(segs, v + 1 + Size(s, Mid(s, e)), Mid(s, e) + 1, e, acc, h)
  {
    CountedKept(segs1, segs, v + 1, s, Mid(s, e), acc, h);
    CountedKept(segs1, segs, v + 1 + Size(s, Mid(s, e)), Mid(s, e) + 1, e, acc, h);
  }

  /** The vertices are numbered 1 to n. */
  ghost predicate Dense(segs: Segs, kids: Kids, n: nat) {
    && (forall k :: k in segs <==> 1 <= k <= n)
    && (forall k :: k in kids <==> 1 <= k <= n)
  }

  /** Nothing that was there has changed. */
  ghost predicate Extends(segs: Segs, kids: Kids, segs': Segs, kids': Kids) {
    && (forall k :: k in segs ==> k in segs' && segs'[k] == segs[k])
    && (forall k :: k in kids ==> k in kids' && kids'[k] == kids[k])
  }

  /** A subtree that was built stays as it was. */
  lemma {:induction false} BuiltKept(segs: Segs, kids: Kids, segs': Segs, kids': Kids, v: nat, s: nat, e: nat,
                                     acc: bool)
    requires Shape(segs, kids, v, s, e) && Counted(segs, v, s, e, acc, [])
    requires forall k :: v <= k && k in segs ==> k in segs' && segs'[k] == segs[k]
    requires forall k :: v <= k && k in kids ==> k in kids' && kids'[k] == kids[k]
    ensures Shape(segs', kids', v, s, e) && Counted(segs', v, s, e, acc, [])
    decreases e - s
  {
    if s < e {
      var m := Mid(s, e);
      BuiltKept(segs, kids, segs', kids', v + 1, s, m, acc);
      BuiltKept(segs, kids, segs', kids', v + 1 + Size(s, m), m + 1, e, acc);
    }
  }

  lemma {:induction false} NothingCounted(s: nat, e: nat)
    requires s <= e
    ensures Peak([], s, e) == 0
    decreases e - s
  {
    if s < e {
      NothingCounted(s + 1, e);
    }
  }

  /** What building the tree over [s, e] leaves; the vertices from v on are new. */
  ghost predicate Built(segs: Segs, kids: Kids, segs': Segs, kids': Kids, v: nat, s: nat, e: nat, acc: bool)
    requires s <= e
  {
    && Dense(segs', kids', v - 1 + Size(s, e)) && Extends(segs, kids, segs', kids')
    && Shape(segs', kids', v, s, e) && Counted(segs', v, s, e, acc, [])
  }

  /** An inner vertex v with the trees built as its kids. */
  lemma BuiltInner(segs0: Segs, kids0: Kids, segs1: Segs, kids1: Kids, segs2: Segs, kids2: Kids, kids3: Kids,
                   v: nat, s: nat, e: nat, acc: bool)
    requires s < e && v > 0 && v in segs0 && v in kids0 && segs0[v] == Seg(s, e, 0) && kids0[v] == []
    requires Built(segs0, kids0, segs1, kids1, v + 1, s, Mid(s, e), acc)
    requires Built(segs1, kids1, segs2, kids2, v + 1 + Size(s, Mid(s, e)), Mid(s, e) + 1, e, acc)
    requires kids3.Keys == kids2.Keys && v in kids2
    requires forall k :: k in kids2 ==>
               kids3[k] == if k == v then kids2[v] + [v + 1] + [v + 1 + Size(s, Mid(s, e))] else kids2[k]
    ensures Built(segs0 - {v}, kids0 - {v}, segs2, kids3, v, s, e, acc)
  {
    var m := Mid(s, e);
    BuiltKept(segs1, kids1, segs2, kids3, v + 1, s, m, acc);
    BuiltKept(segs2, kids2, segs2, kids3, v + 1 + Size(s, m), m + 1, e, acc);
    NothingCounted(s, e);
  }

  const SEG_MAX: nat := 0xFFFF_FFFF

  class SegTree {
    const accumulate: bool
    var root: nat
    var vertexNum: nat
    var segs: Segs
    var kids: Kids
    /** The interval of the tree and the ranges entered so far. */
    ghost var low: nat
    ghost var high: nat
    ghost var entered: seq<Range>

    constructor (acc: bool)
      ensures accumulate == acc && root == 0 && vertexNum == 0 && segs == map[] && kids == map[]
    {
      accumulate, root, vertexNum, segs, kids := acc, 0, 0, map[], map[];
    }

    /** A tree over its interval with all the counts of the ranges entered. */
    ghost predicate Valid()
      reads this
    {
      Shape(segs, kids, root, low, high) && Counted(segs, root, low, high, accumulate, entered)
    }

    function Kid(v: nat, n: nat): nat
      reads this
    {
      if v in kids && n < |kids[v]| then kids[v][n] else 0
    }

    // ---- Update ----

    method UpdateCount(v: nat, count: nat)
      requires v in segs
      modifies this`segs
      ensures segs == old(segs)[v := old(segs)[v].(count := count)]
    {
      segs := segs[v := segs[v].(count := count)];
    }

    /** Enters [start, end] below v; the result is the update count handed up. */
    method ComputeRecur(v: nat, start: nat, end: nat, ghost s: nat, ghost e: nat, ghost h: seq<Range>)
      returns (updateCount: nat)
      requires Shape(segs, kids, v, s, e) && Counted(segs, v, s, e, accumulate, h)
      requires s <= start <= end <= e
      modifies this`segs
      ensures updateCount == 1 && Entered(old(segs), segs, v, s, e, accumulate, h, (start, end))
      decreases e - s, 2
    {
      if segs[v].start == start && segs[v].end == end && start == end {
        TouchingLast(h, (start, end), s, e);
        updateCount := 1;
        UpdateCount(v, segs[v].count + updateCount);
        return;
      }
      var mid := Mid(segs[v].start, segs[v].end);
      if end <= mid {
        updateCount := ComputeLeft(v, start, end, s, e, h);
      } else if start > mid {
        updateCount := ComputeRight(v, start, end, s, e, h);
      } else {
        updateCount := ComputeBoth(v, start, mid, end, s, e, h);
      }
    }

    /** The new count of an inner node whose kids are up to date. */
    method UpdateInner(v: nat, updateCount: nat)
      requires v in segs && Kid(v, 0) in segs && Kid(v, 1) in segs
      modifies this`segs
      ensures segs == old(segs)[v := old(segs)[v].(count :=
                if accumulate then old(segs)[v].count + updateCount
                else Max(old(segs)[Kid(v, 0)].count, old(segs)[Kid(v, 1)].count))]
    {
      if accumulate {
        UpdateCount(v, segs[v].count + updateCount);
      } else {
        UpdateCount(v, Max(segs[Kid(v, 0)].count, segs[Kid(v, 1)].count));
      }
    }

    method ComputeLeft(v: nat, start: nat, end: nat, ghost s: nat, ghost e: nat, ghost h: seq<Range>)
      returns (updateCount: nat)
      requires Shape(segs, kids, v, s, e) && Counted(segs, v, s, e, accumulate, h)
      requires s < e && s <= start <= end <= Mid(s, e)
      modifies this`segs
      ensures updateCount == 1 && Entered(old(segs), segs, v, s, e, accumulate, h, (start, end))
      decreases e - s, 0
    {
      ghost var r, segs0, m := (start, end), segs, Mid(s, e);
      updateCount := ComputeRecur(Kid(v, 0), start, end, s, m, h);
      LeftEntered(segs0, segs, v, s, e, accumulate, h, r);
      ghost var segs1 := segs;
      UpdateInner(v, updateCount);
      EnteredUp(segs0, segs1, segs, v, s, e, accumulate, h, r);
    }

    method ComputeRight(v: nat, start: nat, end: nat, ghost s: nat, ghost e: nat, ghost h: seq<Range>)
      returns (updateCount: nat)
      requires Shape(segs, kids, v, s, e) && Counted(segs, v, s, e, accumulate, h)
      requires s < e && Mid(s, e) < start <= end <= e
      modifies this`segs
      ensures updateCount == 1 && Entered(old(segs), segs, v, s, e, accumulate, h, (start, end))
      decreases e - s, 0
    {
      ghost var r, segs0, m := (start, end), segs, Mid(s, e);
      updateCount := ComputeRecur(Kid(v, 1), start, end, m + 1, e, h);
      RightEntered(segs0, segs, v, s, e, accumulate, h, r);
      ghost var segs1 := segs;
      UpdateInner(v, updateCount);
      EnteredUp(segs0, segs1, segs, v, s, e, accumulate, h, r);
    }

    method ComputeBoth(v: nat, start: nat, mid: nat, end: nat, ghost s: nat, ghost e: nat, ghost h: seq<Range>)
      returns (updateCount: nat)
      requires Shape(segs, kids, v, s, e) && Counted(segs, v, s, e, accumulate, h)
      requires s <= start <= mid == Mid(s, e) < end <= e
      modifies this`segs
      ensures updateCount == 1 && Entered(old(segs), segs, v, s, e, accumulate, h, (start, end))
      decreases e - s, 1
    {
      ghost var segs0 := segs;
      var lcount, rcount := ComputeKids(v, start, mid, end, s, e, h);
      updateCount := Max(lcount, rcount);
      ghost var segs1 := segs;
      UpdateInner(v, updateCount);
      EnteredUp(segs0, segs1, segs, v, s, e, accumulate, h, (start, end));
    }

    method ComputeKids(v: nat, start: nat, mid: nat, end: nat, ghost s: nat, ghost e: nat, ghost h: seq<Range>)
      returns (lcount: nat, rcount: nat)
      requires Shape(segs, kids, v, s, e) && Counted(segs, v, s, e, accumulate, h)
      requires s <= start <= mid == Mid(s, e) < end <= e
      modifies this`segs
      ensures lcount == 1 && rcount == 1 && KidsEntered(old(segs), segs, v, s, e, accumulate, h, (start, end))
      decreases e - s, 0
    {
      ghost var segs0 := segs;
      lcount := ComputeRecur(Kid(v, 0), start, mid, s, mid, h);
      ghost var segs1 := segs;
      RightUntouched(segs0, segs1, kids, v, s, e, accumulate, h, (start, mid));
      rcount := ComputeRecur(Kid(v, 1), mid + 1, end, mid + 1, e, h);
      BothEntered(segs0, segs1, segs, v, s, e, accumulate, h, (start, end));
    }

    /** Enters one range. */
    method Compute(start: nat, end: nat)
      requires Valid() && low <= start <= end <= high
      modifies this`segs, this`entered
      ensures Valid() && entered == old(entered) + [(start, end)]
    {
      ghost var segs0 := segs;
      var updateCount := ComputeRecur(root, start, end, low, high, entered);
      ShapeKept(segs0, segs, kids, root, low, high);
      entered := entered + [(start, end)];
    }

    /** Enters all ranges of a vector. */
    method ComputeAll(sv: seq<Range>)
      requires Valid()
      requires forall i :: 0 <= i < |sv| ==> low <= sv[i].0 <= sv[i].1 <= high
      modifies this`segs, this`entered
      ensures Valid() && entered == old(entered) + sv
    {
      ghost var h := entered;
      assert h + sv[..0] == h;
      for i := 0 to |sv|
        invariant Valid() && entered == h + sv[..i]
      {
        Compute(sv[i].0, sv[i].1);
        assert h + sv[..i] + [sv[i]] == h + sv[..i + 1];
      }
      assert sv[..|sv|] == sv;
    }

    // ---- Query ----

    /** The vertices that are the root of a tree over [s, e] that counts the ranges h. */
    ghost function TreesOver(s: nat, e: nat, h: seq<Range>): set<nat>
      reads this
    {
      set v | v in segs && Shape(segs, kids, v, s, e) && Counted(segs, v, s, e, accumulate, h)
    }

    /** The tree below v, if v is a vertex. */
    ghost predicate Below(v: nat, s: nat, e: nat, h: seq<Range>)
      reads this
    {
      v == 0 || v in TreesOver(s, e, h)
    }

    /** Where the halves of [s, e] lie in the tree. */
    ghost predicate Halves(v: nat, s: nat, mid: nat, e: nat, h: seq<Range>)
      reads this
    {
      && s <= mid <= e
      && (if s < e then mid < e && Kid(v, 0) != 0 && Kid(v, 1) != 0 else Kid(v, 0) == 0 && Kid(v, 1) == 0)
      && Below(Kid(v, 0), s, mid, h)
      && Below(Kid(v, 1), mid + 1, e, h)
    }

    lemma KidsBelow(v: nat, s: nat, e: nat, h: seq<Range>)
      requires v != 0 && Below(v, s, e, h)
      ensures v in segs && segs[v].start == s <= e == segs[v].end
      ensures s == e ==> segs[v].count == Touching(h, s, s)
      ensures Halves(v, s, Mid(s, e), e, h)
    {
      if s < e {
        var m := Mid(s, e);
        var l, r := v + 1, v + 1 + Size(s, m);
        assert kids[v] == [l, r];
        assert Shape(segs, kids, l, s, m) && Counted(segs, l, s, m, accumulate, h);
        assert Shape(segs, kids, r, m + 1, e) && Counted(segs, r, m + 1, e, accumulate, h);
      }
    }

    /** The count in si becomes the answer for [start, end]; a single point is added to it. */
    method QueryRecur(v: nat, start: nat, end: nat, si: nat, ghost s: nat, ghost e: nat, ghost h: seq<Range>)
      returns (si': nat)
      requires start <= end && Below(v, s, e, h)
      ensures v != 0 && s <= start <= end <= e ==>
                si' == Peak(h, start, end) + if start == end then si else 0
      decreases if v == 0 || e < s then 0 else e - s + 1, 1
    {
      if v == 0 {
        return si;
      }
      KidsBelow(v, s, e, h);
      if segs[v].start == start && segs[v].end == end && start == end {
        return si + segs[v].count;
      }
      var mid := Mid(segs[v].start, segs[v].end);
      if end <= mid || start > mid {
        si' := QueryOne(v, start, mid, end, si, s, e, h);
      } else {
        si' := QueryBoth(v, start, mid, end, s, e, h);
      }
    }

    /** The range lies in one half. */
    method QueryOne(v: nat, start: nat, mid: nat, end: nat, si: nat, ghost s: nat, ghost e: nat, ghost h: seq<Range>)
      returns (si': nat)
      requires Halves(v, s, mid, e, h) && start <= end && (end <= mid || mid < start)
      requires s < e || !(s <= start && end <= e)
      ensures s <= start && end <= e ==> si' == Peak(h, start, end) + if start == end then si else 0
      decreases if e < s then 0 else e - s + 1, 0
    {
      if end <= mid {
        si' := QueryRecur(Kid(v, 0), start, end, si, s, mid, h);
      } else {
        si' := QueryRecur(Kid(v, 1), start, end, si, mid + 1, e, h);
      }
    }

    method QueryBoth(v: nat, start: nat, mid: nat, end: nat, ghost s: nat, ghost e: nat, ghost h: seq<Range>)
      returns (si: nat)
      requires Halves(v, s, mid, e, h) && start <= mid < end
      ensures s <= start && end <= e ==> si == Peak(h, start, end)
      decreases if e < s then 0 else e - s + 1, 0
    {
      var lsi := QueryRecur(Kid(v, 0), start, mid, 0, s, mid, h);
      var rsi := QueryRecur(Kid(v, 1), mid + 1, end, 0, mid + 1, e, h);
      si := Max(lsi, rsi);
      PeakSplit(h, start, mid, end);
    }

    /** With a fresh count, the answer is the most ranges that cover one point of [start, end]. */
    method Query(start: nat, end: nat, si: nat) returns (si': nat)
      requires Valid() && start <= end
      ensures low <= start && end <= high && si == 0 ==> si' == Peak(entered, start, end)
      ensures low <= start == end <= high ==> si' == si + Touching(entered, start, start)
    {
      si' := QueryRecur(root, start, end, si, low, high, entered);
    }

    // ---- Construction ----

    /** Adds the next vertex; vertices are numbered from 1. */
    method AddNode(start: nat, end: nat) returns (v: nat)
      modifies this`vertexNum, this`segs, this`kids
      ensures v == vertexNum == old(vertexNum) + 1
      ensures segs == old(segs)[v := Seg(start, end, 0)] && kids == old(kids)[v := []]
    {
      vertexNum := vertexNum + 1;
      v := vertexNum;
      segs := segs[v := Seg(start, end, 0)];
      kids := kids[v := []];
    }

    method InsertKid(v: nat, kid: nat)
      requires v in kids
      modifies this`kids
      ensures kids == old(kids)[v := old(kids)[v] + [kid]]
    {
      kids := kids[v := kids[v] + [kid]];
    }

    /** Builds the tree over [start, end]; what was there before stays. */
    method BuildRecur(start: nat, end: nat) returns (v: nat)
      requires start <= end && Dense(segs, kids, vertexNum)
      modifies this`vertexNum, this`segs, this`kids
      ensures v == old(vertexNum) + 1 && vertexNum == old(vertexNum) + Size(start, end)
      ensures Built(old(segs), old(kids), segs, kids, v, start, end, accumulate)
      ensures forall k :: v <= k <= vertexNum ==> Halved(segs, kids, k)
      decreases end - start
    {
      v := AddNode(start, end);
      if start < end {
        BuildKids(v, start, end);
      }
      forall k | v <= k <= vertexNum
        ensures Halved(segs, kids, k)
      {
        ShapeIsHalved(segs, kids, v, start, end, k);
      }
    }

    /** The two halves of an inner vertex that was just added. */
    method BuildKids(v: nat, start: nat, end: nat)
      requires start < end && Dense(segs, kids, v) && v == vertexNum > 0
      requires segs[v] == Seg(start, end, 0) && kids[v] == []
      modifies this`vertexNum, this`segs, this`kids
      ensures vertexNum == v - 1 + Size(start, end)
      ensures Built(old(segs) - {v}, old(kids) - {v}, segs, kids, v, start, end, accumulate)
      decreases end - start, 0
    {
      ghost var segs0, kids0 := segs, kids;
      var mid := Mid(start, end);
      var lchild := BuildRecur(start, mid);
      ghost var segs1, kids1 := segs, kids;
      var rchild := BuildRecur(mid + 1, end);
      ghost var kids2 := kids;
      InsertKid(v, lchild);
      InsertKid(v, rchild);
      BuiltInner(segs0, kids0, segs1, kids1, segs, kids2, kids, v, start, end, accumulate);
    }

    method ComputeMinMax(sv: seq<Range>) returns (min: nat, max: nat)
      requires forall i :: 0 <= i < |sv| ==> sv[i].0 <= sv[i].1 <= SEG_MAX
      ensures forall i :: 0 <= i < |sv| ==> min <= sv[i].0 && sv[i].1 <= max
      ensures sv == [] ==> min == SEG_MAX && max == 0
      ensures sv != [] ==> exists i :: 0 <= i < |sv| && min == sv[i].0
      ensures sv != [] ==> exists j :: 0 <= j < |sv| && max == sv[j].1
    {
      min, max := SEG_MAX, 0;
      for k := 0 to |sv|
        invariant forall i :: 0 <= i < k ==> min <= sv[i].0 && sv[i].1 <= max
        invariant min == SEG_MAX || exists i :: 0 <= i < k && min == sv[i].0
        invariant max == 0 || exists j :: 0 <= j < k && max == sv[j].1
        invariant k == 0 ==> min == SEG_MAX && max == 0
      {
        min := if sv[k].0 < min then sv[k].0 else min;
        max := Max(max, sv[k].1);
      }
      if sv != [] {
        assert min == SEG_MAX ==> min == sv[0].0;
        assert max == 0 ==> max == sv[0].1;
      }
    }

    /** The tree over the hull of some ranges; nothing is counted yet. */
    method Build(sv: seq<Range>)
      requires vertexNum == 0 && segs == map[] && kids == map[]
      requires sv != [] && forall i :: 0 <= i < |sv| ==> sv[i].0 <= sv[i].1 <= 0xFFFF_FFFF
      modifies this
      ensures Valid() && entered == []
      ensures forall i :: 0 <= i < |sv| ==> low <= sv[i].0 && sv[i].1 <= high
      ensures exists i, j :: 0 <= i < |sv| && 0 <= j < |sv| && low == sv[i].0 && high == sv[j].1
      ensures vertexNum == 2 * (high - low) + 1 && forall k :: k in segs <==> 1 <= k <= vertexNum
      ensures root in segs && segs[root] == Seg(low, high, 0)
      ensures forall k :: k in segs ==> Halved(segs, kids, k)
      ensures forall d: nat :: DepthAtMost(kids, root, d) <==> high - low + 1 <= Pow2(d)
    {
      var min, max := ComputeMinMax(sv);
      root := BuildRecur(min, max);
      low, high, entered := min, max, [];
      NothingCounted(low, high);
      forall d: nat
        ensures DepthAtMost(kids, root, d) <==> high - low + 1 <= Pow2(d)
      {
        DepthIsLogarithm(segs, kids, root, low, high, d);
      }
    }
  }
}
