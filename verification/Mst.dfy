/** Prim's minimum spanning tree, `class MST` of `com/sgraph.cpp`. Edges have a direction
    in the graph, which the computation ignores. */
module Mst {
  import opened Graphs

  type EdgeId = nat

  /** The weight that no edge of a tree may have, (UINT)-1. */
  const MAX_WEIGHT: nat := 0xFFFF_FFFF
  const MST_WEIGHT_UNDEF: nat := 0

  datatype Ends = Ends(from: VexIdx, to: VexIdx)

  datatype WGraph = WGraph(
    vertices: set<VexIdx>,
    edges: map<EdgeId, Ends>,
    outs: map<VexIdx, seq<EdgeId>>,
    ins: map<VexIdx, seq<EdgeId>>,
    e2w: map<EdgeId, nat>)
  {
    ghost predicate Valid() {
      && outs.Keys == vertices && ins.Keys == vertices
      && (forall v, e :: v in outs ==> (e in outs[v] <==> e in edges && edges[e].from == v))
      && (forall v, e :: v in ins ==> (e in ins[v] <==> e in edges && edges[e].to == v))
      && (forall e :: e in edges ==> edges[e].from in vertices && edges[e].to in vertices)
    }

    /** An edge without an entry has weight 0. */
    function Weight(e: EdgeId): nat {
      if e in e2w then e2w[e] else MST_WEIGHT_UNDEF
    }

    /** e leads between a and b, in either direction. */
    predicate Joins(e: EdgeId, a: VexIdx, b: VexIdx) {
      e in edges && (edges[e] == Ends(a, b) || edges[e] == Ends(b, a))
    }

    ghost function Usable(): set<EdgeId> {
      set e | e in edges && Weight(e) < MAX_WEIGHT
    }

    /** e is usable and leads from a to a vertex b outside vs. */
    ghost predicate Crosses(vs: set<VexIdx>, e: EdgeId, a: VexIdx, b: VexIdx) {
      e in Usable() && Joins(e, a, b) && a in vs && b !in vs
    }

    ghost predicate Exhausted(vs: set<VexIdx>, a: VexIdx) {
      forall e, b :: !Crosses(vs, e, a, b)
    }

    // ---- Connection by a set of edges ----

    ghost predicate JoinedIn(s: set<EdgeId>, a: VexIdx, b: VexIdx) {
      exists e :: e in s && Joins(e, a, b)
    }

    ghost predicate StepIn(s: set<EdgeId>, p: seq<VexIdx>, i: nat)
      requires i + 1 < |p|
    {
      JoinedIn(s, p[i], p[i + 1])
    }

    ghost predicate Walk(s: set<EdgeId>, p: seq<VexIdx>) {
      p != [] && forall i: nat :: i + 1 < |p| ==> StepIn(s, p, i)
    }

    /** x is connected to a vertex of vs by edges of s. */
    ghost predicate Connected(s: set<EdgeId>, vs: set<VexIdx>, x: VexIdx) {
      exists p :: Walk(s, p) && p[0] in vs && p[|p| - 1] == x
    }

    /** Edges of s connect everything in the component of root to vs. */
    ghost predicate Spans(s: set<EdgeId>, root: VexIdx, vs: set<VexIdx>) {
      forall x :: Connected(Usable(), {root}, x) ==> Connected(s, vs, x)
    }

    ghost function Total(s: set<EdgeId>): nat {
      if s == {} then 0
      else
        var e :| e in s;
        Weight(e) + Total(s - {e})
    }

    lemma {:induction false} TotalWithout(s: set<EdgeId>, f: EdgeId)
      requires f in s
      ensures Total(s) == Weight(f) + Total(s - {f})
    {
      var e :| e in s && Total(s) == Weight(e) + Total(s - {e});
      if e != f {
        TotalWithout(s - {e}, f);
        TotalWithout(s - {f}, e);
        assert s - {e} - {f} == s - {f} - {e};
      }
    }

    // ---- Walks ----

    lemma WalkSlice(s: set<EdgeId>, p: seq<VexIdx>, i: nat, j: nat)
      requires Walk(s, p) && i < j <= |p|
      ensures Walk(s, p[i..j])
    {
      forall k: nat | k + 1 < j - i
        ensures StepIn(s, p[i..j], k)
      {
        assert StepIn(s, p, i + k);
      }
    }

    lemma WalkJoin(s: set<EdgeId>, p: seq<VexIdx>, q: seq<VexIdx>)
      requires Walk(s, p) && Walk(s, q) && p[|p| - 1] == q[0]
      ensures Walk(s, p + q[1..])
    {
      var r := p + q[1..];
      forall k: nat | k + 1 < |r|
        ensures StepIn(s, r, k)
      {
        if k + 1 < |p| {
          assert StepIn(s, p, k);
        } else {
          assert StepIn(s, q, k + 1 - |p|);
        }
      }
    }

    lemma WalkBack(s: set<EdgeId>, p: seq<VexIdx>) returns (q: seq<VexIdx>)
      requires Walk(s, p)
      ensures Walk(s, q) && q[0] == p[|p| - 1] && q[|q| - 1] == p[0]
    {
      q := seq(|p|, i requires 0 <= i < |p| => p[|p| - 1 - i]);
      forall k: nat | k + 1 < |q|
        ensures StepIn(s, q, k)
      {
        assert StepIn(s, p, |p| - 2 - k);
        var e :| e in s && Joins(e, p[|p| - 2 - k], p[|p| - 1 - k]);
        assert Joins(e, q[k], q[k + 1]);
      }
    }

    /** The part of a walk after its last visit to vs. */
    lemma {:induction false} LastExit(s: set<EdgeId>, vs: set<VexIdx>, p: seq<VexIdx>) returns (q: seq<VexIdx>)
      requires Walk(s, p) && p[0] in vs
      ensures Walk(s, q) && q[0] in vs && q[|q| - 1] == p[|p| - 1]
      ensures forall k :: 0 < k < |q| ==> q[k] !in vs
    {
      var i := |p| - 1;
      while p[i] !in vs
        invariant 0 <= i < |p| && forall k :: i < k < |p| ==> p[k] !in vs
        decreases i
      {
        i := i - 1;
      }
      WalkSlice(s, p, i, |p|);
      q := p[i..|p|];
    }

    /** A walk outside vs does not need an edge that has an end in vs. */
    lemma OutsideAvoids(s: set<EdgeId>, vs: set<VexIdx>, f: EdgeId, c: VexIdx, d: VexIdx, p: seq<VexIdx>)
      requires Walk(s, p) && Joins(f, c, d) && c in vs
      requires forall k :: 0 <= k < |p| ==> p[k] !in vs
      ensures Walk(s - {f}, p)
    {
      forall k: nat | k + 1 < |p|
        ensures StepIn(s - {f}, p, k)
      {
        assert StepIn(s, p, k);
        var e :| e in s && Joins(e, p[k], p[k + 1]);
        assert e != f;
      }
    }

    // ---- The exchange ----

    /** b joins the connected side: whoever was connected to vs by s is connected to vs and b
        without f, when f starts the way from vs to b. */
    lemma ConnectedWithout(s: set<EdgeId>, vs: set<VexIdx>, f: EdgeId, c: VexIdx, q: seq<VexIdx>, x: VexIdx)
      requires Walk(s, q) && |q| > 1 && q[0] == c && c in vs
      requires forall k :: 0 < k < |q| ==> q[k] !in vs
      requires f in s && Joins(f, c, q[1])
      requires Connected(s, vs, x)
      ensures Connected(s - {f}, vs + {q[|q| - 1]}, x)
    {
      var p :| Walk(s, p) && p[0] in vs && p[|p| - 1] == x;
      var r := LastExit(s, vs, p);
      var s' := s - {f};
      var b := q[|q| - 1];
      if |r| == 1 {
        assert Walk(s', r);
      } else {
        WalkSlice(s, r, 1, |r|);
        var tail := r[1..|r|];
        OutsideAvoids(s, vs, f, c, q[1], tail);
        if JoinedIn(s', r[0], r[1]) {
          var front := [r[0], r[1]];
          assert StepIn(s', front, 0);
          WalkJoin(s', front, tail);
          assert Connected(s', vs + {b}, x);
        } else {
          assert StepIn(s, r, 0);
          var e :| e in s && Joins(e, r[0], r[1]);
          assert e == f && r[1] == q[1];
          WalkSlice(s, q, 1, |q|);
          OutsideAvoids(s, vs, f, c, q[1], q[1..|q|]);
          var back := WalkBack(s', q[1..|q|]);
          WalkJoin(s', back, tail);
          var whole := back + tail[1..];
          assert whole[0] == b && whole[|whole| - 1] == x;
        }
      }
    }

    /** From any set that spans, an edge at least as heavy as the lightest one leaving vs can
        be removed when that one's far end joins vs. */
    lemma Exchange(s: set<EdgeId>, root: VexIdx, vs: set<VexIdx>, e: EdgeId, a: VexIdx, b: VexIdx)
      returns (f: EdgeId)
      requires s <= Usable() && Spans(s, root, vs)
      requires Crosses(vs, e, a, b) && Connected(Usable(), {root}, b)
      requires forall e', a', b' :: Crosses(vs, e', a', b') ==> Weight(e) <= Weight(e')
      ensures f in s && Weight(e) <= Weight(f)
      ensures Spans(s - {f}, root, vs + {b})
    {
      var p :| Walk(s, p) && p[0] in vs && p[|p| - 1] == b;
      var q := LastExit(s, vs, p);
      assert StepIn(s, q, 0);
      f :| f in s && Joins(f, q[0], q[1]);
      assert Crosses(vs, f, q[0], q[1]);
      forall x | Connected(Usable(), {root}, x)
        ensures Connected(s - {f}, vs + {b}, x)
      {
        ConnectedWithout(s, vs, f, q[0], q, x);
      }
    }
  }

  /** The result of a search for an edge: none, or an edge, its weight and its new end. */
  datatype Pick = NoEdge | Pick(edge: EdgeId, minw: nat, newvex: VexIdx)

  /** r is a lightest edge leaving visited from one of the listed vertices. */
  ghost predicate Lightest(g: WGraph, visited: set<VexIdx>, from: seq<VexIdx>, r: Pick) {
    match r
    case NoEdge => forall v :: v in from ==> g.Exhausted(visited, v)
    case Pick(e, w, b) =>
      && w == g.Weight(e)
      && (exists a :: a in from && g.Crosses(visited, e, a, b))
      && forall e', a', b' :: a' in from && g.Crosses(visited, e', a', b') ==> w <= g.Weight(e')
  }

  /** All edges of v, the outgoing ones first. */
  function Adjacent(g: WGraph, v: VexIdx): seq<EdgeId> {
    if v in g.outs && v in g.ins then g.outs[v] + g.ins[v] else []
  }

  /** All edges that leave visited from v and come before e, one of the first n edges of v, are heavier. */
  ghost predicate FirstAt(g: WGraph, visited: set<VexIdx>, v: VexIdx, n: nat, e: EdgeId) {
    exists k :: 0 <= k < n && k < |Adjacent(g, v)| && Adjacent(g, v)[k] == e && HeavierBefore(g, visited, v, k, e)
  }

  ghost predicate HeavierBefore(g: WGraph, visited: set<VexIdx>, v: VexIdx, k: nat, e: EdgeId)
    requires k <= |Adjacent(g, v)|
  {
    forall j, b :: 0 <= j < k && g.Crosses(visited, Adjacent(g, v)[j], v, b) ==>
                     g.Weight(e) < g.Weight(Adjacent(g, v)[j])
  }

  ghost predicate HeavierFrom(g: WGraph, visited: set<VexIdx>, v: VexIdx, e: EdgeId) {
    forall e', b :: g.Crosses(visited, e', v, b) ==> g.Weight(e) < g.Weight(e')
  }

  /** Looking at the vertices in the order from, and at the edges of each in their order, the edge of r is
      the first one of its weight. */
  ghost predicate Foremost(g: WGraph, visited: set<VexIdx>, from: seq<VexIdx>, r: Pick) {
    r.Pick? ==>
      exists i :: 0 <= i < |from| && FirstAt(g, visited, from[i], |Adjacent(g, from[i])|, r.edge)
                  && forall j :: 0 <= j < i ==> HeavierFrom(g, visited, from[j], r.edge)
  }

  /** The joined vertices in order and the edges that joined them: each edge is the first lightest one
      leaving the vertices joined before it. */
  ghost predicate Greedy(g: WGraph, order: seq<VexIdx>, path: seq<EdgeId>) {
    && |order| == |path| + 1
    && forall k :: 0 <= k < |path| ==> JoinedNext(g, order[..k + 1], path[k], order[k + 1])
  }

  ghost predicate JoinedNext(g: WGraph, order: seq<VexIdx>, e: EdgeId, b: VexIdx) {
    Best(g, SetOf(order), order, Pick(e, g.Weight(e), b))
  }

  ghost predicate Best(g: WGraph, visited: set<VexIdx>, from: seq<VexIdx>, r: Pick) {
    Lightest(g, visited, from, r) && Foremost(g, visited, from, r)
  }

  /** A spanning tree of the component of root: its edges connect the component, and there is
      one edge fewer than there are vertices. */
  ghost predicate SpanningTree(g: WGraph, root: VexIdx, vs: set<VexIdx>, path: seq<EdgeId>) {
    && NoDup(path)
    && SetOf(path) <= g.Usable()
    && (forall x :: x in vs <==> g.Connected(g.Usable(), {root}, x))
    && g.Spans(SetOf(path), root, {root})
    && |vs| == |path| + 1
  }

  /** The vertices joined are the component of root, the edges are a spanning tree of it with
      the given total weight, and no set of edges that connects the component weighs less. */
  ghost predicate MinimumTree(g: WGraph, root: VexIdx, order: seq<VexIdx>, path: seq<EdgeId>, tot: nat) {
    && order != [] && order[0] == root
    && Greedy(g, order, path)
    && SpanningTree(g, root, SetOf(order), path)
    && tot == g.Total(SetOf(path))
    && forall s :: s <= g.Usable() && g.Spans(s, root, {root}) ==> tot <= g.Total(s)
  }

  /** A cheapest set of edges of the graph that connects everything which edges of the graph, whatever they
      weigh, connect to root. */
  ghost predicate CheapestConnection(g: WGraph, root: VexIdx, order: seq<VexIdx>, path: seq<EdgeId>, tot: nat) {
    && (forall x :: x in order <==> g.Connected(g.edges.Keys, {root}, x))
    && ConnectsAll(g, root, SetOf(path))
    && tot == g.Total(SetOf(path))
    && forall s :: s <= g.edges.Keys && ConnectsAll(g, root, s) ==> tot <= g.Total(s)
  }

  ghost predicate ConnectsAll(g: WGraph, root: VexIdx, s: set<EdgeId>) {
    forall x :: g.Connected(g.edges.Keys, {root}, x) ==> g.Connected(s, {root}, x)
  }

  /** With all weights below the largest 32-bit number, no edge is left aside. */
  lemma NothingLeftAside(g: WGraph, root: VexIdx, order: seq<VexIdx>, path: seq<EdgeId>, tot: nat)
    requires MinimumTree(g, root, order, path, tot)
    requires forall e :: e in g.edges ==> g.Weight(e) < 0xFFFF_FFFF
    ensures CheapestConnection(g, root, order, path, tot)
  {
    assert g.Usable() == g.edges.Keys;
    forall s | s <= g.edges.Keys && ConnectsAll(g, root, s)
      ensures tot <= g.Total(s)
    {
      assert g.Spans(s, root, {root});
    }
    forall x
      ensures x in order <==> g.Connected(g.edges.Keys, {root}, x)
    {
      assert x in order <==> x in SetOf(order);
    }
    assert g.Spans(SetOf(path), root, {root});
  }

  /** s can be completed from what is left of it at no more than the weight of what was
      taken out. */
  ghost predicate Covered(g: WGraph, root: VexIdx, visited: set<VexIdx>, tot: nat, s: set<EdgeId>) {
    exists s' :: s' <= s && g.Spans(s', root, visited) && tot + g.Total(s') <= g.Total(s)
  }

  ghost predicate AllCovered(g: WGraph, root: VexIdx, visited: set<VexIdx>, tot: nat) {
    forall s :: s <= g.Usable() && g.Spans(s, root, {root}) ==> Covered(g, root, visited, tot, s)
  }

  ghost predicate OrderOk(g: WGraph, root: VexIdx, order: seq<VexIdx>) {
    order != [] && order[0] == root && NoDup(order) && SetOf(order) <= g.vertices
  }

  ghost predicate PathOk(g: WGraph, order: seq<VexIdx>, path: seq<EdgeId>, tot: nat) {
    && NoDup(path)
    && SetOf(path) <= g.Usable()
    && tot == g.Total(SetOf(path))
    && forall e {:trigger Inside(g, order, e)} :: e in path ==> Inside(g, order, e)
  }

  ghost predicate Inside(g: WGraph, order: seq<VexIdx>, e: EdgeId) {
    e in g.edges && g.edges[e].from in order && g.edges[e].to in order
  }

  ghost predicate AllConnected(g: WGraph, root: VexIdx, order: seq<VexIdx>, s: set<EdgeId>) {
    forall x :: x in order ==> g.Connected(s, {root}, x)
  }

  /** The state of the construction. */
  ghost predicate BuildInv(g: WGraph, root: VexIdx, order: seq<VexIdx>, path: seq<EdgeId>, tot: nat) {
    && g.Valid()
    && OrderOk(g, root, order)
    && PathOk(g, order, path, tot)
    && AllConnected(g, root, order, g.Usable())
    && AllConnected(g, root, order, SetOf(path))
    && Greedy(g, order, path)
    && AllCovered(g, root, SetOf(order), tot)
  }

  lemma RootConnected(g: WGraph, root: VexIdx, s: set<EdgeId>)
    ensures AllConnected(g, root, [root], s)
  {
    assert g.Walk(s, [root]);
  }

  lemma ListStart(g: WGraph, root: VexIdx, wl: seq<VexIdx>)
    requires wl == [root]
    ensures WorklistOk(g, [root], wl) && SetOf([root]) == {root}
  {
  }

  lemma StateGrows(g: WGraph, root: VexIdx, order: seq<VexIdx>, path: seq<EdgeId>, tot: nat, wl: seq<VexIdx>,
                   visited: set<VexIdx>)
    requires BuildInv(g, root, order, path, tot) && WorklistOk(g, order, wl) && visited == SetOf(order)
    ensures Growing(g, root, visited, path, tot, wl)
  {
    assert BuildState(g, root, order, path, tot, wl);
  }

  lemma TreeStart(g: WGraph, root: VexIdx, none: seq<EdgeId>)
    requires g.Valid() && root in g.vertices && none == []
    ensures BuildInv(g, root, [root], none, 0)
  {
    PathStart(g, root, none);
    assert OrderOk(g, root, [root]);
    RootConnected(g, root, g.Usable());
    RootConnected(g, root, SetOf(none));
    StartCovered(g, root);
  }

  lemma PathStart(g: WGraph, root: VexIdx, none: seq<EdgeId>)
    requires none == []
    ensures PathOk(g, [root], none, 0)
  {
    assert SetOf(none) == {};
  }

  lemma StartCovered(g: WGraph, root: VexIdx)
    ensures AllCovered(g, root, SetOf([root]), 0)
  {
    assert SetOf([root]) == {root};
    forall s | s <= g.Usable() && g.Spans(s, root, {root})
      ensures Covered(g, root, {root}, 0, s)
    {
      assert 0 + g.Total(s) <= g.Total(s);
    }
  }

  lemma ConnectStep(g: WGraph, s: set<EdgeId>, s': set<EdgeId>, root: VexIdx, a: VexIdx, b: VexIdx, e: EdgeId)
    requires g.Connected(s, {root}, a) && s <= s' && e in s' && g.Joins(e, a, b)
    ensures g.Connected(s', {root}, b)
  {
    var p :| g.Walk(s, p) && p[0] in {root} && p[|p| - 1] == a;
    WalkGrows(g, s, s', p);
    assert g.StepIn(s', [a, b], 0);
    g.WalkJoin(s', p, [a, b]);
    var q := p + [a, b][1..];
    assert q[0] == root && q[|q| - 1] == b;
  }

  lemma WalkGrows(g: WGraph, s: set<EdgeId>, s': set<EdgeId>, p: seq<VexIdx>)
    requires g.Walk(s, p) && s <= s'
    ensures g.Walk(s', p)
  {
    forall i: nat | i + 1 < |p|
      ensures g.StepIn(s', p, i)
    {
      assert g.StepIn(s, p, i);
    }
  }

  lemma ConnectedGrows(g: WGraph, s: set<EdgeId>, s': set<EdgeId>, vs: set<VexIdx>, x: VexIdx)
    requires g.Connected(s, vs, x) && s <= s'
    ensures g.Connected(s', vs, x)
  {
    var p :| g.Walk(s, p) && p[0] in vs && p[|p| - 1] == x;
    WalkGrows(g, s, s', p);
  }

  lemma CoveredStep(g: WGraph, root: VexIdx, visited: set<VexIdx>, tot: nat, e: EdgeId, a: VexIdx, b: VexIdx,
                    s: set<EdgeId>)
    requires s <= g.Usable() && Covered(g, root, visited, tot, s)
    requires g.Crosses(visited, e, a, b) && g.Connected(g.Usable(), {root}, b)
    requires forall e', a', b' :: g.Crosses(visited, e', a', b') ==> g.Weight(e) <= g.Weight(e')
    ensures Covered(g, root, visited + {b}, tot + g.Weight(e), s)
  {
    var s1 :| s1 <= s && g.Spans(s1, root, visited) && tot + g.Total(s1) <= g.Total(s);
    var f := g.Exchange(s1, root, visited, e, a, b);
    g.TotalWithout(s1, f);
    assert s1 - {f} <= s;
  }

  lemma AllCoveredStep(g: WGraph, root: VexIdx, order: seq<VexIdx>, tot: nat, e: EdgeId, a: VexIdx, b: VexIdx)
    requires AllCovered(g, root, SetOf(order), tot) && a in order
    requires g.Crosses(SetOf(order), e, a, b) && g.Connected(g.Usable(), {root}, b)
    requires Lightest(g, SetOf(order), order, Pick(e, g.Weight(e), b))
    ensures AllCovered(g, root, SetOf(order + [b]), tot + g.Weight(e))
  {
    assert SetOf(order + [b]) == SetOf(order) + {b};
    forall s | s <= g.Usable() && g.Spans(s, root, {root})
      ensures Covered(g, root, SetOf(order) + {b}, tot + g.Weight(e), s)
    {
      CoveredStep(g, root, SetOf(order), tot, e, a, b, s);
    }
  }

  /** The new edge connects its new end, and the old ones stay connected. */
  lemma ConnectAll(g: WGraph, root: VexIdx, order: seq<VexIdx>, s: set<EdgeId>, s': set<EdgeId>, e: EdgeId,
                   a: VexIdx, b: VexIdx)
    requires AllConnected(g, root, order, s) && a in order
    requires g.Joins(e, a, b) && s <= s' && e in s'
    ensures AllConnected(g, root, order + [b], s')
  {
    ConnectStep(g, s, s', root, a, b, e);
    forall x | x in order
      ensures g.Connected(s', {root}, x)
    {
      ConnectedGrows(g, s, s', {root}, x);
    }
  }

  lemma NewEdge(g: WGraph, order: seq<VexIdx>, path: seq<EdgeId>, tot: nat, e: EdgeId, a: VexIdx, b: VexIdx)
    requires PathOk(g, order, path, tot)
    requires g.Crosses(SetOf(order), e, a, b)
    ensures SetOf(path + [e]) == SetOf(path) + {e}
    ensures PathOk(g, order + [b], path + [e], tot + g.Weight(e))
  {
    assert !Inside(g, order, e);
    assert e !in path;
    forall e' | e' in path + [e]
      ensures Inside(g, order + [b], e')
    {
      if e' != e {
        assert Inside(g, order, e');
      }
    }
    assert SetOf(path + [e]) == SetOf(path) + {e};
    g.TotalWithout(SetOf(path + [e]), e);
    assert SetOf(path + [e]) - {e} == SetOf(path);
  }

  lemma NewVertex(g: WGraph, root: VexIdx, order: seq<VexIdx>, e: EdgeId, a: VexIdx, b: VexIdx)
    requires g.Valid() && OrderOk(g, root, order) && g.Crosses(SetOf(order), e, a, b)
    ensures b !in order && OrderOk(g, root, order + [b])
    ensures b in g.vertices
  {
    assert SetOf(order + [b]) == SetOf(order) + {b};
  }

  lemma BuildStep(g: WGraph, root: VexIdx, order: seq<VexIdx>, path: seq<EdgeId>, tot: nat, r: Pick)
    requires BuildInv(g, root, order, path, tot)
    requires r.Pick? && Best(g, SetOf(order), order, r)
    ensures r.newvex !in order && r.newvex in g.vertices
    ensures BuildInv(g, root, order + [r.newvex], path + [r.edge], tot + r.minw)
  {
    var e, b := r.edge, r.newvex;
    var a :| a in order && g.Crosses(SetOf(order), e, a, b);
    NewVertex(g, root, order, e, a, b);
    NewEdge(g, order, path, tot, e, a, b);
    ConnectAll(g, root, order, g.Usable(), g.Usable(), e, a, b);
    ConnectAll(g, root, order, SetOf(path), SetOf(path + [e]), e, a, b);
    assert g.Connected(g.Usable(), {root}, b) by {
      assert b in order + [b];
    }
    GreedyStep(g, order, path, e, b);
    AllCoveredStep(g, root, order, tot, e, a, b);
  }

  lemma GreedyStep(g: WGraph, order: seq<VexIdx>, path: seq<EdgeId>, e: EdgeId, b: VexIdx)
    requires Greedy(g, order, path)
    requires Best(g, SetOf(order), order, Pick(e, g.Weight(e), b))
    ensures Greedy(g, order + [b], path + [e])
  {
    var order', path' := order + [b], path + [e];
    forall k | 0 <= k < |path'|
      ensures JoinedNext(g, order'[..k + 1], path'[k], order'[k + 1])
    {
      assert order'[..k + 1] == order[..k + 1];
      if k == |path| {
        assert order[..k + 1] == order;
      }
    }
  }

  /** When no edge leaves the visited vertices any more they are the whole component, and no
      set of edges connecting the component weighs less than the edges taken. */
  lemma BuildEnd(g: WGraph, root: VexIdx, order: seq<VexIdx>, path: seq<EdgeId>, tot: nat)
    requires BuildInv(g, root, order, path, tot)
    requires Lightest(g, SetOf(order), order, NoEdge)
    ensures MinimumTree(g, root, order, path, tot)
  {
    var visited := SetOf(order);
    forall x | g.Connected(g.Usable(), {root}, x)
      ensures x in visited
    {
      var p :| g.Walk(g.Usable(), p) && p[0] in {root} && p[|p| - 1] == x;
      StaysInside(g, visited, p, |p| - 1);
    }
    NoDupCard(order);
    forall s | s <= g.Usable() && g.Spans(s, root, {root})
      ensures tot <= g.Total(s)
    {
      assert Covered(g, root, visited, tot, s);
    }
  }

  lemma {:induction false} StaysInside(g: WGraph, vs: set<VexIdx>, p: seq<VexIdx>, i: nat)
    requires g.Walk(g.Usable(), p) && p[0] in vs && i < |p|
    requires forall v :: v in vs ==> g.Exhausted(vs, v)
    ensures p[i] in vs
  {
    if i > 0 {
      StaysInside(g, vs, p, i - 1);
      assert g.StepIn(g.Usable(), p, i - 1);
      var e :| e in g.Usable() && g.Joins(e, p[i - 1], p[i]);
      assert !g.Crosses(vs, e, p[i - 1], p[i]);
    }
  }

  lemma OutEdge(g: WGraph, visited: set<VexIdx>, v: VexIdx, i: nat)
    requires g.Valid() && v in g.vertices && v in visited && i < |g.outs[v]|
    ensures g.outs[v][i] in g.edges
    ensures g.edges[g.outs[v][i]].to !in visited && g.Weight(g.outs[v][i]) < MAX_WEIGHT ==>
              g.Crosses(visited, g.outs[v][i], v, g.edges[g.outs[v][i]].to)
  {
  }

  lemma InEdge(g: WGraph, visited: set<VexIdx>, v: VexIdx, i: nat)
    requires g.Valid() && v in g.vertices && v in visited && i < |g.ins[v]|
    ensures g.ins[v][i] in g.edges
    ensures g.edges[g.ins[v][i]].from !in visited && g.Weight(g.ins[v][i]) < MAX_WEIGHT ==>
              g.Crosses(visited, g.ins[v][i], v, g.edges[g.ins[v][i]].from)
  {
  }

  class MST {
    const g: WGraph

    constructor (g: WGraph)
      ensures this.g == g
    {
      this.g := g;
    }

    /** A lightest edge that leads from v to a vertex not visited. */
    method FindMinWeightEdge(v: VexIdx, visited: set<VexIdx>) returns (min: Pick)
      requires g.Valid() && v in g.vertices && v in visited
      ensures Best(g, visited, [v], min)
      ensures min.Pick? ==> min.minw < MAX_WEIGHT
    {
      var curw;
      curw, min := ScanOut(v, visited);
      curw, min := ScanIn(v, visited, curw, min);
      AllSeen(g, visited, v, curw, min);
    }

    method ScanOut(v: VexIdx, visited: set<VexIdx>) returns (curw: nat, min: Pick)
      requires g.Valid() && v in g.vertices && v in visited
      ensures OutScanned(g, visited, v, |g.outs[v]|, curw, min)
    {
      curw, min := MAX_WEIGHT, NoEdge;
      for i := 0 to |g.outs[v]|
        invariant OutScanned(g, visited, v, i, curw, min)
      {
        ghost var curw0, min0 := curw, min;
        var out := g.outs[v][i];
        OutEdge(g, visited, v, i);
        var succ := g.edges[out].to;
        if succ !in visited {
          var outew := g.Weight(out);
          if curw > outew {
            curw := outew;
            min := Pick(out, outew, succ);
          }
        }
        OutStep(g, visited, v, i, curw0, min0, i + 1, curw, min);
      }
    }

    method ScanIn(v: VexIdx, visited: set<VexIdx>, curw0: nat, min0: Pick) returns (curw: nat, min: Pick)
      requires g.Valid() && v in g.vertices && v in visited && OutScanned(g, visited, v, |g.outs[v]|, curw0, min0)
      ensures InScanned(g, visited, v, |g.ins[v]|, curw, min)
    {
      curw, min := curw0, min0;
      for i := 0 to |g.ins[v]|
        invariant InScanned(g, visited, v, i, curw, min)
      {
        ghost var curw1, min1 := curw, min;
        var in_ := g.ins[v][i];
        InEdge(g, visited, v, i);
        var pred := g.edges[in_].from;
        if pred !in visited {
          var inw := g.Weight(in_);
          if curw > inw {
            curw := inw;
            min := Pick(in_, inw, pred);
          }
        }
        InStep(g, visited, v, i, curw1, min1, i + 1, curw, min);
      }
    }

    /** A lightest edge leaving the visited vertices; vertices without such an edge are
        dropped from the worklist. */
    method FindMinWeightEdgeForVisited(wl0: seq<VexIdx>, visited: set<VexIdx>, ghost order: seq<VexIdx>)
      returns (wl: seq<VexIdx>, mine: Pick)
      requires g.Valid() && visited <= g.vertices && (forall v :: v in wl0 ==> v in visited) && InOrder(wl0, order)
      ensures Lightest(g, visited, wl0, mine) && Foremost(g, visited, wl, mine) && InOrder(wl, order)
      ensures forall v :: v in wl ==> v in wl0
      ensures forall v :: v in wl0 && v !in wl ==> g.Exhausted(visited, v)
      ensures mine.NoEdge? ==> wl == []
    {
      wl, mine := wl0, NoEdge;
      var curMinw: nat := MAX_WEIGHT;
      var i: nat := 0;
      while i < |wl|
        invariant Scanned(g, visited, order, wl0, wl, i, curMinw, mine)
        decreases |wl| - i
      {
        wl, i, curMinw, mine := LookAtVertex(wl0, visited, order, wl, i, curMinw, mine);
      }
      WorklistDone(g, visited, wl0, wl, i, curMinw, mine);
    }

    /** One vertex of the worklist: it is dropped if no edge leads on from it, and its edge is taken if that is
        lighter. */
    method LookAtVertex(ghost wl0: seq<VexIdx>, visited: set<VexIdx>, ghost order: seq<VexIdx>,
                        wl: seq<VexIdx>, i: nat, curMinw: nat, mine: Pick)
      returns (wl': seq<VexIdx>, i': nat, curMinw': nat, mine': Pick)
      requires g.Valid() && visited <= g.vertices && (forall v :: v in wl0 ==> v in visited) && i < |wl|
      requires Scanned(g, visited, order, wl0, wl, i, curMinw, mine)
      ensures Scanned(g, visited, order, wl0, wl', i', curMinw', mine')
      ensures |wl'| - i' == |wl| - i - 1
    {
      wl', i', curMinw', mine' := wl, i, curMinw, mine;
      var visitedVex := wl[i];
      var lmine := FindMinWeightEdge(visitedVex, visited);
      if lmine.NoEdge? {
        wl' := wl[..i] + wl[i + 1..];
        DropStep(g, visited, order, wl0, wl, i, curMinw, mine, wl');
        return;
      }
      i' := i + 1;
      if curMinw > lmine.minw {
        mine', curMinw' := lmine, lmine.minw;
      }
      KeepStep(g, visited, wl, i, curMinw, mine, lmine, i', curMinw', mine');
    }

    /** One round: the lightest edge leaving the visited vertices is taken, if there is one. */
    method BuildRound(root: VexIdx, visited: set<VexIdx>, wl: seq<VexIdx>, path: seq<EdgeId>,
                      ghost order: seq<VexIdx>, ghost tot: nat)
      returns (mine: Pick, wl': seq<VexIdx>, path': seq<EdgeId>, ghost order': seq<VexIdx>, ghost tot': nat)
      requires BuildState(g, root, order, path, tot, wl) && visited == SetOf(order)
      ensures mine.NoEdge? ==> MinimumTree(g, root, order, path, tot) && path' == path && tot' == tot && order' == order
      ensures mine.Pick? ==>
                && mine.newvex in g.vertices && mine.newvex !in visited && tot' == tot + mine.minw
                && SetOf(order') == visited + {mine.newvex}
                && BuildState(g, root, order', path', tot', wl')
    {
      path', order', tot' := path, order, tot;
      wl', mine := FindMinWeightEdgeForVisited(wl, visited, order);
      WholeWorklist(g, order, wl, mine);
      ForemostOfAll(g, order, wl', mine);
      if mine.NoEdge? {
        BuildEnd(g, root, order, path, tot);
        return;
      }
      ghost var kept := wl';
      wl' := wl' + [mine.newvex];
      path' := path + [mine.edge];
      tot' := tot + mine.minw;
      order' := order + [mine.newvex];
      RoundStep(g, root, order, path, tot, wl, kept, mine, order', path', tot', wl');
    }

    /** The spanning tree of the component of root and its weight, in 32 bits. The ghost results are the order
        in which the vertices were joined and the weight itself. */
    method Build(root: VexIdx) returns (totMinw: nat, path: seq<EdgeId>, ghost order: seq<VexIdx>, ghost weight: nat)
      requires g.Valid() && (root == VERTEX_UNDEF || root in g.vertices)
      ensures root == VERTEX_UNDEF ==> totMinw == 0 && path == []
      ensures root != VERTEX_UNDEF ==> MinimumTree(g, root, order, path, weight) && totMinw == weight % 0x1_0000_0000
      ensures forall e :: e in path ==> e in g.edges && g.Weight(e) < 0xFFFF_FFFF
      ensures root != VERTEX_UNDEF && (forall e :: e in g.edges ==> g.Weight(e) < 0xFFFF_FFFF) ==>
                CheapestConnection(g, root, order, path, weight)
    {
      path, totMinw, order, weight := [], MST_WEIGHT_UNDEF, [root], 0;
      if root == VERTEX_UNDEF {
        return;
      }
      path, totMinw, weight := Grow(root);
      order :| MinimumTree(g, root, order, path, weight);
      WrappedIsRest(weight);
      OnlyUsable(g, root, order, path, weight);
      if forall e :: e in g.edges ==> g.Weight(e) < 0xFFFF_FFFF {
        NothingLeftAside(g, root, order, path, weight);
      }
    }

    method Grow(root: VexIdx) returns (path: seq<EdgeId>, totMinw: nat, ghost weight: nat)
      requires g.Valid() && root in g.vertices
      ensures Finished(g, root, path, weight) && totMinw == Wrapped(weight)
    {
      var visited, wl;
      visited, wl, path := Start(root);
      path, totMinw, weight := AddEdges(root, visited, wl, path, MST_WEIGHT_UNDEF, 0);
    }

    method Start(root: VexIdx) returns (visited: set<VexIdx>, wl: seq<VexIdx>, path: seq<EdgeId>)
      requires g.Valid() && root in g.vertices
      ensures Growing(g, root, visited, path, 0, wl)
    {
      visited, wl, path := {root}, [root], [];
      TreeStart(g, root, path);
      ListStart(g, root, wl);
      StateGrows(g, root, [root], path, 0, wl, visited);
    }

    /** Rounds until no edge leads on. */
    method AddEdges(root: VexIdx, visited0: set<VexIdx>, wl0: seq<VexIdx>, path0: seq<EdgeId>, totMinw0: nat,
                    ghost weight0: nat)
      returns (path: seq<EdgeId>, totMinw: nat, ghost weight: nat)
      requires Growing(g, root, visited0, path0, weight0, wl0) && totMinw0 == Wrapped(weight0)
      ensures Finished(g, root, path, weight) && totMinw == Wrapped(weight)
    {
      path, totMinw, weight := path0, totMinw0, weight0;
      var visited, wl, done := visited0, wl0, false;
      while !done
        invariant if done then Finished(g, root, path, weight) else Growing(g, root, visited, path, weight, wl)
        invariant totMinw == Wrapped(weight)
        decreases !done, |g.vertices - visited|
      {
        done, visited, wl, path, totMinw, weight := AddEdge(root, visited, wl, path, totMinw, weight);
      }
    }

    /** The edge that the next round finds, if any, and its weight. */
    method AddEdge(root: VexIdx, visited: set<VexIdx>, wl: seq<VexIdx>, path: seq<EdgeId>, totMinw: nat,
                   ghost weight: nat)
      returns (done: bool, visited': set<VexIdx>, wl': seq<VexIdx>, path': seq<EdgeId>, totMinw': nat,
               ghost weight': nat)
      requires Growing(g, root, visited, path, weight, wl) && totMinw == Wrapped(weight)
      ensures totMinw' == Wrapped(weight')
      ensures done ==> Finished(g, root, path', weight')
      ensures !done ==> Growing(g, root, visited', path', weight', wl')
      ensures !done ==> |g.vertices - visited'| < |g.vertices - visited|
    {
      visited', totMinw' := visited, totMinw;
      var mine;
      mine, wl', path', weight' := NextRound(root, visited, wl, path, weight);
      done := mine.NoEdge?;
      if !done {
        FewerLeft(g, visited, mine.newvex);
        visited' := visited + {mine.newvex};
        totMinw' := AddWeight(totMinw, mine.minw, weight, weight');
      }
    }

    method NextRound(root: VexIdx, visited: set<VexIdx>, wl: seq<VexIdx>, path: seq<EdgeId>, ghost weight: nat)
      returns (mine: Pick, wl': seq<VexIdx>, path': seq<EdgeId>, ghost weight': nat)
      requires Growing(g, root, visited, path, weight, wl)
      ensures mine.NoEdge? ==> path' == path && weight' == weight && Finished(g, root, path, weight)
      ensures mine.Pick? ==>
                && mine.newvex in g.vertices && mine.newvex !in visited && weight' == weight + mine.minw
                && Growing(g, root, visited + {mine.newvex}, path', weight', wl')
    {
      ghost var order :| BuildState(g, root, order, path, weight, wl) && visited == SetOf(order);
      mine, wl', path', order, weight' := BuildRound(root, visited, wl, path, order, weight);
    }
  }

  /** Some order of the vertices visited explains the state. */
  ghost predicate Growing(g: WGraph, root: VexIdx, visited: set<VexIdx>, path: seq<EdgeId>, tot: nat, wl: seq<VexIdx>) {
    exists order: seq<VexIdx> {:trigger BuildState(g, root, order, path, tot, wl)} ::
      BuildState(g, root, order, path, tot, wl) && visited == SetOf(order)
  }

  ghost predicate Finished(g: WGraph, root: VexIdx, path: seq<EdgeId>, tot: nat) {
    exists order: seq<VexIdx> :: MinimumTree(g, root, order, path, tot)
  }

  /** A number cut to 32 bits. */
  ghost function Wrapped(n: nat): nat {
    if n < 0x1_0000_0000 then n else Wrapped(n - 0x1_0000_0000)
  }

  lemma {:induction false} WrappedIsRest(n: nat)
    ensures Wrapped(n) == n % 0x1_0000_0000
  {
    if n >= 0x1_0000_0000 {
      WrappedIsRest(n - 0x1_0000_0000);
    }
  }

  /** The sum of 32-bit numbers. */
  method AddWeight(tot: nat, w: nat, ghost weight: nat, ghost weight': nat) returns (sum: nat)
    requires tot == Wrapped(weight) && weight' == weight + w
    ensures sum == Wrapped(weight')
  {
    WrappedIsRest(weight);
    WrappedIsRest(weight');
    sum := (tot + w) % 0x1_0000_0000;
  }

  lemma OnlyUsable(g: WGraph, root: VexIdx, order: seq<VexIdx>, path: seq<EdgeId>, tot: nat)
    requires MinimumTree(g, root, order, path, tot)
    ensures forall e :: e in path ==> e in g.edges && g.Weight(e) < 0xFFFF_FFFF
  {
    assert forall e :: e in path ==> e in SetOf(path);
  }

  ghost predicate BuildState(g: WGraph, root: VexIdx, order: seq<VexIdx>, path: seq<EdgeId>, tot: nat,
                             wl: seq<VexIdx>) {
    BuildInv(g, root, order, path, tot) && WorklistOk(g, order, wl)
  }

  /** Only exhausted vertices are missing from the worklist. */
  ghost predicate WorklistOk(g: WGraph, order: seq<VexIdx>, wl: seq<VexIdx>) {
    && (forall v :: v in wl ==> v in order)
    && (forall v :: v in order && v !in wl ==> g.Exhausted(SetOf(order), v))
    && InOrder(wl, order)
  }

  lemma RoundStep(g: WGraph, root: VexIdx, order: seq<VexIdx>, path: seq<EdgeId>, tot: nat, wl: seq<VexIdx>,
                  kept: seq<VexIdx>, r: Pick, order': seq<VexIdx>, path': seq<EdgeId>, tot': nat, wl': seq<VexIdx>)
    requires BuildState(g, root, order, path, tot, wl) && r.Pick? && Best(g, SetOf(order), order, r)
    requires forall v :: v in kept ==> v in wl
    requires forall v :: v in wl && v !in kept ==> g.Exhausted(SetOf(order), v)
    requires InOrder(kept, order)
    requires order' == order + [r.newvex] && path' == path + [r.edge] && tot' == tot + r.minw
    requires wl' == kept + [r.newvex]
    ensures r.newvex in g.vertices && r.newvex !in SetOf(order) && SetOf(order') == SetOf(order) + {r.newvex}
    ensures BuildState(g, root, order', path', tot', wl')
  {
    BuildStep(g, root, order, path, tot, r);
    WorklistStep(g, order, wl, kept, r.newvex);
  }

  lemma WorklistStep(g: WGraph, order: seq<VexIdx>, wl0: seq<VexIdx>, wl: seq<VexIdx>, b: VexIdx)
    requires WorklistOk(g, order, wl0)
    requires forall v :: v in wl ==> v in wl0
    requires forall v :: v in wl0 && v !in wl ==> g.Exhausted(SetOf(order), v)
    requires InOrder(wl, order) && NoDup(order + [b])
    ensures WorklistOk(g, order + [b], wl + [b])
    ensures SetOf(order + [b]) == SetOf(order) + {b}
  {
    assert SetOf(order + [b]) == SetOf(order) + {b};
    JoinsLast(wl, order, b);
    forall v | v in order && v !in wl
      ensures g.Exhausted(SetOf(order + [b]), v)
    {
      assert g.Exhausted(SetOf(order), v);
      forall e, b'
        ensures !g.Crosses(SetOf(order + [b]), e, v, b')
      {
        assert !g.Crosses(SetOf(order), e, v, b');
      }
    }
  }

  /** After the first n edges of v. */
  ghost predicate PickSoFar(g: WGraph, visited: set<VexIdx>, v: VexIdx, n: nat, curw: nat, min: Pick) {
    match min
    case NoEdge => curw == MAX_WEIGHT
    case Pick(e, w, b) =>
      w == curw == g.Weight(e) && w < MAX_WEIGHT && g.Crosses(visited, e, v, b) && FirstAt(g, visited, v, n, e)
  }

  /** An outgoing edge lighter than all seen is the first of its weight. */
  lemma FirstOut(g: WGraph, visited: set<VexIdx>, v: VexIdx, i: nat, curw: nat)
    requires g.Valid() && v in g.vertices && v in visited && i < |g.outs[v]|
    requires OutSeen(g, visited, v, i, curw) && g.Weight(g.outs[v][i]) < curw
    ensures FirstAt(g, visited, v, i + 1, g.outs[v][i])
  {
    var e := g.outs[v][i];
    forall j, b | 0 <= j < i && g.Crosses(visited, Adjacent(g, v)[j], v, b)
      ensures g.Weight(e) < g.Weight(Adjacent(g, v)[j])
    {
      assert Adjacent(g, v)[j] == g.outs[v][j];
    }
    assert HeavierBefore(g, visited, v, i, e);
  }

  lemma FirstIn(g: WGraph, visited: set<VexIdx>, v: VexIdx, i: nat, curw: nat)
    requires g.Valid() && v in g.vertices && v in visited && i < |g.ins[v]|
    requires OutSeen(g, visited, v, |g.outs[v]|, curw) && InSeen(g, visited, v, i, curw)
    requires g.Weight(g.ins[v][i]) < curw
    ensures FirstAt(g, visited, v, |g.outs[v]| + (i + 1), g.ins[v][i])
  {
    var e, k := g.ins[v][i], |g.outs[v]| + i;
    forall j, b | 0 <= j < k && g.Crosses(visited, Adjacent(g, v)[j], v, b)
      ensures g.Weight(e) < g.Weight(Adjacent(g, v)[j])
    {
      SeenBefore(g, visited, v, i, curw, j, b);
    }
    assert HeavierBefore(g, visited, v, k, e);
  }

  lemma SeenBefore(g: WGraph, visited: set<VexIdx>, v: VexIdx, i: nat, curw: nat, j: nat, b: VexIdx)
    requires g.Valid() && v in g.vertices && v in visited && i < |g.ins[v]| && j < |g.outs[v]| + i
    requires OutSeen(g, visited, v, |g.outs[v]|, curw) && InSeen(g, visited, v, i, curw)
    requires g.Crosses(visited, Adjacent(g, v)[j], v, b)
    ensures curw <= g.Weight(Adjacent(g, v)[j])
  {
    var n := |g.outs[v]|;
    if j < n {
      assert Adjacent(g, v)[j] == g.outs[v][j];
    } else {
      assert Adjacent(g, v)[j] == g.ins[v][j - n];
    }
  }

  ghost predicate OutSeen(g: WGraph, visited: set<VexIdx>, v: VexIdx, n: nat, curw: nat)
    requires g.Valid() && v in g.vertices && n <= |g.outs[v]|
  {
    forall k :: 0 <= k < n ==>
      g.outs[v][k] in g.edges && (g.edges[g.outs[v][k]].to !in visited ==> curw <= g.Weight(g.outs[v][k]))
  }

  ghost predicate InSeen(g: WGraph, visited: set<VexIdx>, v: VexIdx, n: nat, curw: nat)
    requires g.Valid() && v in g.vertices && n <= |g.ins[v]|
  {
    forall k :: 0 <= k < n ==>
      g.ins[v][k] in g.edges && (g.edges[g.ins[v][k]].from !in visited ==> curw <= g.Weight(g.ins[v][k]))
  }

  ghost predicate OutScanned(g: WGraph, visited: set<VexIdx>, v: VexIdx, i: nat, curw: nat, min: Pick)
    requires g.Valid() && v in g.vertices
  {
    i <= |g.outs[v]| && PickSoFar(g, visited, v, i, curw, min) && OutSeen(g, visited, v, i, curw)
  }

  ghost predicate InScanned(g: WGraph, visited: set<VexIdx>, v: VexIdx, i: nat, curw: nat, min: Pick)
    requires g.Valid() && v in g.vertices
  {
    && i <= |g.ins[v]| && PickSoFar(g, visited, v, |g.outs[v]| + i, curw, min)
    && OutSeen(g, visited, v, |g.outs[v]|, curw) && InSeen(g, visited, v, i, curw)
  }

  /** One outgoing edge: it is taken if it leads outside and is lighter. */
  lemma OutStep(g: WGraph, visited: set<VexIdx>, v: VexIdx, i: nat, curw: nat, min: Pick,
                next: nat, curw': nat, min': Pick)
    requires g.Valid() && v in g.vertices && v in visited && OutScanned(g, visited, v, i, curw, min)
    requires i < |g.outs[v]| && g.outs[v][i] in g.edges && next == i + 1
    requires var e := g.outs[v][i];
      if g.edges[e].to in visited || curw <= g.Weight(e) then curw' == curw && min' == min
      else curw' == g.Weight(e) && min' == Pick(e, g.Weight(e), g.edges[e].to)
    ensures OutScanned(g, visited, v, next, curw', min')
  {
    OutEdge(g, visited, v, i);
    if min' == min {
      FirstStays(g, visited, v, i, next, min);
    } else {
      FirstOut(g, visited, v, i, curw);
    }
  }

  lemma FirstStays(g: WGraph, visited: set<VexIdx>, v: VexIdx, n: nat, next: nat, r: Pick)
    requires n <= next && (r.Pick? ==> FirstAt(g, visited, v, n, r.edge))
    ensures r.Pick? ==> FirstAt(g, visited, v, next, r.edge)
  {
  }

  /** One incoming edge, the same way. */
  lemma InStep(g: WGraph, visited: set<VexIdx>, v: VexIdx, i: nat, curw: nat, min: Pick,
               next: nat, curw': nat, min': Pick)
    requires g.Valid() && v in g.vertices && v in visited && InScanned(g, visited, v, i, curw, min)
    requires i < |g.ins[v]| && g.ins[v][i] in g.edges && next == i + 1
    requires var e := g.ins[v][i];
      if g.edges[e].from in visited || curw <= g.Weight(e) then curw' == curw && min' == min
      else curw' == g.Weight(e) && min' == Pick(e, g.Weight(e), g.edges[e].from)
    ensures InScanned(g, visited, v, next, curw', min')
  {
    InSeenStep(g, visited, v, i, curw, next, curw');
    InEdge(g, visited, v, i);
    if min' == min {
      FirstStays(g, visited, v, |g.outs[v]| + i, |g.outs[v]| + next, min);
    } else {
      FirstIn(g, visited, v, i, curw);
    }
  }

  lemma InSeenStep(g: WGraph, visited: set<VexIdx>, v: VexIdx, i: nat, curw: nat, next: nat, curw': nat)
    requires g.Valid() && v in g.vertices && i < |g.ins[v]| && g.ins[v][i] in g.edges && next == i + 1
    requires OutSeen(g, visited, v, |g.outs[v]|, curw) && InSeen(g, visited, v, i, curw) && curw' <= curw
    requires g.edges[g.ins[v][i]].from !in visited ==> curw' <= g.Weight(g.ins[v][i])
    ensures OutSeen(g, visited, v, |g.outs[v]|, curw') && InSeen(g, visited, v, next, curw')
  {
  }

  lemma AllSeen(g: WGraph, visited: set<VexIdx>, v: VexIdx, curw: nat, min: Pick)
    requires g.Valid() && v in g.vertices && v in visited
    requires PickSoFar(g, visited, v, |Adjacent(g, v)|, curw, min)
    requires OutSeen(g, visited, v, |g.outs[v]|, curw) && InSeen(g, visited, v, |g.ins[v]|, curw)
    ensures Best(g, visited, [v], min)
    ensures min.Pick? ==> min.minw < MAX_WEIGHT
  {
    forall e, b | g.Crosses(visited, e, v, b)
      ensures curw <= g.Weight(e)
    {
      CrossingSeen(g, visited, v, curw, e, b);
    }
    if min.Pick? {
      assert [v][0] == v && v in [v];
    }
  }

  lemma CrossingSeen(g: WGraph, visited: set<VexIdx>, v: VexIdx, curw: nat, e: EdgeId, b: VexIdx)
    requires g.Valid() && v in g.vertices && g.Crosses(visited, e, v, b)
    requires OutSeen(g, visited, v, |g.outs[v]|, curw) && InSeen(g, visited, v, |g.ins[v]|, curw)
    ensures curw <= g.Weight(e)
  {
    if g.edges[e].from == v {
      var k :| 0 <= k < |g.outs[v]| && g.outs[v][k] == e;
    } else {
      var k :| 0 <= k < |g.ins[v]| && g.ins[v][k] == e;
    }
  }

  ghost predicate OnlyExhaustedDropped(g: WGraph, visited: set<VexIdx>, wl0: seq<VexIdx>, wl: seq<VexIdx>) {
    && (forall v :: v in wl ==> v in wl0)
    && (forall v :: v in wl0 && v !in wl ==> g.Exhausted(visited, v))
  }

  /** mine is the first lightest edge leaving the first i vertices of wl, all of which have one. */
  ghost predicate LightestUpTo(g: WGraph, visited: set<VexIdx>, wl: seq<VexIdx>, i: nat, curMinw: nat, mine: Pick)
    requires i <= |wl|
  {
    if i == 0 then mine.NoEdge? && curMinw == MAX_WEIGHT
    else mine.Pick? && curMinw == mine.minw < MAX_WEIGHT && Best(g, visited, wl[..i], mine)
  }

  /** The state of the search through the worklist. */
  ghost predicate Scanned(g: WGraph, visited: set<VexIdx>, order: seq<VexIdx>, wl0: seq<VexIdx>, wl: seq<VexIdx>,
                          i: nat, curMinw: nat, mine: Pick) {
    && i <= |wl| && OnlyExhaustedDropped(g, visited, wl0, wl) && InOrder(wl, order)
    && LightestUpTo(g, visited, wl, i, curMinw, mine)
  }

  lemma DropStep(g: WGraph, visited: set<VexIdx>, order: seq<VexIdx>, wl0: seq<VexIdx>, wl: seq<VexIdx>, i: nat,
                 curMinw: nat, mine: Pick, wl': seq<VexIdx>)
    requires Scanned(g, visited, order, wl0, wl, i, curMinw, mine)
    requires i < |wl| && g.Exhausted(visited, wl[i]) && wl' == wl[..i] + wl[i + 1..]
    ensures Scanned(g, visited, order, wl0, wl', i, curMinw, mine)
  {
    assert wl == wl[..i] + [wl[i]] + wl[i + 1..];
    assert wl'[..i] == wl[..i];
    StaysInOrder(wl, order, i);
  }

  lemma KeepStep(g: WGraph, visited: set<VexIdx>, wl: seq<VexIdx>, i: nat, curMinw: nat, mine: Pick, lmine: Pick,
                 i': nat, curMinw': nat, mine': Pick)
    requires i < |wl| && LightestUpTo(g, visited, wl, i, curMinw, mine) && i' == i + 1
    requires lmine.Pick? && lmine.minw < MAX_WEIGHT && Best(g, visited, [wl[i]], lmine)
    requires if curMinw <= lmine.minw then curMinw' == curMinw && mine' == mine
             else curMinw' == lmine.minw && mine' == lmine
    ensures LightestUpTo(g, visited, wl, i', curMinw', mine')
  {
    var pre := wl[..i];
    assert wl[..i'] == pre + [wl[i]];
    if i == 0 {
      assert pre + [wl[0]] == [wl[0]];
    } else {
      KeepBest(g, visited, pre, wl[i], mine, lmine, mine');
    }
  }

  lemma KeepBest(g: WGraph, visited: set<VexIdx>, pre: seq<VexIdx>, v: VexIdx, mine: Pick, lmine: Pick, mine': Pick)
    requires mine.Pick? && lmine.Pick? && Best(g, visited, pre, mine) && Best(g, visited, [v], lmine)
    requires mine' == if mine.minw <= lmine.minw then mine else lmine
    ensures Best(g, visited, pre + [v], mine')
  {
    if mine.minw <= lmine.minw {
      LighterOfTwo(g, visited, pre, [v], mine, lmine);
      EarlierStays(g, visited, pre, v, mine);
    } else {
      LighterOfTwo(g, visited, pre, [v], lmine, mine);
      LaterIsFirst(g, visited, pre, v, lmine, mine);
    }
  }

  lemma EarlierStays(g: WGraph, visited: set<VexIdx>, from: seq<VexIdx>, v: VexIdx, r: Pick)
    requires r.Pick? && Foremost(g, visited, from, r)
    ensures Foremost(g, visited, from + [v], r)
  {
    var i :| 0 <= i < |from| && FirstAt(g, visited, from[i], |Adjacent(g, from[i])|, r.edge)
             && forall j :: 0 <= j < i ==> HeavierFrom(g, visited, from[j], r.edge);
    assert (from + [v])[i] == from[i] && forall j :: 0 <= j < i ==> (from + [v])[j] == from[j];
  }

  /** A later edge that is lighter than a lightest one before it is the first of its weight. */
  lemma LaterIsFirst(g: WGraph, visited: set<VexIdx>, from: seq<VexIdx>, v: VexIdx, r: Pick, q: Pick)
    requires r.Pick? && q.Pick? && r.minw < q.minw && Best(g, visited, [v], r) && Lightest(g, visited, from, q)
    ensures Foremost(g, visited, from + [v], r)
  {
    var i := |from|;
    assert (from + [v])[i] == v == [v][0];
    forall j | 0 <= j < i
      ensures HeavierFrom(g, visited, (from + [v])[j], r.edge)
    {
      assert (from + [v])[j] == from[j];
    }
  }

  /** The lighter of two picks is a lightest edge from both lists. */
  lemma LighterOfTwo(g: WGraph, visited: set<VexIdx>, from: seq<VexIdx>, more: seq<VexIdx>, r: Pick, q: Pick)
    requires r.Pick? && q.Pick? && r.minw <= q.minw
    requires (Lightest(g, visited, from, r) && Lightest(g, visited, more, q))
          || (Lightest(g, visited, from, q) && Lightest(g, visited, more, r))
    ensures Lightest(g, visited, from + more, r)
  {
  }

  lemma WorklistDone(g: WGraph, visited: set<VexIdx>, wl0: seq<VexIdx>, wl: seq<VexIdx>, i: nat, curMinw: nat,
                     mine: Pick)
    requires i == |wl| && OnlyExhaustedDropped(g, visited, wl0, wl) && LightestUpTo(g, visited, wl, i, curMinw, mine)
    ensures Lightest(g, visited, wl0, mine) && Foremost(g, visited, wl, mine)
    ensures mine.NoEdge? ==> wl == []
  {
    assert wl[..|wl|] == wl;
    forall e, a, b | a in wl0 && g.Crosses(visited, e, a, b)
      ensures a in wl
    {
    }
  }

  /** Where x stands in s. */
  ghost function Pos(s: seq<VexIdx>, x: VexIdx): (i: nat)
    requires x in s
    ensures i < |s| && s[i] == x
  {
    var i :| 0 <= i < |s| && s[i] == x;
    i
  }

  /** The members of wl stand in order one behind the other. */
  ghost predicate InOrder(wl: seq<VexIdx>, order: seq<VexIdx>) {
    && (forall i :: 0 <= i < |wl| ==> wl[i] in order)
    && forall i, j :: 0 <= i < j < |wl| ==> Pos(order, wl[i]) < Pos(order, wl[j])
  }

  lemma StaysInOrder(wl: seq<VexIdx>, order: seq<VexIdx>, i: nat)
    requires InOrder(wl, order) && i < |wl|
    ensures InOrder(wl[..i] + wl[i + 1..], order)
  {
    var wl' := wl[..i] + wl[i + 1..];
    assert forall k :: 0 <= k < |wl'| ==> wl'[k] == wl[if k < i then k else k + 1];
  }

  lemma JoinsLast(wl: seq<VexIdx>, order: seq<VexIdx>, b: VexIdx)
    requires InOrder(wl, order) && NoDup(order + [b])
    ensures InOrder(wl + [b], order + [b])
  {
    var wl', order' := wl + [b], order + [b];
    forall i | 0 <= i < |wl|
      ensures wl'[i] in order' && Pos(order', wl'[i]) == Pos(order, wl[i])
    {
      assert order'[Pos(order, wl[i])] == wl[i];
    }
    assert order'[|order|] == b && Pos(order', b) == |order|;
  }

  /** A vertex that is missing has no edge, so the first edge from wl is the first one of all. */
  lemma ForemostOfAll(g: WGraph, order: seq<VexIdx>, wl: seq<VexIdx>, r: Pick)
    requires NoDup(order) && InOrder(wl, order) && Foremost(g, SetOf(order), wl, r)
    requires forall v :: v in order && v !in wl ==> g.Exhausted(SetOf(order), v)
    ensures Foremost(g, SetOf(order), order, r)
  {
    if r.Pick? {
      var i :| 0 <= i < |wl| && FirstAt(g, SetOf(order), wl[i], |Adjacent(g, wl[i])|, r.edge)
               && forall j :: 0 <= j < i ==> HeavierFrom(g, SetOf(order), wl[j], r.edge);
      var p := Pos(order, wl[i]);
      forall q | 0 <= q < p
        ensures HeavierFrom(g, SetOf(order), order[q], r.edge)
      {
        EarlierIsHeavier(g, order, wl, i, q, r.edge);
      }
    }
  }

  lemma EarlierIsHeavier(g: WGraph, order: seq<VexIdx>, wl: seq<VexIdx>, i: nat, q: nat, e: EdgeId)
    requires NoDup(order) && InOrder(wl, order) && i < |wl| && q < Pos(order, wl[i])
    requires forall j :: 0 <= j < i ==> HeavierFrom(g, SetOf(order), wl[j], e)
    requires order[q] !in wl ==> g.Exhausted(SetOf(order), order[q])
    ensures HeavierFrom(g, SetOf(order), order[q], e)
  {
    if order[q] in wl {
      var j :| 0 <= j < |wl| && wl[j] == order[q];
      assert Pos(order, wl[j]) == q;
      assert j < i;
    } else {
      forall e', b
        ensures !g.Crosses(SetOf(order), e', order[q], b)
      {
      }
    }
  }

  /** Dropping exhausted vertices from the worklist loses no edge. */
  lemma WholeWorklist(g: WGraph, order: seq<VexIdx>, wl: seq<VexIdx>, r: Pick)
    requires Lightest(g, SetOf(order), wl, r)
    requires WorklistOk(g, order, wl)
    ensures Lightest(g, SetOf(order), order, r)
  {
    forall e, a, b | a in order && a !in wl
      ensures !g.Crosses(SetOf(order), e, a, b)
    {
    }
  }

  lemma FewerLeft(g: WGraph, visited: set<VexIdx>, b: VexIdx)
    requires b in g.vertices && b !in visited
    ensures |g.vertices - (visited + {b})| < |g.vertices - visited|
  {
    assert g.vertices - (visited + {b}) == g.vertices - visited - {b};
  }
}
