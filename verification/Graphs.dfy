/** Directed graphs with ordered adjacency lists, as `com/sgraph.h` stores them, and
    the paths through them. The algorithms of the other modules only read a graph, so
    a graph is a value here. */
module Graphs {

  type VexIdx = nat

  /** No vertex has this index; the tables use it for "no vertex". */
  const VERTEX_UNDEF: VexIdx := 0

  ghost predicate NoDup<T>(s: seq<T>) {
    forall i, j :: 0 <= i < j < |s| ==> s[i] != s[j]
  }

  function SetOf<T>(s: seq<T>): set<T> {
    set v | v in s
  }

  datatype Graph = Graph(
    vertices: seq<VexIdx>,
    outs: map<VexIdx, seq<VexIdx>>,
    ins: map<VexIdx, seq<VexIdx>>)
  {
    function Vs(): set<VexIdx> {
      SetOf(vertices)
    }

    /** Every edge is in the out-list of its source and in the in-list of its target. */
    ghost predicate Valid() {
      && NoDup(vertices)
      && VERTEX_UNDEF !in vertices
      && outs.Keys == Vs()
      && ins.Keys == Vs()
      && (forall u, v :: Edge(u, v) <==> v in ins && u in ins[v])
    }

    predicate Edge(u: VexIdx, v: VexIdx) {
      u in outs && v in outs[u]
    }

    predicate IsEntry(v: VexIdx)
      requires v in ins
    {
      ins[v] == []
    }

    predicate IsExit(v: VexIdx)
      requires v in outs
    {
      outs[v] == []
    }

    /** The graph with every edge turned round. */
    function Reverse(): Graph {
      Graph(vertices, ins, outs)
    }
  }

  ghost predicate Hop(g: Graph, p: seq<VexIdx>, i: nat)
    requires i + 1 < |p|
  {
    g.Edge(p[i], p[i + 1])
  }

  ghost predicate IsPath(g: Graph, p: seq<VexIdx>) {
    && |p| > 0
    && p[0] in g.Vs()
    && forall i: nat :: i + 1 < |p| ==> Hop(g, p, i)
  }

  ghost predicate PathFromTo(g: Graph, u: VexIdx, v: VexIdx, p: seq<VexIdx>) {
    IsPath(g, p) && p[0] == u && p[|p| - 1] == v
  }

  ghost predicate Reaches(g: Graph, u: VexIdx, v: VexIdx) {
    exists p :: PathFromTo(g, u, v, p)
  }

  /** v lies on a cycle: one edge leads from v to a vertex that reaches v. */
  ghost predicate OnCycle(g: Graph, v: VexIdx) {
    exists w :: g.Edge(v, w) && Reaches(g, w, v)
  }

  ghost predicate Acyclic(g: Graph) {
    forall v :: !OnCycle(g, v)
  }

  ghost predicate AllReachable(g: Graph, root: VexIdx) {
    forall v {:trigger Reaches(g, root, v)} :: v in g.Vs() ==> Reaches(g, root, v)
  }

  lemma PathSingle(g: Graph, v: VexIdx)
    requires v in g.Vs()
    ensures PathFromTo(g, v, v, [v])
    ensures Reaches(g, v, v)
  {
    assert PathFromTo(g, v, v, [v]);
  }

  lemma PathSlice(g: Graph, p: seq<VexIdx>, i: nat, j: nat)
    requires g.Valid() && IsPath(g, p) && i < j <= |p|
    ensures PathFromTo(g, p[i], p[j - 1], p[i..j])
  {
    PathVertices(g, p, i);
    var q := p[i..j];
    forall k: nat | k + 1 < |q|
      ensures Hop(g, q, k)
    {
      assert Hop(g, p, i + k);
    }
  }

  lemma PathVertices(g: Graph, p: seq<VexIdx>, i: nat)
    requires g.Valid() && IsPath(g, p) && i < |p|
    ensures p[i] in g.Vs()
  {
    if i > 0 {
      assert Hop(g, p, i - 1);
    }
  }

  lemma PathAppend(g: Graph, u: VexIdx, m: VexIdx, v: VexIdx, p: seq<VexIdx>, q: seq<VexIdx>)
    requires PathFromTo(g, u, m, p) && PathFromTo(g, m, v, q)
    ensures PathFromTo(g, u, v, p + q[1..])
  {
    var r := p + q[1..];
    forall k: nat | k + 1 < |r|
      ensures Hop(g, r, k)
    {
      if k + 1 < |p| {
        assert Hop(g, p, k);
      } else {
        assert Hop(g, q, k + 1 - |p|);
      }
    }
  }

  lemma PathSnoc(g: Graph, u: VexIdx, v: VexIdx, p: seq<VexIdx>, w: VexIdx)
    requires PathFromTo(g, u, v, p) && g.Edge(v, w)
    ensures PathFromTo(g, u, w, p + [w])
  {
    var r := p + [w];
    forall k: nat | k + 1 < |r|
      ensures Hop(g, r, k)
    {
      if k + 1 < |p| {
        assert Hop(g, p, k);
      }
    }
  }

  lemma ReachesTrans(g: Graph, u: VexIdx, v: VexIdx, w: VexIdx)
    requires Reaches(g, u, v) && Reaches(g, v, w)
    ensures Reaches(g, u, w)
  {
    var p :| PathFromTo(g, u, v, p);
    var q :| PathFromTo(g, v, w, q);
    PathAppend(g, u, v, w, p, q);
  }

  lemma ReachesEdge(g: Graph, u: VexIdx, v: VexIdx)
    requires g.Valid() && g.Edge(u, v)
    ensures Reaches(g, u, v)
  {
    PathSingle(g, u);
    PathSnoc(g, u, u, [u], v);
  }

  lemma ReachesSnoc(g: Graph, u: VexIdx, v: VexIdx, w: VexIdx)
    requires g.Valid() && Reaches(g, u, v) && g.Edge(v, w)
    ensures Reaches(g, u, w)
  {
    ReachesEdge(g, v, w);
    ReachesTrans(g, u, v, w);
  }

  /** A set that holds u and is closed under edges holds everything u reaches. */
  lemma ClosedHoldsReachable(g: Graph, s: set<VexIdx>, u: VexIdx, v: VexIdx)
    requires u in s && Reaches(g, u, v)
    requires forall a, b :: a in s && g.Edge(a, b) ==> b in s
    ensures v in s
  {
    var p :| PathFromTo(g, u, v, p);
    ClosedHoldsPath(g, s, p, |p| - 1);
  }

  lemma {:induction false} ClosedHoldsPath(g: Graph, s: set<VexIdx>, p: seq<VexIdx>, i: nat)
    requires IsPath(g, p) && i < |p| && p[0] in s
    requires forall a, b :: a in s && g.Edge(a, b) ==> b in s
    ensures p[i] in s
  {
    if i > 0 {
      ClosedHoldsPath(g, s, p, i - 1);
      assert Hop(g, p, i - 1);
    }
  }

  /** Reversing keeps validity and turns every path round. */
  lemma ReversePath(g: Graph, u: VexIdx, v: VexIdx, p: seq<VexIdx>) returns (q: seq<VexIdx>)
    requires g.Valid() && PathFromTo(g, u, v, p)
    ensures PathFromTo(g.Reverse(), v, u, q)
    ensures forall x :: x in q <==> x in p
  {
    q := seq(|p|, i requires 0 <= i < |p| => p[|p| - 1 - i]);
    PathVertices(g, p, |p| - 1);
    forall k: nat | k + 1 < |q|
      ensures Hop(g.Reverse(), q, k)
    {
      assert Hop(g, p, |p| - 2 - k);
    }
    forall x | x in p
      ensures x in q
    {
      var i :| 0 <= i < |p| && p[i] == x;
      assert q[|p| - 1 - i] == x;
    }
  }

  lemma ReverseValid(g: Graph)
    requires g.Valid()
    ensures g.Reverse().Valid()
    ensures g.Reverse().Vs() == g.Vs()
    ensures forall u, v :: g.Reverse().Edge(u, v) <==> g.Edge(v, u)
  {
    forall u, v
      ensures g.Reverse().Edge(u, v) <==> g.Edge(v, u)
    {
      assert g.Edge(v, u) <==> u in g.ins && v in g.ins[u];
    }
  }

  lemma {:induction false} NoDupCard<T>(s: seq<T>)
    requires NoDup(s)
    ensures |SetOf(s)| == |s|
  {
    if s == [] {
      assert SetOf(s) == {};
    } else {
      var t, x := s[..|s| - 1], s[|s| - 1];
      NoDupCard(t);
      assert s == t + [x];
      assert SetOf(s) == SetOf(t) + {x};
    }
  }

  /** A list without repetition over the vertices of g is no longer than g. */
  lemma NoDupBounded(g: Graph, s: seq<VexIdx>)
    requires g.Valid() && NoDup(s)
    requires forall v :: v in s ==> v in g.Vs()
    ensures |s| <= |g.vertices|
    ensures |s| == |g.vertices| ==> SetOf(s) == g.Vs()
  {
    NoDupCard(s);
    NoDupCard(g.vertices);
    SubsetCard(SetOf(s), g.Vs());
  }

  lemma SubsetCard<T>(a: set<T>, b: set<T>)
    requires a <= b
    ensures |a| <= |b|
    ensures |a| == |b| ==> a == b
  {
    assert b == a + (b - a);
  }
}
