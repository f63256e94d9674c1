/** Reverse-postorder numbering by an explicit depth-first stack, `com/rpo.cpp`. */
module Rpo {
  import opened Graphs
  import opened DfsOrder

  const RPO_INTERVAL := 10
  const RPO_INIT_VAL := 0

  /** Each element after the first has an edge from an earlier element. */
  ghost predicate HasForwardPred(g: Graph, w: seq<VexIdx>, k: nat)
    requires k < |w|
  {
    exists j :: 0 <= j < k && g.Edge(w[j], w[k])
  }

  /** The order that the dominator walk needs of its vertex list. */
  ghost predicate RPOOrder(g: Graph, root: VexIdx, vlst: seq<VexIdx>) {
    && NoDup(vlst)
    && |vlst| > 0
    && vlst[0] == root
    && (forall v :: v in vlst <==> v in g.Vs())
    && (forall k: nat :: 0 < k < |vlst| ==> HasForwardPred(g, vlst, k))
  }

  /** An edge that does not go forward in w closes a cycle, if its source is at n or later. */
  ghost predicate RetreatingEdgesClose(g: Graph, w: seq<VexIdx>, n: nat) {
    forall j, k :: 0 <= j <= k < |w| && n <= k && g.Edge(w[k], w[j]) ==> Reaches(g, w[j], w[k])
  }

  ghost predicate Topological(g: Graph, w: seq<VexIdx>) {
    forall j, k :: 0 <= j < |w| && 0 <= k < |w| && g.Edge(w[j], w[k]) ==> j < k
  }

  /** The k-th vertex of the list holds the number `base + 10 * k`. */
  ghost predicate Numbered(vlst: seq<VexIdx>, rpo: map<VexIdx, int>, base: int) {
    && (forall v :: v in rpo <==> v in vlst)
    && (forall k :: 0 <= k < |vlst| ==> vlst[k] in rpo && rpo[vlst[k]] == base + 10 * k)
  }

  lemma NumberedCons(vlst: seq<VexIdx>, rpo: map<VexIdx, int>, base: int, v: VexIdx)
    requires Numbered(vlst, rpo, base) && v !in vlst
    ensures Numbered([v] + vlst, rpo[v := base - 10], base - 10)
  {
    var vlst' := [v] + vlst;
    assert forall k :: 0 < k < |vlst'| ==> vlst'[k] == vlst[k - 1];
  }

  /** The stack followed by the finished list: the part of the order fixed so far. */
  ghost predicate DfsInv(g: Graph, root: VexIdx, stk: seq<VexIdx>, vlst: seq<VexIdx>) {
    var w := stk + vlst;
    && |w| > 0 && w[0] == root
    && NoDup(w)
    && (forall i: nat :: i + 1 < |stk| ==> Hop(g, stk, i))
    && (forall v :: v in w ==> v in g.Vs() && Reaches(g, root, v))
    && (forall u, v :: u in vlst && g.Edge(u, v) ==> v in w)
    && (forall k: nat :: 0 < k < |w| ==> HasForwardPred(g, w, k))
    && RetreatingEdgesClose(g, w, |stk|)
  }

  /** Inserting s at n keeps every forward predecessor, if w[n - 1] has an edge to s. */
  lemma InsertKeepsForward(g: Graph, w: seq<VexIdx>, n: nat, s: VexIdx)
    requires 0 < n <= |w| && g.Edge(w[n - 1], s)
    requires forall k: nat :: 0 < k < |w| ==> HasForwardPred(g, w, k)
    ensures forall k: nat :: 0 < k < |w| + 1 ==> HasForwardPred(g, w[..n] + [s] + w[n..], k)
  {
    var w' := w[..n] + [s] + w[n..];
    forall k: nat | 0 < k < |w'|
      ensures HasForwardPred(g, w', k)
    {
      if k == n {
        assert g.Edge(w'[n - 1], w'[n]);
      } else {
        var k0 := if k < n then k else k - 1;
        assert HasForwardPred(g, w, k0);
        var j :| 0 <= j < k0 && g.Edge(w[j], w[k0]);
        assert w'[if j < n then j else j + 1] == w[j] && w'[k] == w[k0];
      }
    }
  }

  lemma InsertKeepsRetreating(g: Graph, w: seq<VexIdx>, n: nat, s: VexIdx)
    requires n <= |w| && s !in w
    requires RetreatingEdgesClose(g, w, n)
    requires forall k, v :: n <= k < |w| && g.Edge(w[k], v) ==> v in w
    ensures RetreatingEdgesClose(g, w[..n] + [s] + w[n..], n + 1)
  {
    var w' := w[..n] + [s] + w[n..];
    forall j, k | 0 <= j <= k < |w'| && n + 1 <= k && g.Edge(w'[k], w'[j])
      ensures Reaches(g, w'[j], w'[k])
    {
      assert w'[k] == w[k - 1];
      assert w'[j] in w;
      assert j != n;
      assert w'[j] == w[if j < n then j else j - 1];
    }
  }

  lemma DfsPush(g: Graph, root: VexIdx, stk: seq<VexIdx>, vlst: seq<VexIdx>, s: VexIdx)
    requires g.Valid() && DfsInv(g, root, stk, vlst) && |stk| > 0
    requires g.Edge(stk[|stk| - 1], s) && s !in stk + vlst
    ensures DfsInv(g, root, stk + [s], vlst)
    ensures |stk + [s] + vlst| <= |g.vertices|
  {
    var n := |stk|;
    var w, w' := stk + vlst, stk + [s] + vlst;
    assert w' == w[..n] + [s] + w[n..];
    assert w[n - 1] == stk[n - 1] && w[n - 1] in w;
    ReachesSnoc(g, root, stk[n - 1], s);
    InsertKeepsForward(g, w, n, s);
    forall k, v | n <= k < |w| && g.Edge(w[k], v)
      ensures v in w
    {
      assert w[k] in vlst;
    }
    InsertKeepsRetreating(g, w, n, s);
    forall i: nat | i + 1 < |stk + [s]|
      ensures Hop(g, stk + [s], i)
    {
      if i + 1 < n { assert Hop(g, stk, i); }
    }
    InsertMembers(w, n, s);
    NoDupBounded(g, w');
  }

  lemma InsertMembers(w: seq<VexIdx>, n: nat, s: VexIdx)
    requires n <= |w| && NoDup(w) && s !in w
    ensures NoDup(w[..n] + [s] + w[n..])
    ensures forall v :: v in w[..n] + [s] + w[n..] <==> v == s || v in w
  {
    assert w == w[..n] + w[n..];
    InsertNoDup(w, n, s);
  }

  lemma InsertNoDup(w: seq<VexIdx>, n: nat, s: VexIdx)
    requires n <= |w| && NoDup(w) && s !in w
    ensures NoDup(w[..n] + [s] + w[n..])
  {
    var w' := w[..n] + [s] + w[n..];
    assert forall k :: 0 <= k < |w'| && k != n ==> w'[k] == w[if k < n then k else k - 1];
  }

  lemma StackReaches(g: Graph, stk: seq<VexIdx>, j: nat)
    requires g.Valid() && j < |stk| && stk[0] in g.Vs()
    requires forall i: nat :: i + 1 < |stk| ==> Hop(g, stk, i)
    ensures Reaches(g, stk[j], stk[|stk| - 1])
  {
    assert IsPath(g, stk);
    PathSlice(g, stk, j, |stk|);
  }

  lemma DfsPop(g: Graph, root: VexIdx, stk: seq<VexIdx>, vlst: seq<VexIdx>)
    requires g.Valid() && DfsInv(g, root, stk, vlst) && |stk| > 0
    requires forall v :: g.Edge(stk[|stk| - 1], v) ==> v in stk + vlst
    ensures DfsInv(g, root, stk[..|stk| - 1], [stk[|stk| - 1]] + vlst)
    ensures stk[..|stk| - 1] + ([stk[|stk| - 1]] + vlst) == stk + vlst
    ensures stk[|stk| - 1] !in vlst
  {
    var n := |stk| - 1;
    var v := stk[n];
    var w := stk + vlst;
    assert stk[..n] + ([v] + vlst) == w;
    forall i | 0 <= i < |vlst|
      ensures vlst[i] != v
    {
      assert w[n] == v && w[n + 1 + i] == vlst[i];
    }
    forall i: nat | i + 1 < n
      ensures Hop(g, stk[..n], i)
    {
      assert Hop(g, stk, i);
    }
    forall j, k | 0 <= j <= k < |w| && n <= k && g.Edge(w[k], w[j])
      ensures Reaches(g, w[j], w[k])
    {
      if k == n {
        assert w[0] in w;
        StackReaches(g, stk, j);
      }
    }
  }

  /** The visited vertices are those on the stack and the finished ones, but the top of the
      stack may be new. */
  ghost predicate VisitedBelowTop(stk: seq<VexIdx>, vlst: seq<VexIdx>, isVisited: set<VexIdx>) {
    && (forall v :: v in vlst ==> v in isVisited)
    && (forall i :: 0 <= i < |stk| - 1 ==> stk[i] in isVisited)
    && (forall v :: v in isVisited ==> v in stk || v in vlst)
  }

  ghost predicate AllVisited(stk: seq<VexIdx>, vlst: seq<VexIdx>, isVisited: set<VexIdx>) {
    forall v :: v in isVisited <==> v in stk || v in vlst
  }

  lemma VisitTop(stk: seq<VexIdx>, vlst: seq<VexIdx>, isVisited: set<VexIdx>)
    requires stk != [] && VisitedBelowTop(stk, vlst, isVisited)
    ensures AllVisited(stk, vlst, isVisited + {stk[|stk| - 1]})
  {
  }

  lemma VisitedPush(stk: seq<VexIdx>, vlst: seq<VexIdx>, isVisited: set<VexIdx>, s: VexIdx)
    requires AllVisited(stk, vlst, isVisited)
    ensures VisitedBelowTop(stk + [s], vlst, isVisited)
  {
  }

  lemma VisitedPop(stk: seq<VexIdx>, vlst: seq<VexIdx>, isVisited: set<VexIdx>)
    requires stk != [] && AllVisited(stk, vlst, isVisited)
    ensures VisitedBelowTop(stk[..|stk| - 1], [stk[|stk| - 1]] + vlst, isVisited)
  {
    assert stk == stk[..|stk| - 1] + [stk[|stk| - 1]];
  }

  /** Pushes the first successor of v that is not visited, if there is one. */
  method PushSucc(g: Graph, v: VexIdx, isVisited: set<VexIdx>, stk: seq<VexIdx>)
    returns (find: bool, stk': seq<VexIdx>, ghost at: nat)
    requires v in g.outs
    ensures find ==> at < |g.outs[v]| && g.outs[v][at] !in isVisited && stk' == stk + [g.outs[v][at]]
    ensures find ==> forall k :: 0 <= k < at ==> g.outs[v][k] in isVisited
    ensures !find ==> stk' == stk && forall s :: g.Edge(v, s) ==> s in isVisited
  {
    find, stk', at := false, stk, 0;
    for i := 0 to |g.outs[v]|
      invariant !find && stk' == stk
      invariant forall k :: 0 <= k < i ==> g.outs[v][k] in isVisited
    {
      if g.outs[v][i] !in isVisited {
        at := i;
        stk' := stk + [g.outs[v][i]];
        find := true;
        break;
      }
    }
  }

  /** Lists the vertices that root reaches and numbers them. The out-parameter rpo holds
      the vertices' rpo fields. */
  method ComputeRPO(g: Graph, root: VexIdx) returns (vlst: seq<VexIdx>, rpo: map<VexIdx, int>)
    requires g.Valid() && root in g.Vs()
    ensures NoDup(vlst) && |vlst| > 0 && vlst[0] == root
    ensures forall v :: v in vlst <==> Reaches(g, root, v)
    ensures vlst == DfsList(g, root)
    ensures Numbered(vlst, rpo, 10 * (|g.vertices| - |vlst|))
    ensures forall k: nat :: 0 < k < |vlst| ==> HasForwardPred(g, vlst, k)
    ensures RetreatingEdgesClose(g, vlst, 0)
  {
    var isVisited: set<VexIdx> := {};
    var stk := [root];
    var order := RPO_INIT_VAL + |g.vertices| * RPO_INTERVAL;
    vlst, rpo := [], map[];
    ghost var list := DfsList(g, root);
    PathSingle(g, root);
    NoDupBounded(g, stk);
    SearchStarts(g, root);
    while stk != []
      invariant DfsInv(g, root, stk, vlst)
      invariant VisitedBelowTop(stk, vlst, isVisited)
      invariant EndsWith(g, isVisited, stk, vlst, list)
      invariant order == 10 * (|g.vertices| - |vlst|)
      invariant Numbered(vlst, rpo, order)
      invariant |stk + vlst| <= |g.vertices|
      decreases |g.vertices| - |stk + vlst|, |stk|
    {
      var v := stk[|stk| - 1];
      assert v in stk + vlst;
      VisitTop(stk, vlst, isVisited);
      TopSeen(g, isVisited, stk, vlst, list, v);
      isVisited := isVisited + {v};
      var find, stk1;
      ghost var at;
      find, stk1, at := PushSucc(g, v, isVisited, stk);
      if !find {
        TopLeft(g, isVisited, stk, vlst, list, v);
        DfsPop(g, root, stk, vlst);
        VisitedPop(stk, vlst, isVisited);
        NumberedCons(vlst, rpo, order, v);
        stk := stk[..|stk| - 1];
        vlst := [v] + vlst;
        order := order - RPO_INTERVAL;
        rpo := rpo[v := order];
      } else {
        assert g.Edge(v, g.outs[v][at]);
        NextPushed(g, isVisited, stk, vlst, list, v, at);
        DfsPush(g, root, stk, vlst, g.outs[v][at]);
        VisitedPush(stk, vlst, isVisited, g.outs[v][at]);
        stk := stk1;
      }
    }
    assert stk + vlst == vlst;
    forall v | Reaches(g, root, v)
      ensures v in vlst
    {
      ClosedHoldsReachable(g, SetOf(vlst), root, v);
    }
  }

  /** On a graph that root reaches entirely, the result is a numbering 0, 10, 20, ... of
      all vertices in the order that the dominator walk needs. */
  lemma ReachableGraphIsNumbered(g: Graph, root: VexIdx, vlst: seq<VexIdx>, rpo: map<VexIdx, int>)
    requires g.Valid() && root in g.Vs() && AllReachable(g, root)
    requires NoDup(vlst) && |vlst| > 0 && vlst[0] == root
    requires forall v :: v in vlst <==> Reaches(g, root, v)
    requires Numbered(vlst, rpo, 10 * (|g.vertices| - |vlst|))
    requires forall k: nat :: 0 < k < |vlst| ==> HasForwardPred(g, vlst, k)
    ensures RPOOrder(g, root, vlst)
    ensures Numbered(vlst, rpo, 0)
    ensures rpo.Keys == g.Vs()
  {
    forall v | Reaches(g, root, v)
      ensures v in g.Vs()
    {
      var p :| PathFromTo(g, root, v, p);
      PathVertices(g, p, |p| - 1);
    }
    NoDupCard(vlst);
    NoDupCard(g.vertices);
    assert SetOf(vlst) == g.Vs();
  }

  /** An order in which every non-forward edge closes a cycle is topological exactly when
      the listed vertices lie on no cycle. */
  lemma TopologicalIffAcyclic(g: Graph, w: seq<VexIdx>)
    requires g.Valid() && NoDup(w) && RetreatingEdgesClose(g, w, 0)
    requires forall u, v :: u in w && g.Edge(u, v) ==> v in w
    ensures Topological(g, w) <==> forall v :: v in w ==> !OnCycle(g, v)
  {
    if forall v :: v in w ==> !OnCycle(g, v) {
      forall j, k | 0 <= j < |w| && 0 <= k < |w| && g.Edge(w[j], w[k])
        ensures j < k
      {
        if k <= j {
          assert OnCycle(g, w[j]);
        }
      }
    }
    if Topological(g, w) {
      forall v | v in w
        ensures !OnCycle(g, v)
      {
        TopologicalHasNoCycle(g, w, v);
      }
    }
  }

  lemma TopologicalHasNoCycle(g: Graph, w: seq<VexIdx>, v: VexIdx)
    requires g.Valid() && NoDup(w) && Topological(g, w) && v in w
    requires forall u, v :: u in w && g.Edge(u, v) ==> v in w
    ensures !OnCycle(g, v)
  {
    if OnCycle(g, v) {
      var x :| g.Edge(v, x) && Reaches(g, x, v);
      var p :| PathFromTo(g, x, v, p);
      var i :| 0 <= i < |w| && w[i] == v;
      var j :| 0 <= j < |w| && w[j] == x;
      TopologicalPathAscends(g, w, p, j, |p| - 1, i);
    }
  }

  lemma {:induction false} TopologicalPathAscends(g: Graph, w: seq<VexIdx>, p: seq<VexIdx>, i: nat, n: nat, k: nat)
    requires NoDup(w) && Topological(g, w) && IsPath(g, p) && n < |p|
    requires forall u, v :: u in w && g.Edge(u, v) ==> v in w
    requires i < |w| && w[i] == p[0] && k < |w| && w[k] == p[n]
    ensures i <= k
  {
    if n > 0 {
      ClosedHoldsPath(g, SetOf(w), p, n - 1);
      var m :| 0 <= m < |w| && w[m] == p[n - 1];
      TopologicalPathAscends(g, w, p, i, n - 1, m);
      assert Hop(g, p, n - 1);
    }
  }
}
