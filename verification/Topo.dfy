/** Kahn's topological sort, `Graph::sortInTopologOrder` of `com/sgraph.cpp`, on every graph: with
    parallel edges a vertex may become ready more than once. */
module Topo {
  import opened Graphs
  import opened Rpo

  ghost predicate NoParallelEdges(g: Graph) {
    forall v :: v in g.outs ==> NoDup(g.outs[v])
  }

  /** All predecessors of v are among s. */
  ghost predicate PredsIn(g: Graph, v: VexIdx, s: seq<VexIdx>) {
    forall u :: g.Edge(u, v) ==> u in s
  }

  /** Each element comes after all its predecessors. */
  ghost predicate AfterPreds(g: Graph, done: seq<VexIdx>) {
    forall k :: 0 <= k < |done| ==> PredsIn(g, done[k], done[..k])
  }

  /** The finished vertices done and the ready ones, whose predecessors are all finished. */
  ghost predicate KahnInv(g: Graph, done: seq<VexIdx>, ready: seq<VexIdx>) {
    && g.Valid()
    && (forall v :: v in done || v in ready ==> v in g.Vs())
    && AfterPreds(g, done)
    && (forall v :: v in ready ==> PredsIn(g, v, done))
  }

  /** Every vertex whose predecessors are all finished is listed. */
  ghost predicate Complete(g: Graph, done: seq<VexIdx>, ready: seq<VexIdx>) {
    forall v :: v in g.Vs() && PredsIn(g, v, done) ==> v in done || v in ready
  }

  // ---- The order in which vertices are finished ----

  /** The vertices among the first n that have no predecessor. */
  ghost function Sources(g: Graph, n: nat): seq<VexIdx>
    requires g.Valid() && n <= |g.vertices|
  {
    if n == 0 then []
    else
      assert g.vertices[n - 1] in g.Vs();
      Sources(g, n - 1) + if g.ins[g.vertices[n - 1]] == [] then [g.vertices[n - 1]] else []
  }

  /** The members of us whose predecessors are all finished, as often as they are in us. */
  ghost function Freed(g: Graph, done: seq<VexIdx>, us: seq<VexIdx>): seq<VexIdx> {
    if us == [] then []
    else Freed(g, done, us[..|us| - 1]) + if PredsIn(g, us[|us| - 1], done) then [us[|us| - 1]] else []
  }

  /** The list of ready vertices after its head was finished. */
  ghost function NextReady(g: Graph, done: seq<VexIdx>, ready: seq<VexIdx>): seq<VexIdx>
    requires KahnInv(g, done, ready) && ready != []
  {
    ready[1..] + Freed(g, done + [ready[0]], g.outs[ready[0]])
  }

  ghost function Run(g: Graph, done: seq<VexIdx>, ready: seq<VexIdx>): seq<VexIdx>
    requires KahnInv(g, done, ready)
    decreases QueuePending(g, ready)
  {
    if ready == [] then done
    else
      TakeReady(g, done, ready);
      PendingDrops(g, done, ready);
      Run(g, done + [ready[0]], NextReady(g, done, ready))
  }

  /** All vertices the sort finishes, in order and with repetitions. */
  ghost function KahnOrder(g: Graph): seq<VexIdx>
    requires g.Valid()
  {
    SourcesReady(g);
    Run(g, [], Sources(g, |g.vertices|))
  }

  lemma {:induction false} SourcesAre(g: Graph, n: nat)
    requires g.Valid() && n <= |g.vertices|
    ensures NoDup(Sources(g, n))
    ensures forall v :: v in Sources(g, n) <==> v in g.vertices[..n] && v in g.ins && g.ins[v] == []
  {
    if n > 0 {
      SourcesAre(g, n - 1);
      assert g.vertices[n - 1] in g.Vs();
      assert g.vertices[..n] == g.vertices[..n - 1] + [g.vertices[n - 1]];
      assert g.vertices[n - 1] !in g.vertices[..n - 1];
    }
  }

  lemma SourcesReady(g: Graph)
    requires g.Valid()
    ensures var ready := Sources(g, |g.vertices|);
      KahnInv(g, [], ready) && Complete(g, [], ready) && NoDup([] + ready)
  {
    var ready := Sources(g, |g.vertices|);
    SourcesAre(g, |g.vertices|);
    assert g.vertices[..|g.vertices|] == g.vertices && [] + ready == ready;
    forall v | v in g.Vs()
      ensures PredsIn(g, v, []) <==> g.ins[v] == []
    {
      if g.ins[v] != [] {
        assert g.Edge(g.ins[v][0], v);
      }
    }
  }

  lemma {:induction false} FreedAre(g: Graph, done: seq<VexIdx>, us: seq<VexIdx>)
    ensures forall v :: v in Freed(g, done, us) <==> v in us && PredsIn(g, v, done)
    ensures NoDup(us) ==> NoDup(Freed(g, done, us))
  {
    if us != [] {
      FreedAre(g, done, us[..|us| - 1]);
      assert us == us[..|us| - 1] + [us[|us| - 1]];
    }
  }

  // ---- One vertex is finished ----

  lemma TakeReady(g: Graph, done: seq<VexIdx>, ready: seq<VexIdx>)
    requires KahnInv(g, done, ready) && ready != []
    ensures KahnInv(g, done + [ready[0]], NextReady(g, done, ready))
    ensures Complete(g, done, ready) ==> Complete(g, done + [ready[0]], NextReady(g, done, ready))
  {
    var x := ready[0];
    var done' := done + [x];
    FreedAre(g, done', g.outs[x]);
    assert ready == [x] + ready[1..];
    forall k | 0 <= k < |done'|
      ensures PredsIn(g, done'[k], done'[..k])
    {
      assert done'[..k] == done[..k];
      assert k == |done| ==> done[..k] == done;
    }
    forall v | v in NextReady(g, done, ready)
      ensures v in g.Vs() && PredsIn(g, v, done')
    {
      if v in ready[1..] {
        assert v in ready && PredsIn(g, v, done);
      } else {
        assert g.Edge(x, v);
      }
    }
    if Complete(g, done, ready) {
      forall v | v in g.Vs() && PredsIn(g, v, done')
        ensures v in done' || v in NextReady(g, done, ready)
      {
        if !g.Edge(x, v) {
          assert PredsIn(g, v, done);
        }
      }
    }
  }

  lemma DonePredsDone(g: Graph, done: seq<VexIdx>, ready: seq<VexIdx>, u: VexIdx, v: VexIdx)
    requires KahnInv(g, done, ready) && g.Edge(u, v) && (v in done || v in ready)
    ensures u in done
  {
    if v in done {
      var k :| 0 <= k < |done| && done[k] == v;
      assert PredsIn(g, done[k], done[..k]);
    }
  }

  /** A vertex becomes ready for a second time only if it is freed twice at once. */
  lemma FreedAreNew(g: Graph, done: seq<VexIdx>, ready: seq<VexIdx>)
    requires KahnInv(g, done, ready) && ready != [] && NoDup(done + ready)
    ensures NoDup(done + [ready[0]] + NextReady(g, done, ready)) <==>
              NoDup(Freed(g, done + [ready[0]], g.outs[ready[0]]))
  {
    var x := ready[0];
    var freed := Freed(g, done + [x], g.outs[x]);
    FreedAre(g, done + [x], g.outs[x]);
    assert done + [x] + NextReady(g, done, ready) == done + ready + freed;
    HeadNotDone(done, ready);
    forall v | v in freed
      ensures v !in done + ready
    {
      if v in done + ready {
        assert g.Edge(x, v);
        DonePredsDone(g, done, ready, x, v);
      }
    }
    NoDupConcat(done + ready, freed);
  }

  lemma HeadNotDone(done: seq<VexIdx>, ready: seq<VexIdx>)
    requires NoDup(done + ready) && ready != []
    ensures ready[0] !in done
  {
    forall k | 0 <= k < |done|
      ensures done[k] != ready[0]
    {
      assert (done + ready)[k] != (done + ready)[|done|];
    }
  }

  lemma NoDupConcat<T>(a: seq<T>, b: seq<T>)
    requires NoDup(a) && forall x :: x in b ==> x !in a
    ensures NoDup(a + b) <==> NoDup(b)
  {
    if NoDup(a + b) {
      forall i, j | 0 <= i < j < |b|
        ensures b[i] != b[j]
      {
        assert (a + b)[|a| + i] != (a + b)[|a| + j];
      }
    }
    if NoDup(b) {
      NoDupBoth(a, b);
    }
  }

  lemma NoDupBoth<T>(a: seq<T>, b: seq<T>)
    requires NoDup(a) && NoDup(b) && forall x :: x in b ==> x !in a
    ensures NoDup(a + b)
  {
    forall i, j | 0 <= i < j < |a + b|
      ensures (a + b)[i] != (a + b)[j]
    {
      if i < |a| <= j {
        assert b[j - |a|] in b && a[i] in a;
      }
    }
  }

  lemma RunStep(g: Graph, done: seq<VexIdx>, ready: seq<VexIdx>, done': seq<VexIdx>, ready': seq<VexIdx>)
    requires KahnInv(g, done, ready) && ready != []
    requires done' == done + [ready[0]] && ready' == NextReady(g, done, ready)
    ensures KahnInv(g, done', ready') && Run(g, done, ready) == Run(g, done', ready')
  {
    TakeReady(g, done, ready);
  }

  // ---- No finished vertex is on a cycle ----

  /** Whatever reaches a finished vertex was finished no later. */
  lemma {:induction false} ReachedFromEarlier(g: Graph, done: seq<VexIdx>, p: seq<VexIdx>, j: nat, k: nat)
    returns (m: nat)
    requires AfterPreds(g, done) && IsPath(g, p) && j < |p| && k < |done| && done[k] == p[|p| - 1]
    ensures m <= k && done[m] == p[j]
    decreases |p| - j
  {
    if j == |p| - 1 {
      m := k;
    } else {
      var n := ReachedFromEarlier(g, done, p, j + 1, k);
      assert Hop(g, p, j) && PredsIn(g, done[n], done[..n]);
      m :| 0 <= m < n && done[..n][m] == p[j];
    }
  }

  lemma {:induction false} DoneNotOnCycle(g: Graph, done: seq<VexIdx>, k: nat)
    requires AfterPreds(g, done) && k < |done|
    ensures !OnCycle(g, done[k])
    decreases k
  {
    if OnCycle(g, done[k]) {
      var x :| g.Edge(done[k], x) && Reaches(g, x, done[k]);
      var p :| PathFromTo(g, x, done[k], p);
      var m := ReachedFromEarlier(g, done, p, 0, k);
      assert PredsIn(g, done[m], done[..m]);
      var n :| 0 <= n < m && done[..m][n] == done[k];
      DoneNotOnCycle(g, done, n);
    }
  }

  // ---- The sort ends ----

  ghost function Reaching(g: Graph, v: VexIdx): (us: set<VexIdx>)
    ensures |us| <= |g.Vs()|
  {
    var us := set u | u in g.Vs() && Reaches(g, u, v);
    SubsetCard(us, g.Vs());
    us
  }

  lemma ReachingGrows(g: Graph, u: VexIdx, w: VexIdx)
    requires g.Valid() && g.Edge(u, w) && !OnCycle(g, u)
    ensures |Reaching(g, u)| < |Reaching(g, w)|
  {
    forall a | a in Reaching(g, u)
      ensures a in Reaching(g, w)
    {
      ReachesSnoc(g, a, u, w);
    }
    assert w in g.ins;
    PathSingle(g, w);
    assert w !in Reaching(g, u);
    SubsetCard(Reaching(g, u) + {w}, Reaching(g, w));
  }

  /** How many vertices may still be finished because v is in the list. */
  ghost function Pending(g: Graph, v: VexIdx): nat
    decreases |g.Vs()| - |Reaching(g, v)|, 1, 0
  {
    1 + if v in g.outs then PendingSuccs(g, v, g.outs[v]) else 0
  }

  ghost function PendingSuccs(g: Graph, v: VexIdx, us: seq<VexIdx>): nat
    decreases |g.Vs()| - |Reaching(g, v)|, 0, |us|
  {
    if us == [] then 0
    else
      var w := us[|us| - 1];
      PendingSuccs(g, v, us[..|us| - 1]) + if |Reaching(g, v)| < |Reaching(g, w)| then Pending(g, w) else 0
  }

  ghost function QueuePending(g: Graph, q: seq<VexIdx>): nat {
    if q == [] then 0 else QueuePending(g, q[..|q| - 1]) + Pending(g, q[|q| - 1])
  }

  lemma {:induction false} QueuePendingAdds(g: Graph, p: seq<VexIdx>, q: seq<VexIdx>)
    ensures QueuePending(g, p + q) == QueuePending(g, p) + QueuePending(g, q)
  {
    if q == [] {
      assert p + q == p;
    } else {
      QueuePendingAdds(g, p, q[..|q| - 1]);
      assert (p + q)[..|p + q| - 1] == p + q[..|q| - 1];
    }
  }

  lemma {:induction false} FreedPending(g: Graph, done: seq<VexIdx>, v: VexIdx, us: seq<VexIdx>)
    requires g.Valid() && !OnCycle(g, v) && forall w :: w in us ==> g.Edge(v, w)
    ensures QueuePending(g, Freed(g, done, us)) <= PendingSuccs(g, v, us)
  {
    if us != [] {
      var front, w := us[..|us| - 1], us[|us| - 1];
      FreedPending(g, done, v, front);
      ReachingGrows(g, v, w);
      if PredsIn(g, w, done) {
        QueuePendingAdds(g, Freed(g, done, front), [w]);
        assert [w][..|[w]| - 1] == [];
      } else {
        assert Freed(g, done, us) == Freed(g, done, front);
      }
    }
  }

  lemma PendingDrops(g: Graph, done: seq<VexIdx>, ready: seq<VexIdx>)
    requires KahnInv(g, done, ready) && ready != []
    ensures QueuePending(g, NextReady(g, done, ready)) < QueuePending(g, ready)
  {
    var x := ready[0];
    var done' := done + [x];
    TakeReady(g, done, ready);
    DoneNotOnCycle(g, done', |done|);
    FreedPending(g, done', x, g.outs[x]);
    QueuePendingAdds(g, ready[1..], Freed(g, done', g.outs[x]));
    QueuePendingAdds(g, [x], ready[1..]);
    assert [x] + ready[1..] == ready && [x][..0] == [];
  }

  // ---- What the order says ----

  ghost predicate HasPredIn(g: Graph, us: set<VexIdx>, x: VexIdx) {
    exists u :: u in us && g.Edge(u, x)
  }

  ghost predicate ClosedBackwards(g: Graph, us: set<VexIdx>) {
    forall x {:trigger HasPredIn(g, us, x)} :: x in us ==> HasPredIn(g, us, x)
  }

  /** A non-empty set in which every vertex has a predecessor contains a cycle. */
  lemma {:induction false} ClosedBackwardsHasCycle(g: Graph, us: set<VexIdx>, p: seq<VexIdx>) returns (v: VexIdx)
    requires g.Valid() && us <= g.Vs()
    requires ClosedBackwards(g, us)
    requires IsPath(g, p) && NoDup(p) && SetOf(p) <= us
    ensures OnCycle(g, v)
    decreases |us| - |p|
  {
    assert p[0] in SetOf(p);
    assert HasPredIn(g, us, p[0]);
    var u :| u in us && g.Edge(u, p[0]);
    if u in p {
      var i :| 0 <= i < |p| && p[i] == u;
      PathSlice(g, p, 0, i + 1);
      assert Reaches(g, p[0], u);
      v := u;
    } else {
      PathCons(g, us, p, u);
      v := ClosedBackwardsHasCycle(g, us, [u] + p);
    }
  }

  lemma PathCons(g: Graph, us: set<VexIdx>, p: seq<VexIdx>, u: VexIdx)
    requires g.Valid() && us <= g.Vs()
    requires IsPath(g, p) && NoDup(p) && SetOf(p) <= us && u in us && g.Edge(u, p[0]) && u !in p
    ensures IsPath(g, [u] + p) && NoDup([u] + p) && SetOf([u] + p) <= us && |p| < |us|
  {
    var q := [u] + p;
    forall i: nat | i + 1 < |q|
      ensures Hop(g, q, i)
    {
      if i > 0 { assert Hop(g, p, i - 1); }
    }
    assert SetOf(q) == SetOf(p) + {u};
    NoDupCard(q);
    SubsetCard(SetOf(q), us);
  }

  /** When no vertex is ready any more, all are finished exactly if there is no cycle. */
  lemma FinishedIffAcyclic(g: Graph, done: seq<VexIdx>)
    requires KahnInv(g, done, []) && Complete(g, done, [])
    ensures SetOf(done) == g.Vs() <==> Acyclic(g)
  {
    if SetOf(done) == g.Vs() {
      forall v
        ensures !OnCycle(g, v)
      {
        if v in done {
          var k :| 0 <= k < |done| && done[k] == v;
          DoneNotOnCycle(g, done, k);
        }
      }
    } else {
      SomeLeft(g, done);
    }
  }

  lemma UnfinishedHavePreds(g: Graph, done: seq<VexIdx>, us: set<VexIdx>)
    requires g.Valid() && Complete(g, done, []) && us == g.Vs() - SetOf(done)
    ensures ClosedBackwards(g, us)
  {
    forall x | x in us
      ensures HasPredIn(g, us, x)
    {
      assert !PredsIn(g, x, done);
      var u :| g.Edge(u, x) && u !in done;
      assert u in us;
    }
  }

  lemma Unlisted(a: set<VexIdx>, b: set<VexIdx>) returns (x: VexIdx)
    requires b <= a && a != b
    ensures x in a && x !in b
  {
    assert !(a <= b);
    x :| x in a && x !in b;
  }

  lemma SomeLeft(g: Graph, done: seq<VexIdx>)
    requires KahnInv(g, done, []) && Complete(g, done, []) && SetOf(done) != g.Vs()
    ensures !Acyclic(g)
  {
    var us := g.Vs() - SetOf(done);
    UnfinishedHavePreds(g, done, us);
    var x := Unlisted(g.Vs(), SetOf(done));
    PathSingle(g, x);
    assert SetOf([x]) == {x};
    var v := ClosedBackwardsHasCycle(g, us, [x]);
  }

  lemma {:induction false} RunEnds(g: Graph, done: seq<VexIdx>, ready: seq<VexIdx>)
    requires KahnInv(g, done, ready) && Complete(g, done, ready)
    ensures KahnInv(g, Run(g, done, ready), []) && Complete(g, Run(g, done, ready), [])
    ensures NoParallelEdges(g) && NoDup(done + ready) ==> NoDup(Run(g, done, ready))
    decreases QueuePending(g, ready)
  {
    if ready == [] {
      assert done + ready == done;
    } else {
      TakeReady(g, done, ready);
      PendingDrops(g, done, ready);
      if NoParallelEdges(g) && NoDup(done + ready) {
        FreedAre(g, done + [ready[0]], g.outs[ready[0]]);
        FreedAreNew(g, done, ready);
      }
      RunEnds(g, done + [ready[0]], NextReady(g, done, ready));
    }
  }

  lemma {:induction false} SetOfSize<T>(s: seq<T>)
    ensures |SetOf(s)| <= |s|
    ensures |SetOf(s)| == |s| <==> NoDup(s)
  {
    if s == [] {
      assert SetOf(s) == {};
    } else {
      var t, x := s[..|s| - 1], s[|s| - 1];
      SetOfSize(t);
      assert s == t + [x] && SetOf(s) == SetOf(t) + {x};
      if x in t {
        assert SetOf(s) == SetOf(t);
      }
    }
  }

  /** The order covers all vertices exactly on acyclic graphs; it has a repetition only with parallel
      edges. */
  lemma OrderIs(g: Graph)
    requires g.Valid()
    ensures AfterPreds(g, KahnOrder(g)) && SetOf(KahnOrder(g)) <= g.Vs()
    ensures SetOf(KahnOrder(g)) == g.Vs() <==> Acyclic(g)
    ensures NoParallelEdges(g) ==> NoDup(KahnOrder(g))
  {
    SourcesReady(g);
    RunEnds(g, [], Sources(g, |g.vertices|));
    FinishedIffAcyclic(g, KahnOrder(g));
  }

  // ---- Parallel edges ----

  /** us without its repetitions. */
  function WithoutRepeats(us: seq<VexIdx>): (ds: seq<VexIdx>)
    ensures NoDup(ds) && forall v :: v in ds <==> v in us
  {
    if us == [] then []
    else
      assert us == us[..|us| - 1] + [us[|us| - 1]];
      var ds := WithoutRepeats(us[..|us| - 1]);
      if us[|us| - 1] in ds then ds else ds + [us[|us| - 1]]
  }

  /** The graph with one edge for all the parallel ones. */
  function Single(g: Graph): Graph {
    Graph(g.vertices, map v | v in g.outs :: WithoutRepeats(g.outs[v]), g.ins)
  }

  lemma SingleSame(g: Graph)
    requires g.Valid()
    ensures Single(g).Valid() && NoParallelEdges(Single(g)) && Single(g).Vs() == g.Vs()
    ensures forall u, v :: Single(g).Edge(u, v) <==> g.Edge(u, v)
  {
    forall u, v
      ensures Single(g).Edge(u, v) <==> g.Edge(u, v)
    {
    }
    assert Single(g).outs.Keys == g.outs.Keys;
  }

  /** A vertex that is in us several times still has a predecessor that is not done. */
  ghost predicate RepeatsWait(g: Graph, us: seq<VexIdx>, done: seq<VexIdx>) {
    forall i, j :: 0 <= i < j < |us| && us[i] == us[j] ==> !PredsIn(g, us[i], done)
  }

  /** No vertex to which the k-th of the order has several edges is freed by it. */
  ghost predicate FreesOnce(g: Graph, order: seq<VexIdx>, k: nat) {
    k < |order| && order[k] in g.outs && RepeatsWait(g, g.outs[order[k]], order[..k + 1])
  }

  /** From position n on no vertex is freed twice. */
  ghost predicate FreeOnceFrom(g: Graph, order: seq<VexIdx>, n: nat) {
    forall k {:trigger FreesOnce(g, order, k)} :: n <= k < |order| ==> FreesOnce(g, order, k)
  }

  /** The order of the graph without parallel edges. */
  ghost function SingleOrder(g: Graph): seq<VexIdx>
    requires g.Valid()
  {
    SingleSame(g);
    KahnOrder(Single(g))
  }

  /** Whenever several edges lead from u to v, some predecessor of v comes after u in the order of the
      graph without parallel edges, or is not in it. */
  ghost predicate LaterPredecessors(g: Graph)
    requires g.Valid()
  {
    FreeOnceFrom(g, SingleOrder(g), 0)
  }

  lemma {:induction false} FreedRepeats(g: Graph, done: seq<VexIdx>, us: seq<VexIdx>)
    ensures NoDup(Freed(g, done, us)) <==> RepeatsWait(g, us, done)
  {
    if us != [] {
      var front, v := us[..|us| - 1], us[|us| - 1];
      FreedRepeats(g, done, front);
      FreedAre(g, done, front);
      RepeatsSnoc(g, us, done);
      var freed := Freed(g, done, front);
      if PredsIn(g, v, done) {
        LastRepeats(freed, v);
      } else {
        assert Freed(g, done, us) == freed;
      }
    }
  }

  lemma RepeatsSnoc(g: Graph, us: seq<VexIdx>, done: seq<VexIdx>)
    requires us != []
    ensures var front, v := us[..|us| - 1], us[|us| - 1];
      RepeatsWait(g, us, done) <==> RepeatsWait(g, front, done) && (v in front ==> !PredsIn(g, v, done))
  {
    var front, v := us[..|us| - 1], us[|us| - 1];
    if RepeatsWait(g, us, done) {
      forall i, j | 0 <= i < j < |front| && front[i] == front[j]
        ensures !PredsIn(g, front[i], done)
      {
        assert us[i] == us[j];
      }
      if v in front {
        var i :| 0 <= i < |front| && front[i] == v;
        assert us[i] == us[|us| - 1];
      }
    }
  }

  lemma LastRepeats<T>(s: seq<T>, x: T)
    ensures NoDup(s + [x]) <==> NoDup(s) && x !in s
  {
    if NoDup(s + [x]) {
      forall i | 0 <= i < |s|
        ensures s[i] != x
      {
        assert (s + [x])[i] != (s + [x])[|s|];
      }
      forall i, j | 0 <= i < j < |s|
        ensures s[i] != s[j]
      {
        assert (s + [x])[i] != (s + [x])[j];
      }
    }
  }

  lemma FreedSnoc(g: Graph, done: seq<VexIdx>, us: seq<VexIdx>, v: VexIdx)
    ensures Freed(g, done, us + [v]) == Freed(g, done, us) + if PredsIn(g, v, done) then [v] else []
  {
    assert (us + [v])[..|us|] == us;
  }

  /** Dropping repetitions and choosing the freed ones commute, if there is no repetition among these. */
  lemma {:induction false} FreedWithoutRepeats(g: Graph, done: seq<VexIdx>, us: seq<VexIdx>)
    requires NoDup(Freed(g, done, us))
    ensures Freed(g, done, WithoutRepeats(us)) == Freed(g, done, us)
  {
    if us != [] {
      var front, v := us[..|us| - 1], us[|us| - 1];
      FreedAre(g, done, front);
      if PredsIn(g, v, done) {
        LastRepeats(Freed(g, done, front), v);
      } else {
        assert Freed(g, done, us) == Freed(g, done, front);
      }
      FreedWithoutRepeats(g, done, front);
      FreedSnoc(g, done, WithoutRepeats(front), v);
    }
  }

  lemma {:induction false} FreedSingle(g: Graph, done: seq<VexIdx>, us: seq<VexIdx>)
    requires g.Valid()
    ensures Freed(Single(g), done, us) == Freed(g, done, us)
  {
    if us != [] {
      FreedSingle(g, done, us[..|us| - 1]);
      SingleSame(g);
      assert PredsIn(Single(g), us[|us| - 1], done) <==> PredsIn(g, us[|us| - 1], done);
    }
  }

  /** The list of ready vertices is finished next, in its order. */
  lemma {:induction false} ReadyIsNext(g: Graph, done: seq<VexIdx>, ready: seq<VexIdx>)
    requires KahnInv(g, done, ready)
    ensures done + ready <= Run(g, done, ready)
    decreases QueuePending(g, ready)
  {
    if ready == [] {
      assert done + ready == done;
    } else {
      var done', ready' := done + [ready[0]], NextReady(g, done, ready);
      RunStep(g, done, ready, done', ready');
      PendingDrops(g, done, ready);
      ReadyIsNext(g, done', ready');
      StaysPrefix(done, ready, Freed(g, done', g.outs[ready[0]]), Run(g, done', ready'));
    }
  }

  lemma StaysPrefix<T>(done: seq<T>, ready: seq<T>, freed: seq<T>, order: seq<T>)
    requires ready != [] && done + [ready[0]] + (ready[1..] + freed) <= order
    ensures done + ready <= order
  {
    assert done + [ready[0]] + (ready[1..] + freed) == done + ready + freed;
  }

  lemma RepeatSpreads<T>(s: seq<T>, t: seq<T>)
    requires s <= t
    ensures NoDup(t) ==> NoDup(s)
  {
    forall i, j | 0 <= i < j < |s| && NoDup(t)
      ensures s[i] != s[j]
    {
      assert s[i] == t[i] && s[j] == t[j];
    }
  }

  /** Up to the first vertex that is freed twice, the runs on g and on Single(g) are the same. */
  lemma {:induction false} RunsAgree(g: Graph, done: seq<VexIdx>, ready: seq<VexIdx>, order: seq<VexIdx>)
    requires KahnInv(g, done, ready) && KahnInv(Single(g), done, ready) && NoDup(done + ready)
    requires order == Run(Single(g), done, ready)
    ensures NoDup(Run(g, done, ready)) <==> FreeOnceFrom(g, order, |done|)
    ensures FreeOnceFrom(g, order, |done|) ==> Run(g, done, ready) == order
    decreases QueuePending(g, ready)
  {
    if ready == [] {
      assert done + ready == done;
    } else {
      var done', ready', n := done + [ready[0]], NextReady(g, done, ready), |done| + 1;
      AgreeStep(g, done, ready, order);
      RunStep(g, done, ready, done', ready');
      PendingDrops(g, done, ready);
      FreeOnceSplit(g, order, |done|, n);
      if FreesOnce(g, order, |done|) {
        RunsAgree(g, done', ready', order);
      } else {
        ReadyIsNext(g, done', ready');
        RepeatSpreads(done' + ready', Run(g, done', ready'));
      }
    }
  }

  lemma FreeOnceSplit(g: Graph, order: seq<VexIdx>, k: nat, n: nat)
    requires k < |order| && n == k + 1
    ensures FreeOnceFrom(g, order, k) <==> FreesOnce(g, order, k) && FreeOnceFrom(g, order, n)
  {
  }

  /** One step of both runs. */
  lemma AgreeStep(g: Graph, done: seq<VexIdx>, ready: seq<VexIdx>, order: seq<VexIdx>)
    requires KahnInv(g, done, ready) && KahnInv(Single(g), done, ready) && NoDup(done + ready) && ready != []
    requires order == Run(Single(g), done, ready)
    ensures |done| < |order| && order[..|done| + 1] == done + [ready[0]]
    ensures FreesOnce(g, order, |done|) <==> NoDup(done + [ready[0]] + NextReady(g, done, ready))
    ensures FreesOnce(g, order, |done|) ==>
              && KahnInv(Single(g), done + [ready[0]], NextReady(g, done, ready))
              && order == Run(Single(g), done + [ready[0]], NextReady(g, done, ready))
  {
    var x := ready[0];
    var done' := done + [x];
    ReadyIsNext(Single(g), done, ready);
    assert (done + ready)[..|done| + 1] == done';
    assert order[..|done| + 1] == done' && order[|done|] == x;
    FreedRepeats(g, done', g.outs[x]);
    FreedAreNew(g, done, ready);
    if FreesOnce(g, order, |done|) {
      FreedWithoutRepeats(g, done', g.outs[x]);
      FreedSingle(g, done', WithoutRepeats(g.outs[x]));
      assert NextReady(Single(g), done, ready) == NextReady(g, done, ready);
      TakeReady(Single(g), done, ready);
    }
  }

  lemma {:induction false} SourcesSingle(g: Graph, n: nat)
    requires g.Valid() && Single(g).Valid() && n <= |g.vertices|
    ensures Sources(Single(g), n) == Sources(g, n)
  {
    if n > 0 {
      assert g.vertices[n - 1] in g.Vs() && g.vertices[n - 1] in Single(g).Vs();
      SourcesSingle(g, n - 1);
    }
  }

  /** No vertex becomes ready twice exactly if every doubled edge is followed by a later predecessor. */
  lemma RepeatsIff(g: Graph)
    requires g.Valid()
    ensures NoDup(KahnOrder(g)) <==> LaterPredecessors(g)
    ensures LaterPredecessors(g) ==> KahnOrder(g) == SingleOrder(g)
    ensures NoParallelEdges(g) ==> LaterPredecessors(g)
  {
    SingleSame(g);
    SourcesReady(g);
    SourcesReady(Single(g));
    SourcesSingle(g, |g.vertices|);
    RunsAgree(g, [], Sources(g, |g.vertices|), SingleOrder(g));
    OrderIs(g);
  }

  /** What the test of the count can tell: on an acyclic graph it succeeds exactly if every doubled edge is
      followed by a later predecessor, and on every graph of which that is true it is right. */
  lemma CountTells(g: Graph)
    requires g.Valid()
    ensures Acyclic(g) ==> (|KahnOrder(g)| == |g.vertices| <==> LaterPredecessors(g))
    ensures LaterPredecessors(g) ==> (|KahnOrder(g)| == |g.vertices| <==> Acyclic(g))
    ensures LaterPredecessors(g) && Acyclic(g) ==> Topological(g, KahnOrder(g))
  {
    var order := KahnOrder(g);
    OrderIs(g);
    RepeatsIff(g);
    SetOfSize(order);
    NoDupCard(g.vertices);
    SubsetCard(SetOf(order), g.Vs());
    if NoDup(order) {
      AfterPredsIsTopological(g, order);
    }
  }

  lemma AfterPredsIsTopological(g: Graph, order: seq<VexIdx>)
    requires AfterPreds(g, order) && NoDup(order)
    ensures Topological(g, order)
  {
    forall j, k | 0 <= j < |order| && 0 <= k < |order| && g.Edge(order[j], order[k])
      ensures j < k
    {
      assert PredsIn(g, order[k], order[..k]);
      var i :| 0 <= i < k && order[..k][i] == order[j];
    }
  }

  /** Two edges from 1 to 2, and maybe a vertex 3 with an edge to itself. */
  function TwoEdges(loop: bool): Graph {
    if loop then Graph([1, 2, 3], map[1 := [2, 2], 2 := [], 3 := [3]], map[1 := [], 2 := [1, 1], 3 := [3]])
    else Graph([1, 2], map[1 := [2, 2], 2 := []], map[1 := [], 2 := [1, 1]])
  }

  lemma TwoEdgesVertices(loop: bool)
    ensures forall v: VexIdx :: v in TwoEdges(loop).Vs() <==> v == 1 || v == 2 || (loop && v == 3)
  {
    var vs := TwoEdges(loop).vertices;
    forall v: VexIdx
      ensures v in vs <==> v == 1 || v == 2 || (loop && v == 3)
    {
      assert vs[0] == 1 && vs[1] == 2 && (loop ==> vs[2] == 3);
    }
  }

  lemma TwoEdgesAt(loop: bool, u: VexIdx, v: VexIdx)
    ensures TwoEdges(loop).Edge(u, v) <==> (u == 1 && v == 2) || (loop && u == v == 3)
    ensures TwoEdges(loop).Edge(u, v) <==> v in TwoEdges(loop).ins && u in TwoEdges(loop).ins[v]
  {
    if loop {
    } else {
    }
  }

  lemma TwoEdgesValid(loop: bool)
    ensures TwoEdges(loop).Valid()
    ensures forall u: VexIdx, v: VexIdx :: TwoEdges(loop).Edge(u, v) <==> (u == 1 && v == 2) || (loop && u == v == 3)
  {
    var g := TwoEdges(loop);
    TwoEdgesVertices(loop);
    forall u: VexIdx, v: VexIdx
      ensures g.Edge(u, v) <==> (u == 1 && v == 2) || (loop && u == v == 3)
      ensures g.Edge(u, v) <==> v in g.ins && u in g.ins[v]
    {
      TwoEdgesAt(loop, u, v);
    }
    assert g.outs.Keys == g.Vs() && g.ins.Keys == g.Vs();
  }

  lemma TwoEdgesSources(g: Graph, loop: bool)
    requires g == TwoEdges(loop) && g.Valid()
    ensures Sources(g, |g.vertices|) == [1]
  {
    assert Sources(g, 1) == Sources(g, 0) + [1];
    assert Sources(g, 2) == Sources(g, 1) + [];
  }

  /** A run of three steps on a graph in which 1 has two edges to 2, and 2 none. */
  lemma TwoEdgesRun(g: Graph)
    requires KahnInv(g, [], [1]) && 1 in g.outs && g.outs[1] == [2, 2] && 2 in g.outs && g.outs[2] == []
    requires PredsIn(g, 2, [1])
    ensures Run(g, [], [1]) == [1, 2, 2]
  {
    BothFreed(g, [1], 2);
    assert NextReady(g, [], [1]) == [2, 2] by {
      assert [] + [1] == [1] && [1][1..] == [];
    }
    RunStep(g, [], [1], [1], [2, 2]);
    assert NextReady(g, [1], [2, 2]) == [2];
    RunStep(g, [1], [2, 2], [1, 2], [2]);
    assert NextReady(g, [1, 2], [2]) == [];
    RunStep(g, [1, 2], [2], [1, 2, 2], []);
  }

  lemma TwoEdgesOrder(loop: bool)
    ensures TwoEdges(loop).Valid() && KahnOrder(TwoEdges(loop)) == [1, 2, 2]
  {
    var g := TwoEdges(loop);
    TwoEdgesValid(loop);
    TwoEdgesSources(g, loop);
    SourcesReady(g);
    TwoEdgesRun(g);
  }

  lemma BothFreed(g: Graph, done: seq<VexIdx>, v: VexIdx)
    requires PredsIn(g, v, done)
    ensures Freed(g, done, [v, v]) == [v, v]
  {
    assert [v, v][..|[v, v]| - 1] == [v];
    assert [v][..|[v]| - 1] == [];
    assert Freed(g, done, [v]) == [v];
  }

  lemma TwoEdgesCycle(loop: bool)
    ensures Acyclic(TwoEdges(loop)) <==> !loop
  {
    var g := TwoEdges(loop);
    TwoEdgesValid(loop);
    if loop {
      TwoEdgesVertices(loop);
      PathSingle(g, 3);
      assert g.Edge(3, 3) && OnCycle(g, 3);
    } else {
      TwoEdgesOrder(loop);
      OrderIs(g);
      TwoEdgesVertices(loop);
      assert SetOf([1, 2, 2]) == g.Vs();
    }
  }

  /** An acyclic graph that is reported as one with a cycle, and one with a cycle that is reported as
      sorted. */
  lemma ParallelEdgesMislead()
    ensures TwoEdges(false).Valid() && Acyclic(TwoEdges(false))
    ensures |KahnOrder(TwoEdges(false))| != |TwoEdges(false).vertices|
    ensures TwoEdges(true).Valid() && !Acyclic(TwoEdges(true))
    ensures |KahnOrder(TwoEdges(true))| == |TwoEdges(true).vertices|
  {
    TwoEdgesOrder(false);
    TwoEdgesOrder(true);
    TwoEdgesCycle(false);
    TwoEdgesCycle(true);
  }

  // ---- The sort ----

  /** Returns whether as many vertices were finished as there are; vexVec lists them in order. */
  method SortInTopologOrder(g: Graph) returns (ok: bool, vexVec: seq<VexIdx>)
    requires g.Valid()
    ensures ok <==> |KahnOrder(g)| == |g.vertices|
    ensures |KahnOrder(g)| <= |vexVec| && vexVec[..|KahnOrder(g)|] == KahnOrder(g)
    ensures Acyclic(g) ==> (ok <==> LaterPredecessors(g))
    ensures LaterPredecessors(g) ==> (ok <==> Acyclic(g)) && |vexVec| == |g.vertices|
    ensures Acyclic(g) && ok ==> NoDup(vexVec) && SetOf(vexVec) == g.Vs() && Topological(g, vexVec)
    ensures NoParallelEdges(g) ==> LaterPredecessors(g)
  {
    vexVec := [];
    if |g.vertices| == 0 {
      SourcesReady(g);
      Sorted(g, [], []);
      return true, vexVec;
    }
    var readyList := InitReady(g);
    SourcesReady(g);
    var isRemoved: set<VexIdx> := {};
    vexVec := seq(|g.vertices|, _ => VERTEX_UNDEF);
    var pos: nat := 0;
    ghost var done: seq<VexIdx> := [];
    while readyList != []
      invariant SortState(g, done, readyList, isRemoved, vexVec, pos)
      decreases QueuePending(g, readyList)
    {
      readyList, isRemoved, vexVec, pos, done := FinishOne(g, readyList, isRemoved, vexVec, pos, done);
    }
    Sorted(g, done, vexVec);
    ok := pos == |g.vertices|;
  }

  ghost predicate SortState(g: Graph, done: seq<VexIdx>, readyList: seq<VexIdx>, isRemoved: set<VexIdx>,
                            vexVec: seq<VexIdx>, pos: nat) {
    && KahnInv(g, done, readyList) && Run(g, done, readyList) == KahnOrder(g)
    && isRemoved == SetOf(done) && pos == |done|
    && pos <= |vexVec| && vexVec[..pos] == done
    && |vexVec| == if pos < |g.vertices| then |g.vertices| else pos
  }

  /** The head of the list is finished; the vector grows when it is full. */
  method FinishOne(g: Graph, readyList: seq<VexIdx>, isRemoved: set<VexIdx>, vexVec: seq<VexIdx>, pos: nat,
                   ghost done: seq<VexIdx>)
    returns (readyList': seq<VexIdx>, isRemoved': set<VexIdx>, vexVec': seq<VexIdx>, pos': nat,
             ghost done': seq<VexIdx>)
    requires SortState(g, done, readyList, isRemoved, vexVec, pos) && readyList != []
    ensures SortState(g, done', readyList', isRemoved', vexVec', pos')
    ensures QueuePending(g, readyList') < QueuePending(g, readyList)
  {
    var ready := readyList[0];
    PendingDrops(g, done, readyList);
    done' := done + [ready];
    ghost var next := NextReady(g, done, readyList);
    RunStep(g, done, readyList, done', next);
    isRemoved' := isRemoved + {ready};
    vexVec' := if pos < |vexVec| then vexVec[pos := ready] else vexVec + [ready];
    pos' := pos + 1;
    assert vexVec'[..pos'] == done';
    readyList' := AppendFreed(g, ready, isRemoved', readyList[1..], done');
    assert readyList' == next;
  }

  lemma Sorted(g: Graph, order: seq<VexIdx>, vexVec: seq<VexIdx>)
    requires g.Valid() && order == KahnOrder(g) && |order| <= |vexVec| && vexVec[..|order|] == order
    requires |vexVec| == if |order| < |g.vertices| then |g.vertices| else |order|
    ensures Acyclic(g) ==> (|order| == |g.vertices| <==> LaterPredecessors(g))
    ensures LaterPredecessors(g) ==> (|order| == |g.vertices| <==> Acyclic(g)) && |vexVec| == |g.vertices|
    ensures Acyclic(g) && |order| == |g.vertices| ==>
              NoDup(vexVec) && SetOf(vexVec) == g.Vs() && Topological(g, vexVec)
    ensures NoParallelEdges(g) ==> LaterPredecessors(g)
  {
    OrderIs(g);
    RepeatsIff(g);
    CountTells(g);
    if NoDup(order) {
      NoDupBounded(g, order);
    }
    if |order| == |g.vertices| {
      assert vexVec == order;
    }
  }

  /** The vertices without predecessor. */
  method InitReady(g: Graph) returns (readyList: seq<VexIdx>)
    requires g.Valid()
    ensures readyList == Sources(g, |g.vertices|)
  {
    readyList := [];
    for i := 0 to |g.vertices|
      invariant readyList == Sources(g, i)
    {
      var vex := g.vertices[i];
      assert vex in g.Vs();
      if |g.ins[vex]| == 0 {
        readyList := readyList + [vex];
      }
    }
  }

  /** How many members of us are not in done. */
  ghost function Remaining(us: seq<VexIdx>, done: seq<VexIdx>): (n: nat)
    ensures n == 0 <==> forall k :: 0 <= k < |us| ==> us[k] in done
  {
    if us == [] then 0
    else Remaining(us[..|us| - 1], done) + if us[|us| - 1] in done then 0 else 1
  }

  /** The number of predecessors not yet removed. */
  method InDegree(g: Graph, v: VexIdx, isRemoved: set<VexIdx>, ghost done: seq<VexIdx>) returns (inDegree: nat)
    requires g.Valid() && v in g.Vs() && isRemoved == SetOf(done)
    ensures inDegree == Remaining(g.ins[v], done)
    ensures inDegree == 0 <==> PredsIn(g, v, done)
  {
    inDegree := 0;
    for i := 0 to |g.ins[v]|
      invariant inDegree == Remaining(g.ins[v][..i], done)
    {
      assert g.ins[v][..i + 1][..i] == g.ins[v][..i];
      if g.ins[v][i] in isRemoved {
        continue;
      }
      inDegree := inDegree + 1;
    }
    assert g.ins[v][..|g.ins[v]|] == g.ins[v];
    assert forall u :: g.Edge(u, v) <==> u in g.ins[v];
  }

  /** The successors of the vertex just removed that became ready. */
  method AppendFreed(g: Graph, ready: VexIdx, isRemoved: set<VexIdx>, readyList: seq<VexIdx>, ghost done: seq<VexIdx>)
    returns (readyList': seq<VexIdx>)
    requires g.Valid() && ready in g.Vs() && isRemoved == SetOf(done)
    ensures readyList' == readyList + Freed(g, done, g.outs[ready])
  {
    readyList' := readyList;
    var outs := g.outs[ready];
    for i := 0 to |outs|
      invariant readyList' == readyList + Freed(g, done, outs[..i])
    {
      var out := outs[i];
      assert g.Edge(ready, out);
      assert outs[..i + 1][..i] == outs[..i];
      var inDegree := InDegree(g, out, isRemoved, done);
      if inDegree == 0 {
        readyList' := readyList' + [out];
      }
    }
    assert outs[..|outs|] == outs;
  }
}
