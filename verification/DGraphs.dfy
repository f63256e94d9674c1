/** The dominator computations of `class DGraph`, `com/sgraph.cpp`: its dominator and
    immediate-dominator tables are updated in place by the iterations proved here. */
module DGraphs {
  import opened Graphs
  import opened Rpo
  import opened Dominance
  import opened DomFixpoint
  import opened DomRounds
  import opened IdomTree

  const MAX_DOM_ROUNDS := 10
  const MAX_PDOM_ROUNDS := 13

  /** An absent entry of an index table reads as VERTEX_UNDEF. */
  function IdxOf(m: IdomMap, v: VexIdx): VexIdx {
    if v in m then m[v] else VERTEX_UNDEF
  }

  /** Every entry is the immediate dominator, and the root has none. */
  ghost predicate IdomExact(g: Graph, root: VexIdx, idom: IdomMap) {
    && (forall v {:trigger IDom(g, root, IdxOf(idom, v), v)} ::
          v in g.Vs() && v != root ==> IDom(g, root, IdxOf(idom, v), v))
    && IdxOf(idom, root) == VERTEX_UNDEF
  }

  /** What the post-dominator sets are after their computation, and what the flag says. */
  ghost predicate PdomDone(g: Graph, exit: VexIdx, vlst: seq<VexIdx>, change: bool, d: DomTable) {
    && Above(g.Reverse(), exit, d)
    && (Exact(g.Reverse(), exit, d) <==> EnoughRounds(g.Reverse(), exit, vlst, MAX_PDOM_ROUNDS))
    && (!change <==> EnoughRounds(g.Reverse(), exit, vlst, MAX_PDOM_ROUNDS - 1))
    && (!change ==> Exact(g.Reverse(), exit, d))
    && (|g.vertices| <= 15 ==> Exact(g.Reverse(), exit, d))
    && (|g.vertices| <= 14 ==> !change)
  }

  class DGraph {
    const g: Graph
    /** The numbers that ComputeRPO gave the vertices. */
    var rpo: map<VexIdx, int>
    var domSet: DomTable
    var pdomSet: DomTable
    var idomSet: IdomMap
    var ipdomSet: IdomMap

    constructor (g: Graph)
      ensures this.g == g
      ensures rpo == map[] && domSet == map[] && pdomSet == map[] && idomSet == map[] && ipdomSet == map[]
    {
      this.g := g;
      rpo, domSet, pdomSet, idomSet, ipdomSet := map[], map[], map[], map[], map[];
    }

    // ---- Dominator sets by fixpoint iteration ----

    /** The intersection of the table entries of a non-empty vertex list. */
    static method MeetOfList(d: DomTable, us: seq<VexIdx>) returns (tmp: set<VexIdx>)
      requires us != [] && forall u :: u in us ==> u in d
      ensures forall x :: x in tmp <==> forall u :: u in us ==> x in d[u]
    {
      tmp := d[us[0]];
      for i := 1 to |us|
        invariant forall x :: x in tmp <==> forall u :: u in us[..i] ==> x in d[u]
      {
        assert us[..i + 1] == us[..i] + [us[i]];
        tmp := tmp * d[us[i]];
      }
      assert us[..|us|] == us;
    }

    /** The start of the iteration: the entry holds itself, every other vertex holds uni. */
    static method InitDom(g: Graph, d0: DomTable, vlst: seq<VexIdx>, uni: set<VexIdx>) returns (d: DomTable)
      requires g.Valid() && SetOf(vlst) == uni == g.Vs() && d0.Keys <= g.Vs()
      ensures d == InitTable(g)
    {
      d := d0;
      for i := 0 to |vlst|
        invariant d.Keys <= g.Vs()
        invariant forall v :: v in vlst[..i] ==> v in d && d[v] == InitTable(g)[v]
      {
        var v := vlst[i];
        assert v in SetOf(vlst);
        assert vlst[..i + 1] == vlst[..i] + [v];
        d := d[v := if g.IsEntry(v) then {v} else uni];
      }
      assert vlst[..|vlst|] == vlst;
      assert forall v :: v in g.Vs() ==> v in vlst;
    }

    /** One vertex of one round. */
    static method RecomputeDom(g: Graph, d0: DomTable, v: VexIdx, ghost root: VexIdx)
      returns (d: DomTable, change: bool)
      requires v in g.Vs() && Above(g, root, d0)
      ensures d == Update(g, d0, v)
      ensures change <==> d != d0
    {
      d, change := d0, false;
      if !g.IsEntry(v) {
        var tmp := MeetOfList(d, g.ins[v]);
        assert tmp == Meet(g, d, v);
        tmp := tmp + {v};
        if d[v] != tmp {
          d := d[v := tmp];
          change := true;
        }
      }
    }

    /** One round over the list. */
    static method DomRound(g: Graph, d0: DomTable, vlst: seq<VexIdx>, ghost root: VexIdx)
      returns (d: DomTable, change: bool)
      requires SetOf(vlst) <= g.Vs() && Above(g, root, d0)
      ensures d == Sweep(g, d0, vlst)
      ensures change <==> d != d0
    {
      d, change := d0, false;
      for i := 0 to |vlst|
        invariant SetOf(vlst[..i]) <= g.Vs()
        invariant d == Sweep(g, d0, vlst[..i])
        invariant Above(g, root, d) && Shrinks(d0, d)
        invariant change <==> d != d0
      {
        ghost var d1 := d;
        assert vlst[i] in SetOf(vlst);
        assert vlst[..i + 1][..i] == vlst[..i];
        assert SetOf(vlst[..i + 1]) == SetOf(vlst[..i]) + {vlst[i]};
        UpdateKeepsAbove(g, root, d1, vlst[i]);
        var changed;
        d, changed := RecomputeDom(g, d, vlst[i], root);
        ShrinksTwice(d0, d1, d);
        if changed {
          change := true;
        }
      }
      assert vlst[..|vlst|] == vlst;
    }

    /** Rounds until nothing changes, but no more than maxRounds. What is left is what all
        maxRounds rounds would leave, and the flag says whether the last of them would still
        change an entry. */
    static method Iterate(g: Graph, d0: DomTable, vlst: seq<VexIdx>, maxRounds: nat, ghost root: VexIdx)
      returns (d: DomTable, change: bool)
      requires SetOf(vlst) == g.Vs() && Above(g, root, d0) && maxRounds > 0
      ensures Above(g, root, d)
      ensures LastRounds(g, d0, vlst, maxRounds, change, d)
    {
      d, change := d0, true;
      var count := 0;
      while change && count < maxRounds
        invariant count <= maxRounds
        invariant RoundsSoFar(g, d0, vlst, count, change, d)
        invariant Above(g, root, d)
        decreases maxRounds - count
      {
        ghost var before := d;
        SweepKeepsAbove(g, root, d, vlst);
        d, change := DomRound(g, d, vlst, root);
        OneMoreRound(g, d0, vlst, count, before, change, d);
        count := count + 1;
      }
      if count < maxRounds {
        QuietEnd(g, d0, vlst, count, d, maxRounds);
      }
    }

    static lemma SmallGraphs(g: Graph, root: VexIdx, vlst: seq<VexIdx>, k: nat)
      requires Rooted(g, root) && SetOf(vlst) == g.Vs() && k > 0
      ensures |g.vertices| <= k + 2 ==> EnoughRounds(g, root, vlst, k)
      ensures |g.vertices| <= k + 1 ==> EnoughRounds(g, root, vlst, k - 1)
    {
      if |g.vertices| <= k + 2 {
        SmallGraphsAreDone(g, root, vlst, k);
      }
      if |g.vertices| <= k + 1 {
        SmallGraphsAreDone(g, root, vlst, k - 1);
      }
    }

    /** The sets of g from the start, for a graph with the given entry. */
    static method IterateFromStart(g: Graph, d0: DomTable, vlst: seq<VexIdx>, maxRounds: nat, ghost root: VexIdx)
      returns (d: DomTable, change: bool)
      requires Rooted(g, root) && SetOf(vlst) == g.Vs() && d0.Keys <= g.Vs() && maxRounds > 0
      ensures Above(g, root, d)
      ensures Exact(g, root, d) <==> EnoughRounds(g, root, vlst, maxRounds)
      ensures !change <==> EnoughRounds(g, root, vlst, maxRounds - 1)
      ensures !change ==> Exact(g, root, d)
      ensures |g.vertices| <= maxRounds + 2 ==> Exact(g, root, d)
      ensures |g.vertices| <= maxRounds + 1 ==> !change
    {
      d := InitDom(g, d0, vlst, SetOf(vlst));
      InitAbove(g, root);
      d, change := Iterate(g, d, vlst, maxRounds, root);
      RoundsDecide(g, root, vlst, maxRounds, change, d);
      SmallGraphs(g, root, vlst, maxRounds);
    }

    /** Returns the flag that the closing assertion of the computation tests: whether the
        last round still changed an entry. */
    method ComputeDom(vlst: seq<VexIdx>, ghost root: VexIdx) returns (change: bool)
      requires Rooted(g, root) && SetOf(vlst) == g.Vs() && domSet.Keys <= g.Vs()
      modifies `domSet
      ensures Above(g, root, domSet)
      ensures Exact(g, root, domSet) <==> EnoughRounds(g, root, vlst, MAX_DOM_ROUNDS)
      ensures !change <==> EnoughRounds(g, root, vlst, MAX_DOM_ROUNDS - 1)
      ensures !change ==> Exact(g, root, domSet)
      ensures |g.vertices| <= 12 ==> Exact(g, root, domSet)
      ensures |g.vertices| <= 11 ==> !change
    {
      domSet, change := IterateFromStart(g, domSet, vlst, MAX_DOM_ROUNDS, root);
    }

    /** The first exit of the list. The vertices up to it get empty sets. */
    method FindExit(vlst: seq<VexIdx>) returns (findExit: bool, exit: VexIdx)
      requires g.Valid() && SetOf(vlst) == g.Vs() && pdomSet.Keys <= g.Vs()
      modifies `pdomSet
      ensures pdomSet.Keys <= g.Vs()
      ensures findExit ==> exit in g.Vs() && g.IsExit(exit)
      ensures !findExit ==> pdomSet.Keys == g.Vs() && forall v :: v in g.Vs() ==> !g.IsExit(v) && pdomSet[v] == {}
    {
      findExit, exit := false, VERTEX_UNDEF;
      for i := 0 to |vlst|
        invariant !findExit && pdomSet.Keys == old(pdomSet).Keys + SetOf(vlst[..i]) <= g.Vs()
        invariant forall v :: v in vlst[..i] ==> !g.IsExit(v) && pdomSet[v] == {}
      {
        var v := vlst[i];
        assert v in SetOf(vlst);
        assert vlst[..i + 1] == vlst[..i] + [v];
        pdomSet := pdomSet[v := {}];
        if g.IsExit(v) {
          findExit, exit := true, v;
          break;
        }
      }
      if !findExit {
        assert vlst[..|vlst|] == vlst;
        assert forall v :: v in g.Vs() ==> v in vlst;
      }
    }

    /** The same computation along the out-lists, from the exit. A graph without exit gets
        empty sets. */
    method ComputePdom(vlst: seq<VexIdx>) returns (change: bool)
      requires g.Valid() && SetOf(vlst) == g.Vs() && pdomSet.Keys <= g.Vs()
      requires forall v :: v in g.Vs() && g.IsExit(v) ==> Rooted(g.Reverse(), v)
      modifies `pdomSet
      ensures (forall v :: v in g.Vs() ==> !g.IsExit(v)) ==>
                !change && pdomSet.Keys == g.Vs() && forall v :: v in g.Vs() ==> pdomSet[v] == {}
      ensures forall exit :: exit in g.Vs() && g.IsExit(exit) ==> PdomDone(g, exit, vlst, change, pdomSet)
    {
      change := false;
      var findExit, exit := FindExit(vlst);
      if findExit {
        ReverseValid(g);
        pdomSet, change := IterateFromStart(g.Reverse(), pdomSet, vlst, MAX_PDOM_ROUNDS, exit);
        assert forall v :: v in g.Vs() ==> (g.IsExit(v) <==> g.Reverse().IsEntry(v));
      }
    }

    // ---- Immediate dominators read off the sets ----

    /** The member of v's set, other than v, whose own set is v's set without v. The set of v
        loses v for the search and has it afterwards. */
    static method FindImmediate(d0: DomTable, v: VexIdx) returns (i: VexIdx, d: DomTable)
      requires v in d0 && d0[v] <= d0.Keys && VERTEX_UNDEF !in d0[v]
      ensures d == d0[v := d0[v] + {v}]
      ensures i != VERTEX_UNDEF ==> i in d0[v] - {v} && d0[i] == d0[v] - {v}
      ensures i == VERTEX_UNDEF ==> forall j :: j in d0[v] - {v} ==> d0[j] != d0[v] - {v}
    {
      d := d0[v := d0[v] - {v}];
      var rest := d[v];
      i := VERTEX_UNDEF;
      while rest != {}
        invariant i == VERTEX_UNDEF && rest <= d[v]
        invariant forall j :: j in d[v] - rest ==> d[j] != d[v]
        decreases |rest|
      {
        var j :| j in rest;
        if d[j] == d[v] {
          i := j;
          break;
        }
        rest := rest - {j};
      }
      assert forall j :: j in d0[v] - {v} ==> d[j] == d0[j];
      d := d[v := d[v] + {v}];
      assert d[v] == d0[v] + {v};
    }

    /** One vertex of the list; ids are those before it. */
    static method RecordImmediate(g: Graph, ghost d0: DomTable, ghost ids: seq<VexIdx>,
                                  d: DomTable, idom: IdomMap, v: VexIdx)
      returns (d': DomTable, idom': IdomMap)
      requires v in g.Vs() && v !in ids
      requires SearchedUpTo(g, d0, ids, d) && RecordedUpTo(g, d0, ids, idom)
      ensures SearchedUpTo(g, d0, ids + [v], d') && RecordedUpTo(g, d0, ids + [v], idom')
    {
      d', idom' := d, idom;
      SearchTable(g, d0, ids, d, v);
      if g.IsEntry(v) || |d[v]| < 2 {
        assert d[v := d[v]] == d;
      } else {
        var j;
        j, d' := FindImmediate(d, v);
        if j != VERTEX_UNDEF {
          idom' := idom[v := j];
        }
        FoundAt(g, d0, ids, d, v, j, idom');
      }
      SearchStep(g, d0, ids, d, v, d');
      RecordStep(g, d0, ids, idom, v, idom');
    }

    /** Every vertex with a set of at least two members gets its immediate dominator. */
    static method ImmediatesOf(g: Graph, d0: DomTable) returns (idom: IdomMap, d: DomTable)
      requires TableOver(g, d0)
      ensures d.Keys == d0.Keys && forall v :: v in d ==> d[v] == Searched(g, d0, v)
      ensures forall v :: v in idom ==> v in g.Vs() && |d0[v]| >= 2
      ensures HaveThemselves(d0) ==> d == d0
      ensures forall root :: Rooted(g, root) && Exact(g, root, d0) ==> IdomExact(g, root, idom)
    {
      d, idom := d0, map[];
      for i := 0 to |g.vertices|
        invariant SearchedUpTo(g, d0, g.vertices[..i], d)
        invariant RecordedUpTo(g, d0, g.vertices[..i], idom)
      {
        var v := g.vertices[i];
        assert v in g.Vs();
        assert g.vertices[..i + 1] == g.vertices[..i] + [v];
        d, idom := RecordImmediate(g, d0, g.vertices[..i], d, idom, v);
      }
      assert g.vertices[..|g.vertices|] == g.vertices;
      SearchDone(g, d0, d, idom);
    }

    /** Sets as ComputeDom2 leaves them, without the vertex itself, get it added. */
    method ComputeIdom()
      requires TableOver(g, domSet)
      modifies `idomSet, `domSet
      ensures domSet.Keys == old(domSet).Keys && forall v :: v in domSet ==> domSet[v] == Searched(g, old(domSet), v)
      ensures HaveThemselves(old(domSet)) ==> domSet == old(domSet)
      ensures forall root :: Rooted(g, root) && Exact(g, root, old(domSet)) ==> IdomExact(g, root, idomSet)
    {
      idomSet, domSet := ImmediatesOf(g, domSet);
    }

    /** The empty sets of a graph without exit stay empty, and nothing is recorded. */
    method ComputeIpdom()
      requires g.Valid() && TableOver(g.Reverse(), pdomSet)
      modifies `ipdomSet, `pdomSet
      ensures pdomSet.Keys == old(pdomSet).Keys
      ensures HaveThemselves(old(pdomSet)) ==> pdomSet == old(pdomSet)
      ensures (forall v :: v in old(pdomSet) ==> old(pdomSet)[v] == {}) ==>
                pdomSet == old(pdomSet) && ipdomSet == map[]
      ensures forall exit :: Rooted(g.Reverse(), exit) && Exact(g.Reverse(), exit, old(pdomSet)) ==>
                IdomExact(g.Reverse(), exit, ipdomSet)
    {
      ReverseValid(g);
      ipdomSet, pdomSet := ImmediatesOf(g.Reverse(), pdomSet);
    }

    // ---- The sets rebuilt from immediate dominators ----

    /** The walk up the immediate dominators, cut short at the first available set. */
    method CollectDoms(v: VexIdx, avail: set<VexIdx>, ghost strict: DomTable) returns (doms: set<VexIdx>)
      requires AlongIdoms(idomSet, strict) && v in strict
      requires forall a :: a in avail ==> a in domSet && a in strict && domSet[a] == strict[a]
      ensures doms == strict[v]
    {
      doms := {};
      var idom := IdxOf(idomSet, v);
      ghost var cur := v;
      while idom != VERTEX_UNDEF
        invariant cur in strict && idom == IdxOf(idomSet, cur)
        invariant doms + strict[cur] == strict[v]
        decreases |strict[cur]|
      {
        assert AlongIdomAt(idomSet, strict, cur);
        doms := doms + {idom};
        if idom in avail {
          doms := doms + domSet[idom];
          return;
        }
        cur := idom;
        idom := IdxOf(idomSet, idom);
      }
      assert AlongIdomAt(idomSet, strict, cur);
    }

    /** The sets rebuilt here do not include the vertex itself. */
    method ComputeDom2(vlst: seq<VexIdx>, ghost root: VexIdx)
      requires Rooted(g, root) && IdomExact(g, root, idomSet) && SetOf(vlst) <= g.Vs()
      modifies `domSet
      ensures domSet.Keys == old(domSet.Keys) + SetOf(vlst)
      ensures forall v :: v in domSet ==>
                domSet[v] == if v in vlst then StrictDoms(g, root, v) else old(domSet)[v]
    {
      ghost var strict := map v | v in g.Vs() :: StrictDoms(g, root, v);
      IdomsAlong(g, root, idomSet, strict);
      var avail: set<VexIdx> := {};
      for i := 0 to |vlst|
        invariant avail == SetOf(vlst[..i])
        invariant avail <= strict.Keys
        invariant domSet.Keys == old(domSet.Keys) + avail
        invariant forall v :: v in domSet ==>
                    domSet[v] == if v in avail then strict[v] else old(domSet)[v]
      {
        var v := vlst[i];
        assert v in SetOf(vlst);
        assert SetOf(vlst[..i + 1]) == SetOf(vlst[..i]) + {v};
        var doms := CollectDoms(v, avail - {v}, strict);
        domSet := domSet[v := doms];
        avail := avail + {v};
      }
      assert vlst[..|vlst|] == vlst;
    }

    // ---- Immediate dominators by the two-finger walk ----

    /** One finger of the walk: j moves up while its number is larger than that of k. */
    static method RaiseFinger(g: Graph, rpo: map<VexIdx, int>, p: IdomMap, j0: VexIdx, k: VexIdx, ghost f: Flow)
      returns (j: VexIdx)
      requires Climbable(g, rpo, p, f) && j0 in p && k in p
      ensures j in p && j in rpo && 0 <= rpo[j] <= rpo[k]
      ensures j == j0 || rpo[j] < rpo[j0]
      ensures f.Chain(p, j) * f.Chain(p, k) == f.Chain(p, j0) * f.Chain(p, k)
    {
      j := j0;
      f.RootIsLeast(p, k);
      while rpo[j] > rpo[k]
        invariant j in p && (j == j0 || 0 <= rpo[j] < rpo[j0])
        invariant f.Chain(p, j) * f.Chain(p, k) == f.Chain(p, j0) * f.Chain(p, k)
        decreases rpo[j]
      {
        f.WalkStep(p, j, k);
        j := IdxOf(p, j);
        if g.IsEntry(j) {
          break;
        }
      }
    }

    /** The walk from two vertices to their nearest common ancestor in the current table. */
    static method NearestCommon(g: Graph, rpo: map<VexIdx, int>, p: IdomMap, in_: VexIdx, idom: VexIdx, ghost f: Flow)
      returns (j: VexIdx, k: VexIdx)
      requires Climbable(g, rpo, p, f) && in_ in p && idom in p
      ensures j == k && j in p
      ensures f.Chain(p, j) == f.Chain(p, in_) * f.Chain(p, idom)
    {
      j, k := in_, idom;
      ghost var common := f.Chain(p, in_) * f.Chain(p, idom);
      while j != k
        invariant j in p && k in p
        invariant f.Chain(p, j) * f.Chain(p, k) == common
        decreases rpo[j] + rpo[k]
      {
        j := RaiseFinger(g, rpo, p, j, k, f);
        ghost var k0 := k;
        k := RaiseFinger(g, rpo, p, k, j, f);
        IntersectionCommutes(f.Chain(p, j), f.Chain(p, k));
        IntersectionCommutes(f.Chain(p, j), f.Chain(p, k0));
        if g.IsEntry(j) && g.IsEntry(k) {
          break;
        }
      }
      assert f.Chain(p, j) * f.Chain(p, j) == f.Chain(p, j);
    }

    /** The table is a tree over some of the vertices, and only its root is an entry. */
    static ghost predicate Climbable(g: Graph, rpo: map<VexIdx, int>, p: IdomMap, f: Flow) {
      && f.g == g && f.rpo == rpo && f.Tree(p)
      && p.Keys <= rpo.Keys && p.Keys <= g.ins.Keys
      && (forall v :: v in p ==> 0 <= rpo[v] && (g.IsEntry(v) <==> v == f.root))
      && (forall u, v :: u in p && v in p && rpo[u] == rpo[v] ==> u == v)
    }

    /** What the predecessors of v that have an entry have in common. */
    static method IdomViaPreds(g: Graph, rpo: map<VexIdx, int>, p: IdomMap, v: VexIdx, ghost f: Flow)
      returns (idom: VexIdx)
      requires Climbable(g, rpo, p, f) && VERTEX_UNDEF !in p && v in g.ins
      ensures idom == VERTEX_UNDEF <==> forall u :: u in g.ins[v] ==> u !in p
      ensures idom != VERTEX_UNDEF ==> idom in p && f.IsMeet(p, v, idom)
    {
      idom := VERTEX_UNDEF;
      for i := 0 to |g.ins[v]|
        invariant idom == VERTEX_UNDEF <==> forall u :: u in g.ins[v][..i] ==> u !in p
        invariant idom != VERTEX_UNDEF ==> idom in p
        invariant idom != VERTEX_UNDEF ==>
                    forall x :: x in f.Chain(p, idom)
                      <==> forall u :: u in g.ins[v][..i] && u in p ==> x in f.Chain(p, u)
      {
        var in_ := g.ins[v][i];
        assert g.ins[v][..i + 1] == g.ins[v][..i] + [in_];
        if in_ in p {
          assert f.Link(p, in_);
        }
        if IdxOf(p, in_) == VERTEX_UNDEF {
          continue;
        }
        if idom == VERTEX_UNDEF {
          idom := in_;
          continue;
        }
        var j, k := NearestCommon(g, rpo, p, in_, idom, f);
        if j != k {
          // Several entries: excluded for a rooted graph.
          idom := VERTEX_UNDEF;
          break;
        }
        idom := j;
      }
      assert g.ins[v][..|g.ins[v]|] == g.ins[v];
    }

    /** The turn of the i-th vertex of the list. */
    static method VisitVertex(g: Graph, rpo: map<VexIdx, int>, p: IdomMap, vlst: seq<VexIdx>, i: nat, ghost f: Flow)
      returns (p': IdomMap, changed: bool)
      requires f.g == g && f.rpo == rpo && Schedule(vlst, f) && i < |vlst|
      requires TableBefore(vlst, f, p, i)
      ensures TurnTakenAt(vlst, f, p, i, p', changed)
    {
      var v := vlst[i];
      assert TurnOk(vlst, f, i);
      p', changed := p, false;
      if g.IsEntry(v) {
        RootTurn(vlst, f, p);
        p' := p[v := v];
        return;
      }
      ghost var t := NextTurn(vlst, f, p, i);
      InvClimbable(f, p, f.rpo[v]);
      var idom := IdomViaPreds(g, rpo, p, v, f);
      if idom == VERTEX_UNDEF {
        // No predecessor has an entry: excluded, t has one.
        assert false;
        if IdxOf(p, v) != VERTEX_UNDEF {
          p' := p[v := VERTEX_UNDEF];
          changed := true;
        }
        return;
      }
      LaterTurn(vlst, f, p, i, idom, t);
      if IdxOf(p, v) != idom {
        p' := p[v := idom];
        changed := true;
      }
    }

    /** One turn within a pass. */
    static method PassTurn(g: Graph, rpo: map<VexIdx, int>, ghost p0: IdomMap, p: IdomMap, vlst: seq<VexIdx>,
                           i: nat, changed: bool, ghost f: Flow)
      returns (p': IdomMap, changed': bool, next: nat)
      requires f.g == g && f.rpo == rpo && Schedule(vlst, f) && i < |vlst|
      requires PassState(vlst, f, p0, p, i, changed)
      ensures next == i + 1 && PassState(vlst, f, p0, p', next, changed')
    {
      next := i + 1;
      var ch;
      p', ch := VisitVertex(g, rpo, p, vlst, i, f);
      changed' := changed;
      if ch {
        changed' := true;
      }
      PassStep(vlst, f, p0, p, i, changed, p', ch, next);
    }

    /** One pass over the list. From the second pass on, a pass that changes an entry makes
        the total length of the chains smaller. */
    static method ComputeIdomForFullGraph(g: Graph, rpo: map<VexIdx, int>, p0: IdomMap, vlst: seq<VexIdx>,
                                          ghost f: Flow)
      returns (p: IdomMap, changed: bool)
      requires f.g == g && f.rpo == rpo && Schedule(vlst, f)
      requires TableBefore(vlst, f, p0, 0)
      ensures PassResult(f, p0, p, changed)
    {
      p, changed := p0, false;
      var i: nat := 0;
      while i < |vlst|
        invariant PassState(vlst, f, p0, p, i, changed)
      {
        p, changed, i := PassTurn(g, rpo, p0, p, vlst, i, changed, f);
      }
      PassDone(vlst, f, p0, p, i, changed);
    }

    static ghost function PassesLeft(f: Flow, p: IdomMap): nat {
      if f.Tree(p) && forall v :: v in f.g.vertices ==> v in p then f.TotalLength(p, f.g.vertices) else 0
    }

    /** Passes from an empty table until nothing changes. */
    static method IterateIdoms(g: Graph, rpo: map<VexIdx, int>, vlst: seq<VexIdx>, ghost f: Flow)
      returns (p: IdomMap)
      requires f.g == g && f.rpo == rpo && Schedule(vlst, f)
      ensures f.Inv(p, 0) && p.Keys == f.rpo.Keys && f.AllMeets(p)
    {
      p := map[];
      var changed := true;
      while changed
        invariant TableBefore(vlst, f, p, 0)
        invariant !changed ==> p != map[] && f.AllMeets(p)
        decreases p == map[], PassesLeft(f, p), changed
      {
        p, changed := ComputeIdomForFullGraph(g, rpo, p, vlst, f);
        TableIsFull(f, p);
      }
    }

    /** The entry loses the entry that the passes gave it. */
    static method ClearEntries(g: Graph, p: IdomMap, ghost root: VexIdx) returns (p': IdomMap)
      requires g.Valid() && root in g.Vs()
      requires forall v :: v in g.Vs() ==> (g.IsEntry(v) <==> v == root)
      ensures p' == p[root := VERTEX_UNDEF]
    {
      p' := p;
      for i := 0 to |g.vertices|
        invariant p' == if root in g.vertices[..i] then p[root := VERTEX_UNDEF] else p
      {
        var v := g.vertices[i];
        assert g.vertices[..i + 1] == g.vertices[..i] + [v];
        assert v in g.Vs();
        if g.IsEntry(v) {
          p' := p'[v := VERTEX_UNDEF];
        }
      }
      assert g.vertices[..|g.vertices|] == g.vertices;
    }

    /** Passes over a list in reverse postorder until nothing changes. The loop ends, and the
        table then holds the immediate dominators. */
    method ComputeIdom2(vlst: seq<VexIdx>, ghost root: VexIdx)
      requires Rooted(g, root) && RPOOrder(g, root, vlst) && Numbered(vlst, rpo, 0)
      modifies `idomSet
      ensures IdomExact(g, root, idomSet)
    {
      ghost var f := Flow(g, root, rpo);
      ListIsSchedule(vlst, f);
      idomSet := IterateIdoms(g, rpo, vlst, f);
      MeetsAreExact(f, idomSet);
      idomSet := ClearEntries(g, idomSet, root);
    }
  }

  /** The list is an order of all vertices as ComputeRPO gives it, with its numbers. */
  ghost predicate ListOk(vlst: seq<VexIdx>, f: Flow) {
    && Rooted(f.g, f.root)
    && RPOOrder(f.g, f.root, vlst)
    && Numbered(vlst, f.rpo, 0)
  }

  lemma PosOf(vlst: seq<VexIdx>, rpo: map<VexIdx, int>, v: VexIdx) returns (k: nat)
    requires Numbered(vlst, rpo, 0) && v in rpo
    ensures k < |vlst| && vlst[k] == v && rpo[v] == 10 * k
  {
    k :| 0 <= k < |vlst| && vlst[k] == v;
  }

  lemma FlowForward(vlst: seq<VexIdx>, f: Flow, v: VexIdx)
    requires ListOk(vlst, f) && v in f.rpo && v != f.root
    ensures f.HasSmallerPred(v)
  {
    var k := PosOf(vlst, f.rpo, v);
    assert Rpo.HasForwardPred(f.g, vlst, k);
    var j :| 0 <= j < k && f.g.Edge(vlst[j], vlst[k]);
    assert f.ForwardPred(vlst[j], v);
  }

  lemma FlowNumbers(vlst: seq<VexIdx>, f: Flow, u: VexIdx, v: VexIdx)
    requires ListOk(vlst, f) && u in f.rpo && v in f.rpo
    ensures 0 <= f.rpo[u] && (f.rpo[u] == f.rpo[v] ==> u == v)
  {
    var j := PosOf(vlst, f.rpo, u);
    var k := PosOf(vlst, f.rpo, v);
  }

  lemma FlowVertices(vlst: seq<VexIdx>, f: Flow)
    requires ListOk(vlst, f)
    ensures f.rpo.Keys == f.g.Vs() == f.g.ins.Keys
  {
  }

  lemma NumberedFlow(vlst: seq<VexIdx>, f: Flow)
    requires ListOk(vlst, f)
    ensures f.Valid()
  {
    FlowVertices(vlst, f);
    forall v | v in f.rpo && v != f.root
      ensures f.HasSmallerPred(v)
    {
      FlowForward(vlst, f, v);
    }
    forall u, v | u in f.rpo && v in f.rpo
      ensures 0 <= f.rpo[u] && (f.rpo[u] == f.rpo[v] ==> u == v)
    {
      FlowNumbers(vlst, f, u, v);
    }
  }

  lemma RootFirst(vlst: seq<VexIdx>, f: Flow)
    requires ListOk(vlst, f)
    ensures f.rpo[f.root] == 0
    ensures forall v :: v in f.rpo && v != f.root ==> f.rpo[v] > 0
  {
    forall v | v in f.rpo && v != f.root
      ensures f.rpo[v] > 0
    {
      var k := PosOf(vlst, f.rpo, v);
    }
  }

  lemma NextNumber(vlst: seq<VexIdx>, f: Flow, i: nat)
    requires ListOk(vlst, f) && 0 < i < |vlst|
    ensures forall v :: v in f.rpo ==> (f.rpo[v] < f.rpo[vlst[i - 1]] + 1 <==> f.rpo[v] < f.rpo[vlst[i]])
  {
    forall v | v in f.rpo
      ensures f.rpo[v] < f.rpo[vlst[i - 1]] + 1 <==> f.rpo[v] < f.rpo[vlst[i]]
    {
      var k := PosOf(vlst, f.rpo, v);
    }
  }

  /** What the i-th turn may rely on. */
  ghost predicate TurnOk(vlst: seq<VexIdx>, f: Flow, i: nat) {
    && i < |vlst|
    && vlst[i] in f.rpo && vlst[i] in f.g.ins
    && (f.g.IsEntry(vlst[i]) <==> i == 0)
    && (vlst[i] == f.root <==> i == 0)
    && (i == 0 ==> forall v :: v in f.rpo && v != f.root ==> 0 <= f.rpo[f.root] < f.rpo[v])
    && (i > 0 ==> vlst[i - 1] in f.rpo)
    && (i > 0 ==> forall v :: v in f.rpo ==> (f.rpo[v] < f.rpo[vlst[i - 1]] + 1 <==> f.rpo[v] < f.rpo[vlst[i]]))
    && (i + 1 == |vlst| ==> forall v :: v in f.rpo ==> f.rpo[v] < f.rpo[vlst[i]] + 1)
  }

  /** The list visits all vertices in the order of their numbers, the root first. */
  ghost predicate Schedule(vlst: seq<VexIdx>, f: Flow) {
    && f.Valid()
    && vlst != []
    && (forall i: nat {:trigger TurnOk(vlst, f, i)} :: i < |vlst| ==> TurnOk(vlst, f, i))
    && (forall v {:trigger Listed(vlst, v)} :: v in f.rpo ==> Listed(vlst, v))
  }

  ghost predicate Listed(vlst: seq<VexIdx>, v: VexIdx) {
    exists k :: 0 <= k < |vlst| && vlst[k] == v
  }

  lemma ListIsSchedule(vlst: seq<VexIdx>, f: Flow)
    requires ListOk(vlst, f)
    ensures Schedule(vlst, f)
  {
    NumberedFlow(vlst, f);
    RootFirst(vlst, f);
    forall v | v in f.rpo
      ensures Listed(vlst, v) && f.rpo[v] < f.rpo[vlst[|vlst| - 1]] + 1
    {
      var k := PosOf(vlst, f.rpo, v);
    }
    forall i: nat | i < |vlst|
      ensures TurnOk(vlst, f, i)
    {
      assert vlst[i] in vlst;
      if i > 0 {
        NextNumber(vlst, f, i);
      }
    }
  }

  /** The state before the i-th turn. */
  ghost predicate TableBefore(vlst: seq<VexIdx>, f: Flow, p: IdomMap, i: nat) {
    if i == 0 then p == map[] || (f.Inv(p, 0) && p.Keys == f.rpo.Keys)
    else i <= |vlst| && f.InvAfter(p, vlst[i - 1])
  }

  /** What the i-th turn does: an unchanged entry is what the predecessors have in common, a
      changed one makes the chains of a complete table shorter in total. */
  ghost predicate TurnTakenAt(vlst: seq<VexIdx>, f: Flow, p: IdomMap, i: nat, p': IdomMap, changed: bool)
    requires i < |vlst|
  {
    && TableBefore(vlst, f, p', i + 1)
    && p.Keys <= p'.Keys
    && (!changed && p != map[] ==> p' == p)
    && (!changed && i > 0 ==> MeetAt(f, p, vlst[i]))
    && (changed && p.Keys == f.rpo.Keys ==> i > 0 && Shorter(f, p', p))
  }

  /** In the middle of a pass that began with the table p0. */
  ghost predicate PassState(vlst: seq<VexIdx>, f: Flow, p0: IdomMap, p: IdomMap, i: nat, changed: bool) {
    && i <= |vlst| && TableBefore(vlst, f, p, i)
    && (!changed ==> MeetsUpTo(f, p, vlst, i))
    && (p0 != map[] ==> p.Keys == f.rpo.Keys && if changed then Shorter(f, p, p0) else p == p0)
  }

  lemma PassStep(vlst: seq<VexIdx>, f: Flow, p0: IdomMap, p: IdomMap, i: nat, changed: bool,
                 p': IdomMap, ch: bool, next: nat)
    requires PassState(vlst, f, p0, p, i, changed) && Schedule(vlst, f) && i < |vlst| && next == i + 1
    requires TurnTakenAt(vlst, f, p, i, p', ch)
    ensures PassState(vlst, f, p0, p', next, changed || ch)
  {
    if p0 != map[] {
      assert p'.Keys == f.rpo.Keys;
    }
    if !changed && !ch {
      MeetsOneMore(vlst, f, p, i, p', next);
    }
  }

  lemma MeetsOneMore(vlst: seq<VexIdx>, f: Flow, p: IdomMap, i: nat, p': IdomMap, next: nat)
    requires TableBefore(vlst, f, p, i) && i < |vlst| && next == i + 1
    requires MeetsUpTo(f, p, vlst, i) && TurnTakenAt(vlst, f, p, i, p', false)
    ensures MeetsUpTo(f, p', vlst, next)
  {
    assert i > 0 ==> p != map[];
    forall k | 0 < k < next
      ensures MeetAt(f, p', vlst[k])
    {
      assert k < i ==> MeetAt(f, p, vlst[k]);
    }
  }

  /** What a pass does to the table p0. */
  ghost predicate PassResult(f: Flow, p0: IdomMap, p: IdomMap, changed: bool) {
    && f.Inv(p, 0) && p.Keys == f.rpo.Keys
    && (!changed ==> f.AllMeets(p))
    && (p0 != map[] ==> if changed then Shorter(f, p, p0) else p == p0)
  }

  lemma PassDone(vlst: seq<VexIdx>, f: Flow, p0: IdomMap, p: IdomMap, i: nat, changed: bool)
    requires Schedule(vlst, f) && i == |vlst| && PassState(vlst, f, p0, p, i, changed)
    ensures PassResult(f, p0, p, changed)
  {
    PassEnd(vlst, f, p);
    if !changed {
      QuietPassEnd(vlst, f, p);
    }
  }

  ghost predicate Shorter(f: Flow, p': IdomMap, p: IdomMap) {
    && f.Tree(p) && f.Tree(p')
    && (forall v :: v in f.g.vertices ==> v in p && v in p')
    && f.TotalLength(p', f.g.vertices) < f.TotalLength(p, f.g.vertices)
  }

  lemma RootTurn(vlst: seq<VexIdx>, f: Flow, p: IdomMap)
    requires Schedule(vlst, f) && TableBefore(vlst, f, p, 0)
    ensures TurnTakenAt(vlst, f, p, 0, p[vlst[0] := vlst[0]], false)
  {
    assert TurnOk(vlst, f, 0);
    if p != map[] {
      f.InvPastRoot(p, 0);
      assert p[f.root := f.root] == p;
    } else {
      f.InvAtStart();
    }
  }

  lemma NextTurn(vlst: seq<VexIdx>, f: Flow, p: IdomMap, i: nat) returns (t: VexIdx)
    requires Schedule(vlst, f) && 0 < i < |vlst| && TableBefore(vlst, f, p, i)
    ensures vlst[i] in f.rpo && f.Inv(p, f.rpo[vlst[i]])
    ensures vlst[i] in f.g.ins && f.ForwardPred(t, vlst[i]) && t in f.g.ins[vlst[i]] && t in p
  {
    assert TurnOk(vlst, f, i);
    f.InvShift(p, vlst[i - 1], f.rpo[vlst[i]]);
    assert f.HasSmallerPred(vlst[i]);
    t :| f.ForwardPred(t, vlst[i]);
  }

  lemma TurnHolds(vlst: seq<VexIdx>, f: Flow, p: IdomMap, i: nat, n: VexIdx, t: VexIdx)
    requires Schedule(vlst, f) && 0 < i < |vlst| && vlst[i] in f.rpo && f.Inv(p, f.rpo[vlst[i]])
    requires vlst[i] in f.g.ins && f.ForwardPred(t, vlst[i]) && t in f.g.ins[vlst[i]] && t in p
    requires n in p && f.IsMeet(p, vlst[i], n)
    ensures f.Turn(p, vlst[i], n) && n != VERTEX_UNDEF && vlst[i] in f.g.vertices
  {
    var v := vlst[i];
    assert TurnOk(vlst, f, i);
    f.ChainSelf(p, n);
    assert f.OnAllPreds(p, v, n);
    f.ChainMembers(p, t, n);
    f.RootIsLeast(p, n);
  }

  lemma TurnMovesOn(vlst: seq<VexIdx>, f: Flow, p: IdomMap, i: nat, n: VexIdx)
    requires f.Valid() && i < |vlst| && f.Turn(p, vlst[i], n)
    ensures TableBefore(vlst, f, p[vlst[i] := n], i + 1)
  {
    f.TurnKeepsInv(p, vlst[i], n);
  }

  lemma LaterTurn(vlst: seq<VexIdx>, f: Flow, p: IdomMap, i: nat, n: VexIdx, t: VexIdx)
    requires Schedule(vlst, f) && 0 < i < |vlst| && vlst[i] in f.rpo && f.Inv(p, f.rpo[vlst[i]])
    requires vlst[i] in f.g.ins && f.ForwardPred(t, vlst[i]) && t in f.g.ins[vlst[i]] && t in p
    requires n in p && f.IsMeet(p, vlst[i], n)
    ensures TurnTakenAt(vlst, f, p, i, p[vlst[i] := n], IdxOf(p, vlst[i]) != n)
    ensures IdxOf(p, vlst[i]) == n ==> p[vlst[i] := n] == p
  {
    var v := vlst[i];
    TurnHolds(vlst, f, p, i, n, t);
    TurnMovesOn(vlst, f, p, i, n);
    if IdxOf(p, v) == n {
      assert p[v := n] == p;
      assert MeetAt(f, p, v);
    } else if p.Keys == f.rpo.Keys {
      assert forall x :: x in f.g.vertices <==> x in f.g.Vs();
      f.TotalDrops(p, v, n, f.g.vertices);
    }
  }

  lemma TableIsFull(f: Flow, p: IdomMap)
    requires f.Valid() && p.Keys == f.rpo.Keys
    ensures p != map[] && forall v :: v in f.g.vertices ==> v in p
  {
    assert f.root in p;
    forall v | v in f.g.vertices
      ensures v in p
    {
      assert v in f.g.Vs();
    }
  }

  lemma MeetsAreExact(f: Flow, p: IdomMap)
    requires f.Valid() && f.Inv(p, 0) && p.Keys == f.rpo.Keys && f.AllMeets(p)
    ensures IdomExact(f.g, f.root, p[f.root := VERTEX_UNDEF])
  {
    var q := p[f.root := VERTEX_UNDEF];
    forall v | v in f.g.Vs() && v != f.root
      ensures IDom(f.g, f.root, IdxOf(q, v), v)
    {
      MeetIsExact(f, p, v);
    }
  }

  lemma MeetIsExact(f: Flow, p: IdomMap, v: VexIdx)
    requires f.Valid() && f.Inv(p, 0) && p.Keys == f.rpo.Keys && f.AllMeets(p) && v in p && v != f.root
    ensures IDom(f.g, f.root, IdxOf(p[f.root := VERTEX_UNDEF], v), v)
  {
    f.MeetsAreIDoms(p, v);
    assert IdxOf(p[f.root := VERTEX_UNDEF], v) == p[v];
  }

  lemma InvClimbable(f: Flow, p: IdomMap, c: int)
    requires f.Valid() && f.Inv(p, c)
    ensures DGraph.Climbable(f.g, f.rpo, p, f) && VERTEX_UNDEF !in p
  {
    forall v | v in p
      ensures v in f.g.Vs() && 0 <= f.rpo[v]
    {
    }
  }

  lemma PassEnd(vlst: seq<VexIdx>, f: Flow, p: IdomMap)
    requires Schedule(vlst, f) && TableBefore(vlst, f, p, |vlst|)
    ensures f.Inv(p, 0) && p.Keys == f.rpo.Keys
  {
    assert TurnOk(vlst, f, |vlst| - 1);
    f.InvRestart(p, vlst[|vlst| - 1]);
  }

  lemma QuietPassEnd(vlst: seq<VexIdx>, f: Flow, p: IdomMap)
    requires Schedule(vlst, f) && f.Tree(p) && p.Keys == f.rpo.Keys
    requires MeetsUpTo(f, p, vlst, |vlst|)
    ensures f.AllMeets(p)
  {
    forall v | v in p && v != f.root
      ensures f.Link(p, v) && f.IsMeet(p, v, p[v])
    {
      assert Listed(vlst, v);
      var k :| 0 <= k < |vlst| && vlst[k] == v;
      assert TurnOk(vlst, f, k) && MeetAt(f, p, vlst[k]);
      assert f.Link(p, v);
    }
  }

  ghost predicate MeetAt(f: Flow, p: IdomMap, v: VexIdx) {
    f.Tree(p) && v in p && v in f.g.ins && p[v] in p && f.IsMeet(p, v, p[v])
  }

  ghost predicate MeetsUpTo(f: Flow, p: IdomMap, vlst: seq<VexIdx>, i: nat)
    requires i <= |vlst|
  {
    forall k :: 0 < k < i ==> MeetAt(f, p, vlst[k])
  }

  lemma IntersectionCommutes<T>(a: set<T>, b: set<T>)
    ensures a * b == b * a
  {
  }

  ghost function StrictDoms(g: Graph, root: VexIdx, v: VexIdx): set<VexIdx> {
    DomSet(g, root, v) - {v}
  }

  /** The strict dominators of v are its immediate dominator and that one's strict dominators. */
  lemma IdomStep(g: Graph, root: VexIdx, idom: IdomMap, v: VexIdx)
    requires Rooted(g, root) && IdomExact(g, root, idom) && v in g.Vs()
    ensures v == root ==> IdxOf(idom, v) == VERTEX_UNDEF && StrictDoms(g, root, v) == {}
    ensures v != root ==>
              && IdxOf(idom, v) in g.Vs()
              && StrictDoms(g, root, v) == StrictDoms(g, root, IdxOf(idom, v)) + {IdxOf(idom, v)}
              && |StrictDoms(g, root, IdxOf(idom, v))| < |StrictDoms(g, root, v)|
  {
    if v == root {
      RootSet(g, root);
    } else {
      var i := IdxOf(idom, v);
      assert IDom(g, root, i, v);
      IDomIffDomSet(g, root, i, v);
      DomReflexive(g, root, i);
      assert StrictDoms(g, root, v) == StrictDoms(g, root, i) + {i};
    }
  }

  /** Each vertex's set is its immediate dominator together with that one's set. */
  ghost predicate AlongIdomAt(idom: IdomMap, strict: DomTable, v: VexIdx)
    requires v in strict
  {
    var i := IdxOf(idom, v);
    if i == VERTEX_UNDEF then strict[v] == {}
    else i in strict && strict[v] == strict[i] + {i} && |strict[i]| < |strict[v]|
  }

  ghost predicate AlongIdoms(idom: IdomMap, strict: DomTable) {
    forall v {:trigger AlongIdomAt(idom, strict, v)} :: v in strict ==> AlongIdomAt(idom, strict, v)
  }

  lemma IdomsAlong(g: Graph, root: VexIdx, idom: IdomMap, strict: DomTable)
    requires Rooted(g, root) && IdomExact(g, root, idom)
    requires strict == map v | v in g.Vs() :: StrictDoms(g, root, v)
    ensures AlongIdoms(idom, strict)
  {
    forall v | v in strict
      ensures AlongIdomAt(idom, strict, v)
    {
      IdomStep(g, root, idom, v);
    }
  }

  /** A set of vertices for every vertex. */
  ghost predicate TableOver(g: Graph, d: DomTable) {
    && g.Valid()
    && d.Keys == g.Vs()
    && forall v :: v in d ==> d[v] <= g.Vs()
  }

  /** Every set of at least two members holds the vertex it belongs to. */
  ghost predicate HaveThemselves(d: DomTable) {
    forall v :: v in d && |d[v]| >= 2 ==> v in d[v]
  }

  /** The set of v after the search for its immediate dominator. */
  ghost function Searched(g: Graph, d: DomTable, v: VexIdx): set<VexIdx>
    requires v in d && v in g.ins
  {
    if g.IsEntry(v) || |d[v]| < 2 then d[v] else d[v] + {v}
  }

  ghost predicate SearchedAt(g: Graph, d0: DomTable, ids: seq<VexIdx>, d: DomTable, v: VexIdx)
    requires TableOver(g, d0) && v in d0
  {
    v in d && d[v] == if v in ids then Searched(g, d0, v) else d0[v]
  }

  /** The table after the search for the listed vertices. */
  ghost predicate SearchedUpTo(g: Graph, d0: DomTable, ids: seq<VexIdx>, d: DomTable) {
    && TableOver(g, d0)
    && d.Keys == d0.Keys
    && forall v {:trigger SearchedAt(g, d0, ids, d, v)} :: v in d0 ==> SearchedAt(g, d0, ids, d, v)
  }

  ghost predicate RecordedAt(g: Graph, d0: DomTable, idom: IdomMap, v: VexIdx) {
    && TableOver(g, d0) && v in d0
    && (v in idom ==> |d0[v]| >= 2)
    && (HaveThemselves(d0) ==> ImmediateAt(g, d0, v, IdxOf(idom, v)))
  }

  ghost predicate RecordedUpTo(g: Graph, d0: DomTable, ids: seq<VexIdx>, idom: IdomMap) {
    && (forall v :: v in idom ==> v in ids)
    && forall v {:trigger RecordedAt(g, d0, idom, v)} :: v in ids ==> RecordedAt(g, d0, idom, v)
  }

  lemma SearchTable(g: Graph, d0: DomTable, ids: seq<VexIdx>, d: DomTable, v: VexIdx)
    requires SearchedUpTo(g, d0, ids, d) && v in g.Vs() && v !in ids
    ensures v in d && d[v] == d0[v] && d[v] <= d.Keys && VERTEX_UNDEF !in d[v]
  {
    assert SearchedAt(g, d0, ids, d, v);
  }

  lemma SearchStep(g: Graph, d0: DomTable, ids: seq<VexIdx>, d: DomTable, v: VexIdx, d': DomTable)
    requires SearchedUpTo(g, d0, ids, d) && v in d0 && v !in ids
    requires v in d && d' == d[v := Searched(g, d0, v)]
    ensures SearchedUpTo(g, d0, ids + [v], d')
  {
    forall w | w in d0
      ensures SearchedAt(g, d0, ids + [v], d', w)
    {
      assert SearchedAt(g, d0, ids, d, w);
    }
  }

  lemma RecordStep(g: Graph, d0: DomTable, ids: seq<VexIdx>, idom: IdomMap, v: VexIdx, idom': IdomMap)
    requires RecordedUpTo(g, d0, ids, idom) && v !in ids
    requires RecordedAt(g, d0, idom', v)
    requires forall w :: w != v ==> (w in idom' <==> w in idom) && IdxOf(idom', w) == IdxOf(idom, w)
    ensures RecordedUpTo(g, d0, ids + [v], idom')
  {
    forall w | w in ids + [v]
      ensures RecordedAt(g, d0, idom', w)
    {
      assert w in ids ==> RecordedAt(g, d0, idom, w);
    }
  }

  /** What the search finds in the table as it is then is right for the table it began with. */
  lemma FoundAt(g: Graph, d0: DomTable, ids: seq<VexIdx>, d: DomTable, v: VexIdx, j: VexIdx, idom: IdomMap)
    requires SearchedUpTo(g, d0, ids, d) && v in d0 && v !in ids && v in d && d[v] == d0[v]
    requires !g.IsEntry(v) && |d0[v]| >= 2
    requires d[v] <= d.Keys
    requires j != VERTEX_UNDEF ==> j in d[v] - {v} && d[j] == d[v] - {v}
    requires j == VERTEX_UNDEF ==> forall k :: k in d[v] - {v} ==> d[k] != d[v] - {v}
    requires IdxOf(idom, v) == j
    ensures RecordedAt(g, d0, idom, v)
  {
    if HaveThemselves(d0) {
      NothingSearched(g, d0, ids, d);
    }
  }

  lemma AlreadyIn<T>(s: set<T>, x: T)
    requires x in s
    ensures s + {x} == s
  {
  }

  lemma NothingSearched(g: Graph, d0: DomTable, ids: seq<VexIdx>, d: DomTable)
    requires SearchedUpTo(g, d0, ids, d) && HaveThemselves(d0)
    ensures d == d0
  {
    forall v | v in d0
      ensures d[v] == d0[v]
    {
      assert SearchedAt(g, d0, ids, d, v);
      if |d0[v]| >= 2 {
        AlreadyIn(d0[v], v);
      }
    }
  }

  lemma SearchDone(g: Graph, d0: DomTable, d: DomTable, idom: IdomMap)
    requires SearchedUpTo(g, d0, g.vertices, d) && RecordedUpTo(g, d0, g.vertices, idom)
    ensures forall v :: v in d ==> d[v] == Searched(g, d0, v)
    ensures forall v :: v in idom ==> v in g.Vs() && |d0[v]| >= 2
    ensures HaveThemselves(d0) ==> d == d0
    ensures forall root :: Rooted(g, root) && Exact(g, root, d0) ==> IdomExact(g, root, idom)
  {
    forall v | v in g.Vs()
      ensures SearchedAt(g, d0, g.vertices, d, v) && RecordedAt(g, d0, idom, v)
    {
    }
    if HaveThemselves(d0) {
      NothingSearched(g, d0, g.vertices, d);
    }
    forall root | Rooted(g, root) && Exact(g, root, d0)
      ensures IdomExact(g, root, idom)
    {
      ExactHaveThemselves(g, root, d0);
      ImmediatesAreIDoms(g, root, d0, idom);
    }
  }

  lemma ExactHaveThemselves(g: Graph, root: VexIdx, d: DomTable)
    requires Rooted(g, root) && Exact(g, root, d)
    ensures HaveThemselves(d)
  {
    forall v | v in d
      ensures v in d[v]
    {
      DomReflexive(g, root, v);
    }
  }

  ghost predicate ImmediateAt(g: Graph, d: DomTable, v: VexIdx, i: VexIdx)
    requires g.Valid() && v in g.Vs() && v in d && d[v] <= d.Keys
  {
    if g.IsEntry(v) || |d[v]| < 2 then i == VERTEX_UNDEF
    else if i == VERTEX_UNDEF then forall j :: j in d[v] - {v} ==> d[j] != d[v] - {v}
    else i in d[v] - {v} && d[i] == d[v] - {v}
  }

  lemma RootSet(g: Graph, root: VexIdx)
    requires root in g.Vs()
    ensures DomSet(g, root, root) == {root}
  {
    forall d | d in DomSet(g, root, root)
      ensures d == root
    {
      OnlyRootDominatesRoot(g, root, d);
    }
    DomReflexive(g, root, root);
  }

  lemma ImmediatesAreIDoms(g: Graph, root: VexIdx, d: DomTable, idom: IdomMap)
    requires Rooted(g, root) && Exact(g, root, d)
    requires forall v :: v in g.Vs() ==> ImmediateAt(g, d, v, IdxOf(idom, v))
    ensures IdomExact(g, root, idom)
  {
    forall v | v in g.Vs() && v != root
      ensures IDom(g, root, IdxOf(idom, v), v)
    {
      var i := IDomExists(g, root, v);
      IDomIffDomSet(g, root, i, v);
      DomReflexive(g, root, i);
      DomReflexive(g, root, v);
      assert i in d[v] - {v} && d[i] == d[v] - {v};
      SubsetCard({i, v}, d[v]);
      assert ImmediateAt(g, d, v, IdxOf(idom, v));
      IDomIffDomSet(g, root, IdxOf(idom, v), v);
    }
  }

  /** Two exact tables agree: the set fixpoint, the pointer walk and any other computation
      of immediate dominators give the same table. */
  lemma ExactTablesAgree(g: Graph, root: VexIdx, idom1: IdomMap, idom2: IdomMap, v: VexIdx)
    requires Rooted(g, root) && v in g.Vs()
    requires IdomExact(g, root, idom1) && IdomExact(g, root, idom2)
    ensures IdxOf(idom1, v) == IdxOf(idom2, v)
  {
    if v != root {
      IDomUnique(g, root, IdxOf(idom1, v), IdxOf(idom2, v), v);
    }
  }
}
