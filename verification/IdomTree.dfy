/** The tree that a table of candidate immediate dominators spans, and the invariant of
    the iteration of `DGraph::computeIdom2` on it. Nothing here depends on how the graph was
    numbered beyond one fact: every vertex but the root has a predecessor of smaller
    number. */
module IdomTree {
  import opened Graphs
  import opened Dominance
  import opened DomFixpoint

  type IdomMap = map<VexIdx, VexIdx>

  /** A rooted graph whose vertices carry distinct numbers. */
  datatype Flow = Flow(g: Graph, root: VexIdx, rpo: map<VexIdx, int>) {

    ghost predicate ForwardPred(t: VexIdx, v: VexIdx) {
      g.Edge(t, v) && t in rpo && v in rpo && rpo[t] < rpo[v]
    }

    ghost predicate HasSmallerPred(v: VexIdx) {
      exists t :: ForwardPred(t, v)
    }

    ghost predicate Valid() {
      && Rooted(g, root)
      && rpo.Keys == g.Vs()
      && (forall v :: v in rpo ==> 0 <= rpo[v])
      && (forall u, v :: u in rpo && v in rpo && rpo[u] == rpo[v] ==> u == v)
      && (forall v {:trigger HasSmallerPred(v)} :: v in rpo && v != root ==> HasSmallerPred(v))
    }

    ghost predicate Link(p: IdomMap, v: VexIdx)
      requires v in p
    {
      p[v] in p && p[v] in rpo && v in rpo && (v != root ==> 0 <= rpo[p[v]] < rpo[v])
    }

    /** The table is a tree: every entry but the root's points to a smaller number. */
    ghost predicate Tree(p: IdomMap) {
      && root in p && p[root] == root
      && (forall v {:trigger Link(p, v)} :: v in p ==> Link(p, v))
    }

    /** v and its ancestors. */
    ghost function Chain(p: IdomMap, v: VexIdx): set<VexIdx>
      requires Tree(p) && v in p
      decreases if v in rpo then rpo[v] else 0
    {
      assert Link(p, v);
      if v == root then {v} else {v} + Chain(p, p[v])
    }

    lemma {:induction false} ChainMembers(p: IdomMap, v: VexIdx, x: VexIdx)
      requires Tree(p) && v in p && x in Chain(p, v)
      ensures x in p && v in rpo && x in rpo && (x == v || rpo[x] < rpo[v])
      ensures Chain(p, x) <= Chain(p, v)
      decreases if v in rpo then rpo[v] else 0
    {
      assert Link(p, v);
      if x != v {
        ChainMembers(p, p[v], x);
      }
    }

    lemma {:induction false} ChainHasRoot(p: IdomMap, v: VexIdx)
      requires Tree(p) && v in p
      ensures root in Chain(p, v)
      decreases if v in rpo then rpo[v] else 0
    {
      assert Link(p, v);
      if v != root {
        ChainHasRoot(p, p[v]);
      }
    }

    lemma RootIsLeast(p: IdomMap, v: VexIdx)
      requires Tree(p) && v in p && v in rpo
      ensures root in rpo && rpo[root] <= rpo[v]
    {
      ChainHasRoot(p, v);
      ChainMembers(p, v, root);
    }

    /** Of two members of a chain, the one with the smaller number is an ancestor. */
    lemma {:induction false} ChainOrdered(p: IdomMap, v: VexIdx, x: VexIdx, y: VexIdx)
      requires Tree(p) && v in p && x in Chain(p, v) && y in Chain(p, v)
      requires x in rpo && y in rpo && rpo[x] <= rpo[y]
      ensures y in p && x in Chain(p, y)
      decreases if v in rpo then rpo[v] else 0
    {
      assert Link(p, v);
      ChainMembers(p, v, x);
      ChainMembers(p, v, y);
      if y != v {
        ChainOrdered(p, p[v], x, y);
      }
    }

    /** One step of the two-finger walk: the finger with the larger number moves up and the
        common ancestors stay the same. */
    lemma WalkStep(p: IdomMap, j: VexIdx, k: VexIdx)
      requires Tree(p) && j in p && k in p && j in rpo && k in rpo && rpo[k] < rpo[j]
      ensures j != root && p[j] in p && p[j] in rpo && 0 <= rpo[p[j]] < rpo[j]
      ensures Chain(p, p[j]) * Chain(p, k) == Chain(p, j) * Chain(p, k)
    {
      assert Link(p, j);
      if j in Chain(p, k) {
        ChainMembers(p, k, j);
      }
      ChainHasRoot(p, k);
      ChainMembers(p, k, root);
    }

    // ---- The invariant of the iteration ----

    /** x is on the chain of every predecessor of v that has an entry. */
    ghost predicate OnAllPreds(p: IdomMap, v: VexIdx, x: VexIdx)
      requires Tree(p) && v in g.ins
    {
      forall u :: u in g.ins[v] && u in p ==> x in Chain(p, u)
    }

    /** The entry of v is not above what its predecessors have in common. */
    ghost predicate CoversMeet(p: IdomMap, v: VexIdx)
      requires Tree(p) && v in p && v in g.ins
    {
      assert Link(p, v);
      forall x :: OnAllPreds(p, v, x) ==> x in Chain(p, p[v])
    }

    /** The entry of v is exactly what its predecessors have in common. */
    ghost predicate IsMeet(p: IdomMap, v: VexIdx, n: VexIdx)
      requires Tree(p) && v in g.ins && n in p
    {
      forall x :: OnAllPreds(p, v, x) <==> x in Chain(p, n)
    }

    /** Every strict ancestor of v that still waits for its turn in this pass is on the
        chain of each forward predecessor of v; once v has had its turn, all of them are. */
    ghost predicate FollowsForward(p: IdomMap, c: int, v: VexIdx)
      requires Tree(p) && v in p
    {
      assert Link(p, v);
      forall t, x :: ForwardPred(t, v) && t in p && x in Chain(p, p[v])
        && (rpo[v] < c || (x in rpo && c <= rpo[x]))
        ==> x in Chain(p, t)
    }

    ghost predicate InvAt(p: IdomMap, c: int, v: VexIdx)
      requires Tree(p) && v in p && v in g.ins
    {
      && DomSet(g, root, v) <= Chain(p, v)
      && (v != root ==> CoversMeet(p, v) && FollowsForward(p, c, v))
    }

    /** The invariant when exactly the vertices numbered below c had their turn. */
    ghost predicate Inv(p: IdomMap, c: int) {
      && Tree(p)
      && p.Keys <= rpo.Keys == g.ins.Keys
      && (forall v :: v in rpo && rpo[v] < c ==> v in p)
      && (p.Keys == rpo.Keys || forall v :: v in p && v != root ==> rpo[v] < c)
      && (forall v {:trigger InvAt(p, c, v)} :: v in p ==> InvAt(p, c, v))
    }

    /** The invariant just after the turn of v. */
    ghost predicate InvAfter(p: IdomMap, v: VexIdx) {
      v in rpo && exists c {:trigger Inv(p, c)} :: c == rpo[v] + 1 && Inv(p, c)
    }

    // ---- One table entry changes ----

    ghost predicate CanPoint(p: IdomMap, w: VexIdx, n: VexIdx) {
      Tree(p) && w != root && w in rpo && n in p && n in rpo && 0 <= rpo[n] < rpo[w]
    }

    lemma TreeUpdate(p: IdomMap, w: VexIdx, n: VexIdx)
      requires CanPoint(p, w, n)
      ensures Tree(p[w := n])
    {
      var p' := p[w := n];
      forall v | v in p'
        ensures Link(p', v)
      {
        assert v in p ==> Link(p, v);
      }
    }

    lemma {:induction false} ChainUntouched(p: IdomMap, w: VexIdx, n: VexIdx, v: VexIdx)
      requires CanPoint(p, w, n) && Tree(p[w := n])
      requires v in p && w !in Chain(p, v)
      ensures Chain(p[w := n], v) == Chain(p, v)
      decreases if v in rpo then rpo[v] else 0
    {
      assert Link(p, v) && Link(p[w := n], v);
      if v != root {
        ChainUntouched(p, w, n, p[v]);
      }
    }

    /** Moving the entry of w up to an ancestor n removes from every chain through w exactly
        what lies between; nothing numbered from w on is lost. */
    lemma {:induction false} ChainCut(p: IdomMap, w: VexIdx, n: VexIdx, v: VexIdx)
      requires CanPoint(p, w, n) && Tree(p[w := n])
      requires w in p && p[w] in p && n in Chain(p, p[w]) && v in p && w in Chain(p, v)
      ensures Chain(p[w := n], v) <= Chain(p, v)
      ensures forall x :: x in Chain(p, v) && x in rpo && rpo[w] <= rpo[x] ==> x in Chain(p[w := n], v)
      decreases if v in rpo then rpo[v] else 0
    {
      var p' := p[w := n];
      assert Link(p, v) && Link(p', v);
      if v == w {
        NotAbove(p, w, n);
        ChainUntouched(p, w, n, n);
        ChainMembers(p, p[w], n);
        forall x | x in Chain(p, w) && x in rpo && rpo[w] <= rpo[x]
          ensures x == w
        {
          ChainMembers(p, w, x);
        }
      } else {
        ChainCut(p, w, n, p[v]);
      }
    }

    lemma NotAbove(p: IdomMap, w: VexIdx, n: VexIdx)
      requires CanPoint(p, w, n)
      ensures w !in Chain(p, n)
    {
      if w in Chain(p, n) {
        ChainMembers(p, n, w);
      }
    }

    /** Chains never grow, whether w had an entry or not. */
    lemma ChainShrinks(p: IdomMap, w: VexIdx, n: VexIdx, v: VexIdx)
      requires CanPoint(p, w, n) && Tree(p[w := n])
      requires v in p && (w in p ==> p[w] in p && n in Chain(p, p[w]))
      ensures Chain(p[w := n], v) <= Chain(p, v)
      ensures forall x :: x in Chain(p, v) && x in rpo && rpo[w] <= rpo[x] ==> x in Chain(p[w := n], v)
      ensures w !in Chain(p, v) ==> Chain(p[w := n], v) == Chain(p, v)
      ensures w in Chain(p, v) ==> w in p && w in Chain(p[w := n], v)
    {
      if w in Chain(p, v) {
        ChainMembers(p, v, w);
        ChainCut(p, w, n, v);
      } else {
        ChainUntouched(p, w, n, v);
      }
    }

    // ---- One vertex has its turn ----

    /** The situation when w has its turn and n is what its predecessors have in common. */
    ghost predicate Turn(p: IdomMap, w: VexIdx, n: VexIdx) {
      && Valid()
      && w in rpo && w != root
      && Inv(p, rpo[w])
      && n in p && n in rpo && 0 <= rpo[n] < rpo[w]
      && IsMeet(p, w, n)
    }

    /** The new entry is on the old chain: no chain ever grows. */
    lemma NewEntryOnOldChain(p: IdomMap, w: VexIdx, n: VexIdx)
      requires Turn(p, w, n)
      ensures CanPoint(p, w, n) && Tree(p[w := n])
      ensures w in p ==> p[w] in p && n in Chain(p, p[w])
    {
      TreeUpdate(p, w, n);
      if w in p {
        assert Link(p, w);
        assert InvAt(p, rpo[w], w);
        ChainSelf(p, n);
        assert OnAllPreds(p, w, n);
      }
    }

    lemma ChainSelf(p: IdomMap, v: VexIdx)
      requires Tree(p) && v in p
      ensures v in Chain(p, v)
    {
      assert Link(p, v);
    }

    /** A true dominator of v numbered below w also dominates w, when w is on v's chain. */
    lemma {:induction false} TruthDescends(p: IdomMap, w: VexIdx, v: VexIdx, x: VexIdx)
      requires Valid() && w in rpo && w != root && Inv(p, rpo[w])
      requires v in p && w in Chain(p, v)
      requires x in DomSet(g, root, v) && rpo[x] < rpo[w]
      ensures x in DomSet(g, root, w)
      decreases if v in rpo then rpo[v] else 0
    {
      ChainMembers(p, v, w);
      if v != w {
        assert Link(p, v);
        assert HasSmallerPred(v);
        var t :| ForwardPred(t, v);
        DomOfPred(g, root, x, t, v);
        assert InvAt(p, rpo[w], v);
        HasEntry(p, rpo[w], t, v);
        assert w in Chain(p, p[v]);
        TruthDescends(p, w, t, x);
      }
    }

    /** Forward predecessors of vertices with an entry have an entry. */
    lemma HasEntry(p: IdomMap, c: int, t: VexIdx, v: VexIdx)
      requires Inv(p, c) && v in p && v != root && ForwardPred(t, v)
      ensures t in p
    {
    }

    lemma TruthKeptAtTurn(p: IdomMap, w: VexIdx, n: VexIdx)
      requires Turn(p, w, n) && Tree(p[w := n])
      ensures DomSet(g, root, w) <= Chain(p[w := n], w)
    {
      assert Link(p[w := n], w);
      NotAbove(p, w, n);
      ChainUntouched(p, w, n, n);
      forall x | x in DomSet(g, root, w) && x != w
        ensures x in Chain(p, n)
      {
        TruthOnMeet(p, w, n, x);
      }
    }

    lemma TruthKept(p: IdomMap, w: VexIdx, n: VexIdx, v: VexIdx)
      requires Turn(p, w, n) && Tree(p[w := n]) && v in p
      ensures DomSet(g, root, v) <= Chain(p[w := n], v)
    {
      var p' := p[w := n];
      NewEntryOnOldChain(p, w, n);
      assert InvAt(p, rpo[w], v);
      ChainShrinks(p, w, n, v);
      forall x | x in DomSet(g, root, v)
        ensures x in Chain(p', v)
      {
        assert x in Chain(p, v);
        if w in Chain(p, v) && rpo[x] < rpo[w] {
          TruthDescends(p, w, v, x);
          TruthKeptAtTurn(p, w, n);
          ChainMembers(p', v, w);
        }
      }
    }

    lemma TruthOnMeet(p: IdomMap, w: VexIdx, n: VexIdx, x: VexIdx)
      requires Turn(p, w, n) && x in DomSet(g, root, w) && x != w
      ensures x in Chain(p, n)
    {
      forall u | u in g.ins[w] && u in p
        ensures x in Chain(p, u)
      {
        assert g.Edge(u, w);
        DomOfPred(g, root, x, u, w);
        assert InvAt(p, rpo[w], u);
      }
      assert OnAllPreds(p, w, x);
    }

    lemma CoversMeetKept(p: IdomMap, w: VexIdx, n: VexIdx, v: VexIdx)
      requires Turn(p, w, n) && Tree(p[w := n]) && (v in p || v == w) && v != root
      ensures CoversMeet(p[w := n], v)
    {
      var p' := p[w := n];
      NewEntryOnOldChain(p, w, n);
      assert Link(p', v);
      forall x | OnAllPreds(p', v, x)
        ensures x in Chain(p', p'[v])
      {
        forall u | u in g.ins[v] && u in p
          ensures x in Chain(p, u)
        {
          ChainShrinks(p, w, n, u);
        }
        assert OnAllPreds(p, v, x);
        if v == w {
          NotAbove(p, w, n);
          ChainUntouched(p, w, n, n);
        } else {
          CoversMeetStep(p, w, n, v, x);
        }
      }
    }

    lemma CoversMeetStep(p: IdomMap, w: VexIdx, n: VexIdx, v: VexIdx, x: VexIdx)
      requires Turn(p, w, n) && Tree(p[w := n]) && v in p && v != w && v != root
      requires p[v] in p && OnAllPreds(p, v, x) && OnAllPreds(p[w := n], v, x)
      ensures x in Chain(p[w := n], p[v])
    {
      var p' := p[w := n];
      NewEntryOnOldChain(p, w, n);
      assert Link(p, v) && InvAt(p, rpo[w], v);
      assert x in Chain(p, p[v]);
      ChainMembers(p, p[v], x);
      ChainShrinks(p, w, n, p[v]);
      if w in Chain(p, p[v]) && rpo[x] < rpo[w] {
        assert HasSmallerPred(v);
        var t :| ForwardPred(t, v);
        HasEntry(p, rpo[w], t, v);
        assert w in Chain(p, t);
        ChainShrinks(p, w, n, t);
        assert t in g.ins[v];
        ChainOrdered(p', t, x, w);
        ChainMembers(p', p[v], w);
      }
    }

    lemma FollowsForwardAtTurn(p: IdomMap, w: VexIdx, n: VexIdx)
      requires Turn(p, w, n) && Tree(p[w := n])
      ensures FollowsForward(p[w := n], rpo[w] + 1, w)
    {
      var p' := p[w := n];
      assert Link(p', w);
      NewEntryOnOldChain(p, w, n);
      NotAbove(p, w, n);
      ChainUntouched(p, w, n, n);
      forall t, x | ForwardPred(t, w) && t in p' && x in Chain(p', n)
        ensures x in Chain(p', t)
      {
        assert OnAllPreds(p, w, x);
        assert t in g.ins[w];
        NoLargerMember(p, t, w);
        ChainUntouched(p, w, n, t);
      }
    }

    lemma FollowsForwardKept(p: IdomMap, w: VexIdx, n: VexIdx, v: VexIdx)
      requires Turn(p, w, n) && Tree(p[w := n]) && v in p && v != w && v != root
      ensures FollowsForward(p[w := n], rpo[w] + 1, v)
    {
      var p' := p[w := n];
      assert Link(p', v);
      forall t, x | ForwardPred(t, v) && t in p' && x in Chain(p', p[v])
          && (rpo[v] < rpo[w] + 1 || (x in rpo && rpo[w] + 1 <= rpo[x]))
        ensures x in Chain(p', t)
      {
        assert rpo[v] != rpo[w];
        FollowsForwardStep(p, w, n, v, t, x);
      }
    }

    lemma ForwardHolds(p: IdomMap, c: int, v: VexIdx, t: VexIdx, x: VexIdx)
      requires Tree(p) && v in p && FollowsForward(p, c, v) && ForwardPred(t, v) && t in p
      requires p[v] in p && x in Chain(p, p[v]) && (rpo[v] < c || (x in rpo && c <= rpo[x]))
      ensures x in Chain(p, t)
    {
    }

    lemma FollowsForwardStep(p: IdomMap, w: VexIdx, n: VexIdx, v: VexIdx, t: VexIdx, x: VexIdx)
      requires Turn(p, w, n) && Tree(p[w := n]) && v in p && v != root
      requires ForwardPred(t, v) && p[v] in p && x in Chain(p[w := n], p[v])
      requires rpo[v] < rpo[w] || (x in rpo && rpo[w] < rpo[x])
      ensures t in p && x in Chain(p[w := n], t)
    {
      NewEntryOnOldChain(p, w, n);
      HasEntry(p, rpo[w], t, v);
      ChainShrinks(p, w, n, p[v]);
      assert InvAt(p, rpo[w], v);
      ForwardHolds(p, rpo[w], v, t, x);
      if rpo[v] < rpo[w] {
        NoLargerMember(p, t, w);
        ChainUntouched(p, w, n, t);
      } else {
        ChainShrinks(p, w, n, t);
      }
    }

    lemma NoLargerMember(p: IdomMap, t: VexIdx, w: VexIdx)
      requires Tree(p) && t in p && t in rpo && w in rpo && rpo[t] < rpo[w]
      ensures w !in Chain(p, t)
    {
      if w in Chain(p, t) {
        ChainMembers(p, t, w);
      }
    }

    /** A turn keeps the invariant. */
    lemma TurnKeepsInv(p: IdomMap, w: VexIdx, n: VexIdx)
      requires Turn(p, w, n)
      requires forall v :: v in rpo && rpo[v] == rpo[w] ==> v == w
      ensures Inv(p[w := n], rpo[w] + 1)
      ensures w in p ==> p[w] in rpo && (n == p[w] || rpo[n] < rpo[p[w]])
    {
      var p' := p[w := n];
      NewEntryOnOldChain(p, w, n);
      forall v | v in p'
        ensures InvAt(p', rpo[w] + 1, v)
      {
        if v == w {
          TruthKeptAtTurn(p, w, n);
          CoversMeetKept(p, w, n, w);
          FollowsForwardAtTurn(p, w, n);
        } else {
          TruthKept(p, w, n, v);
          if v != root {
            CoversMeetKept(p, w, n, v);
            FollowsForwardKept(p, w, n, v);
          }
        }
      }
      if w in p {
        assert Link(p, w);
        ChainMembers(p, p[w], n);
      }
    }

    /** Only which vertices lie below the bound matters. */
    lemma InvShift(p: IdomMap, w: VexIdx, c': int)
      requires InvAfter(p, w)
      requires forall v :: v in rpo ==> (rpo[v] < rpo[w] + 1 <==> rpo[v] < c')
      ensures Inv(p, c')
    {
      var c :| c == rpo[w] + 1 && Inv(p, c);
      forall v | v in p
        ensures InvAt(p, c', v)
      {
        InvAtShift(p, c, c', v);
      }
    }

    lemma InvAtShift(p: IdomMap, c: int, c': int, v: VexIdx)
      requires Inv(p, c) && v in p
      requires forall u :: u in rpo ==> (rpo[u] < c <==> rpo[u] < c')
      ensures InvAt(p, c', v)
    {
      assert InvAt(p, c, v);
      if v != root {
        FollowsShift(p, c, c', v);
      }
    }

    lemma FollowsShift(p: IdomMap, c: int, c': int, v: VexIdx)
      requires Tree(p) && v in p && v in rpo && FollowsForward(p, c, v)
      requires forall u :: u in rpo ==> (rpo[u] < c <==> rpo[u] < c')
      ensures FollowsForward(p, c', v)
    {
    }

    /** When all had their turn a new pass may start. */
    lemma InvRestart(p: IdomMap, w: VexIdx)
      requires InvAfter(p, w) && forall v :: v in rpo ==> rpo[v] < rpo[w] + 1
      ensures Inv(p, 0) && p.Keys == rpo.Keys
    {
      var c :| c == rpo[w] + 1 && Inv(p, c);
      forall v | v in p
        ensures InvAt(p, 0, v)
      {
        assert InvAt(p, c, v);
      }
    }

    /** The table when only the root has an entry. */
    lemma InvAtStart()
      requires Valid() && forall v :: v in rpo && v != root ==> rpo[root] < rpo[v]
      ensures Inv(map[root := root], rpo[root] + 1)
    {
      var p: IdomMap := map[root := root];
      assert Link(p, root);
      forall x | x in DomSet(g, root, root)
        ensures x in Chain(p, root)
      {
        OnlyRootDominatesRoot(g, root, x);
      }
      assert InvAt(p, rpo[root] + 1, root);
    }

    /** The root's turn changes nothing in a later pass. */
    lemma InvPastRoot(p: IdomMap, c: int)
      requires Inv(p, c) && root in rpo
      requires forall v :: v in rpo && v != root ==> c <= rpo[v] && rpo[root] < rpo[v]
      requires p.Keys == rpo.Keys
      ensures Inv(p, rpo[root] + 1)
    {
      forall v | v in p
        ensures InvAt(p, rpo[root] + 1, v)
      {
        assert InvAt(p, c, v);
        assert Link(p, v);
      }
    }

    // ---- The result ----

    ghost function ChainTable(p: IdomMap): DomTable
      requires Tree(p)
    {
      map v | v in p :: Chain(p, v)
    }

    ghost predicate AllMeets(p: IdomMap)
      requires Tree(p) && p.Keys == g.ins.Keys
    {
      forall v {:trigger Link(p, v)} :: v in p && v != root ==> Link(p, v) && IsMeet(p, v, p[v])
    }

    lemma ChainInGraph(p: IdomMap, v: VexIdx)
      requires Tree(p) && p.Keys == g.Vs() && v in p
      ensures Chain(p, v) <= g.Vs()
    {
      forall x | x in Chain(p, v)
        ensures x in g.Vs()
      {
        ChainMembers(p, v, x);
      }
    }

    lemma MeetIsChain(p: IdomMap, v: VexIdx)
      requires Valid() && Tree(p) && p.Keys == g.Vs() && v in p && v != root
      requires p[v] in p && IsMeet(p, v, p[v])
      ensures Meet(g, ChainTable(p), v) == Chain(p, p[v])
      ensures ChainTable(p)[v] == Chain(p, p[v]) + {v}
    {
      var d := ChainTable(p);
      assert g.ins[v][0] in g.ins[v];
      forall u | u in g.ins[v]
        ensures u in p
      {
        assert g.Edge(u, v);
      }
      forall x
        ensures x in Meet(g, d, v) <==> x in Chain(p, p[v])
      {
        assert OnAllPreds(p, v, x) <==> x in Meet(g, d, v);
      }
    }

    /** When every entry is exactly what its predecessors have in common, the chains are the
        dominator sets. */
    lemma MeetsAreDominators(p: IdomMap)
      requires Valid() && Inv(p, 0) && p.Keys == rpo.Keys && AllMeets(p)
      ensures Exact(g, root, ChainTable(p))
    {
      var d := ChainTable(p);
      forall v | v in g.Vs()
        ensures AboveAt(g, root, d, v) && SolvesAt(g, d, v)
      {
        assert InvAt(p, 0, v) && Link(p, v);
        ChainInGraph(p, v);
        if v != root {
          MeetIsChain(p, v);
        }
      }
      SolvesIffExact(g, root, d);
    }

    lemma MeetsAreIDoms(p: IdomMap, v: VexIdx)
      requires Valid() && Inv(p, 0) && p.Keys == rpo.Keys && AllMeets(p)
      requires v in p && v != root
      ensures IDom(g, root, p[v], v)
    {
      MeetsAreDominators(p);
      assert Link(p, v);
      var d := ChainTable(p);
      NoLargerMember(p, p[v], v);
      assert d[p[v]] == d[v] - {v};
      IDomIffDomSet(g, root, p[v], v);
    }

    // ---- Termination ----

    /** A turn that changes an entry takes the old entry off the chain of w, and no other
        chain grows. */
    lemma TurnShortens(p: IdomMap, w: VexIdx, n: VexIdx)
      requires Turn(p, w, n) && w in p && p[w] != n
      ensures Tree(p[w := n])
      ensures Chain(p[w := n], w) < Chain(p, w)
      ensures forall v :: v in p ==> Chain(p[w := n], v) <= Chain(p, v)
    {
      var p' := p[w := n];
      NewEntryOnOldChain(p, w, n);
      forall v | v in p
        ensures Chain(p', v) <= Chain(p, v)
      {
        ChainShrinks(p, w, n, v);
      }
      assert Link(p, w) && Link(p', w);
      ChainSelf(p, p[w]);
      ChainMembers(p, p[w], n);
      NoLargerMember(p, n, p[w]);
      NotAbove(p, w, n);
      ChainUntouched(p, w, n, n);
      assert p[w] in Chain(p, w) && p[w] !in Chain(p', w);
    }

    /** The lengths of the chains of the listed vertices, added up. */
    ghost function TotalLength(p: IdomMap, vs: seq<VexIdx>): nat
      requires Tree(p) && forall v :: v in vs ==> v in p
    {
      if vs == [] then 0 else TotalLength(p, vs[..|vs| - 1]) + |Chain(p, vs[|vs| - 1])|
    }

    lemma {:induction false} LengthGrowsNot(p: IdomMap, p': IdomMap, vs: seq<VexIdx>)
      requires Tree(p) && Tree(p') && forall v :: v in vs ==> v in p && v in p'
      requires forall v :: v in p ==> v in p' && Chain(p', v) <= Chain(p, v)
      ensures TotalLength(p', vs) <= TotalLength(p, vs)
      ensures (exists w :: w in vs && Chain(p', w) < Chain(p, w)) ==> TotalLength(p', vs) < TotalLength(p, vs)
    {
      if vs != [] {
        var front, v := vs[..|vs| - 1], vs[|vs| - 1];
        LengthGrowsNot(p, p', front);
        assert vs == front + [v];
        SubsetCard(Chain(p', v), Chain(p, v));
      }
    }

    /** So a turn that changes the entry of a listed vertex makes the total length smaller. */
    lemma TotalDrops(p: IdomMap, w: VexIdx, n: VexIdx, vs: seq<VexIdx>)
      requires Turn(p, w, n) && w in p && p[w] != n
      requires w in vs && forall v :: v in vs ==> v in p
      ensures Tree(p[w := n]) && TotalLength(p[w := n], vs) < TotalLength(p, vs)
    {
      TurnShortens(p, w, n);
      LengthGrowsNot(p, p[w := n], vs);
    }
  }
}
