/** Dominance defined by paths, independently of any algorithm: d dominates v when every
    path from the root to v goes through d. */
module Dominance {
  import opened Graphs

  ghost predicate Dom(g: Graph, root: VexIdx, d: VexIdx, v: VexIdx) {
    forall p :: PathFromTo(g, root, v, p) ==> d in p
  }

  ghost predicate SDom(g: Graph, root: VexIdx, d: VexIdx, v: VexIdx) {
    d != v && Dom(g, root, d, v)
  }

  /** The immediate dominator: the strict dominator that every other one dominates. */
  ghost predicate IDom(g: Graph, root: VexIdx, i: VexIdx, v: VexIdx) {
    && i in g.Vs()
    && SDom(g, root, i, v)
    && forall d :: d in g.Vs() && SDom(g, root, d, v) ==> Dom(g, root, d, i)
  }

  ghost function DomSet(g: Graph, root: VexIdx, v: VexIdx): set<VexIdx> {
    set d | d in g.Vs() && Dom(g, root, d, v)
  }

  /** The graphs dominators are computed on: one entry, everything reachable from it. */
  ghost predicate Rooted(g: Graph, root: VexIdx) {
    && g.Valid()
    && root in g.Vs()
    && (forall v :: v in g.Vs() ==> (g.IsEntry(v) <==> v == root))
    && AllReachable(g, root)
  }

  lemma DomReflexive(g: Graph, root: VexIdx, v: VexIdx)
    ensures Dom(g, root, v, v)
  {
  }

  lemma OnlyRootDominatesRoot(g: Graph, root: VexIdx, d: VexIdx)
    requires root in g.Vs() && Dom(g, root, d, root)
    ensures d == root
  {
    PathSingle(g, root);
  }

  /** A dominator of v other than v dominates every predecessor of v. */
  lemma DomOfPred(g: Graph, root: VexIdx, d: VexIdx, u: VexIdx, v: VexIdx)
    requires g.Edge(u, v) && SDom(g, root, d, v)
    ensures Dom(g, root, d, u)
  {
    forall p | PathFromTo(g, root, u, p)
      ensures d in p
    {
      PathSnoc(g, root, u, p, v);
    }
  }

  /** The last position of x in p. */
  lemma {:induction false} LastIndex(p: seq<VexIdx>, x: VexIdx) returns (i: nat)
    requires x in p
    ensures i < |p| && p[i] == x && x !in p[i + 1..]
  {
    i := |p| - 1;
    while p[i] != x
      invariant i < |p| && x !in p[i + 1..]
      invariant x in p[..i + 1]
      decreases i
    {
      assert p[i..] == [p[i]] + p[i + 1..];
      assert p[..i + 1] == p[..i] + [p[i]];
      i := i - 1;
    }
  }

  lemma {:induction false} FirstIndex(p: seq<VexIdx>, x: VexIdx) returns (i: nat)
    requires x in p
    ensures i < |p| && p[i] == x && x !in p[..i]
  {
    i := 0;
    while p[i] != x
      invariant i < |p| && x !in p[..i]
      invariant x in p[i..]
      decreases |p| - i
    {
      assert p[..i + 1] == p[..i] + [p[i]];
      assert p[i..] == [p[i]] + p[i + 1..];
      i := i + 1;
    }
  }

  /** On a path to v that leaves a for good before its last visit of b, a dominates b. */
  lemma LaterIsDominated(g: Graph, root: VexIdx, a: VexIdx, b: VexIdx, v: VexIdx, p: seq<VexIdx>, i: nat)
    requires g.Valid() && Dom(g, root, a, v)
    requires PathFromTo(g, root, v, p) && i < |p| && p[i] == b && a !in p[i + 1..]
    ensures Dom(g, root, a, b)
  {
    forall q | PathFromTo(g, root, b, q)
      ensures a in q
    {
      PathSlice(g, p, i, |p|);
      assert p[i..|p|] == p[i..];
      PathAppend(g, root, b, v, q, p[i..]);
      assert p[i..][1..] == p[i + 1..];
    }
  }

  /** The dominators of a reachable vertex form a chain. */
  lemma DominatorsFormChain(g: Graph, root: VexIdx, a: VexIdx, b: VexIdx, v: VexIdx)
    requires g.Valid() && Reaches(g, root, v)
    requires Dom(g, root, a, v) && Dom(g, root, b, v)
    ensures Dom(g, root, a, b) || Dom(g, root, b, a)
  {
    var p :| PathFromTo(g, root, v, p);
    var i := LastIndex(p, a);
    var j := LastIndex(p, b);
    if i <= j {
      assert a !in p[j + 1..];
      LaterIsDominated(g, root, a, b, v, p, j);
    } else {
      assert b !in p[i + 1..];
      LaterIsDominated(g, root, b, a, v, p, i);
    }
  }

  lemma DomTransitive(g: Graph, root: VexIdx, a: VexIdx, b: VexIdx, v: VexIdx)
    requires g.Valid() && Dom(g, root, a, b) && Dom(g, root, b, v)
    ensures Dom(g, root, a, v)
  {
    forall p | PathFromTo(g, root, v, p)
      ensures a in p
    {
      var i :| 0 <= i < |p| && p[i] == b;
      PathSlice(g, p, 0, i + 1);
    }
  }

  lemma DomAntisymmetric(g: Graph, root: VexIdx, a: VexIdx, b: VexIdx)
    requires g.Valid() && Reaches(g, root, a)
    requires Dom(g, root, a, b) && Dom(g, root, b, a)
    ensures a == b
  {
    var p :| PathFromTo(g, root, a, p);
    var i := FirstIndex(p, b);
    PathSlice(g, p, 0, i + 1);
    assert a in p[..i + 1];
    var j :| 0 <= j < i + 1 && p[j] == a;
    PathSlice(g, p, 0, j + 1);
    assert b in p[..j + 1];
    assert p[..j] == p[..i][..j];
  }

  /** Every vertex but the root has an immediate dominator. */
  lemma IDomExists(g: Graph, root: VexIdx, v: VexIdx) returns (i: VexIdx)
    requires Rooted(g, root) && v in g.Vs() && v != root
    ensures IDom(g, root, i, v)
  {
    assert root in DomSet(g, root, v) - {v};
    i := Deepest(g, root, v, DomSet(g, root, v) - {v});
  }

  lemma {:induction false} Deepest(g: Graph, root: VexIdx, v: VexIdx, s: set<VexIdx>) returns (i: VexIdx)
    requires Rooted(g, root) && v in g.Vs()
    requires s <= DomSet(g, root, v) && s != {}
    ensures i in s && forall d :: d in s ==> Dom(g, root, d, i)
    decreases s
  {
    i :| i in s;
    if s != {i} {
      var j := Deepest(g, root, v, s - {i});
      DominatorsFormChain(g, root, i, j, v);
      if !Dom(g, root, i, j) {
        forall d | d in s
          ensures Dom(g, root, d, i)
        {
          if d != i {
            DomTransitive(g, root, d, j, i);
          }
        }
      } else {
        i := j;
      }
    }
  }

  lemma IDomUnique(g: Graph, root: VexIdx, i: VexIdx, j: VexIdx, v: VexIdx)
    requires Rooted(g, root)
    requires IDom(g, root, i, v) && IDom(g, root, j, v)
    ensures i == j
  {
    DomAntisymmetric(g, root, i, j);
  }

  /** The vertex whose dominators are exactly the strict dominators of v is the immediate
      dominator of v, and no other vertex is. */
  lemma IDomIffDomSet(g: Graph, root: VexIdx, i: VexIdx, v: VexIdx)
    requires Rooted(g, root) && v in g.Vs() && i in g.Vs()
    ensures IDom(g, root, i, v) <==> DomSet(g, root, i) == DomSet(g, root, v) - {v}
  {
    if IDom(g, root, i, v) {
      forall d | d in DomSet(g, root, i)
        ensures d in DomSet(g, root, v) - {v}
      {
        DomTransitive(g, root, d, i, v);
        if d == v {
          DomAntisymmetric(g, root, i, v);
        }
      }
    }
    if DomSet(g, root, i) == DomSet(g, root, v) - {v} {
      assert i in DomSet(g, root, i);
      forall d | d in g.Vs() && SDom(g, root, d, v)
        ensures Dom(g, root, d, i)
      {
        assert d in DomSet(g, root, i);
      }
    }
  }

  // ---- Post-dominance: the same notions on the reversed graph ----

  ghost predicate PostDom(g: Graph, exit: VexIdx, d: VexIdx, v: VexIdx) {
    forall p :: PathFromTo(g, v, exit, p) ==> d in p
  }

  /** Dominance on the reversed graph is post-dominance. */
  lemma ReverseDomIsPostDom(g: Graph, exit: VexIdx, d: VexIdx, v: VexIdx)
    requires g.Valid()
    ensures Dom(g.Reverse(), exit, d, v) <==> PostDom(g, exit, d, v)
  {
    ReverseValid(g);
    if Dom(g.Reverse(), exit, d, v) {
      forall p | PathFromTo(g, v, exit, p)
        ensures d in p
      {
        var q := ReversePath(g, v, exit, p);
      }
    }
    if PostDom(g, exit, d, v) {
      forall p | PathFromTo(g.Reverse(), exit, v, p)
        ensures d in p
      {
        var q := ReversePath(g.Reverse(), exit, v, p);
        assert g.Reverse().Reverse() == g;
      }
    }
  }

  /** So the sets of dominators of the reversed graph are the sets of post-dominators. */
  lemma ReverseDomSet(g: Graph, exit: VexIdx, v: VexIdx)
    requires g.Valid()
    ensures DomSet(g.Reverse(), exit, v) == set d | d in g.Vs() && PostDom(g, exit, d, v)
  {
    forall d: VexIdx
      ensures Dom(g.Reverse(), exit, d, v) <==> PostDom(g, exit, d, v)
    {
      ReverseDomIsPostDom(g, exit, d, v);
    }
  }

  /** The reversed graph is rooted at the exit when that is the only exit and every vertex
      reaches it. */
  lemma ReverseRooted(g: Graph, exit: VexIdx)
    requires g.Valid() && exit in g.Vs()
    ensures Rooted(g.Reverse(), exit) <==>
              && (forall v :: v in g.Vs() ==> (g.IsExit(v) <==> v == exit))
              && (forall v :: v in g.Vs() ==> Reaches(g, v, exit))
  {
    ReverseValid(g);
    forall v | v in g.Vs()
      ensures Reaches(g.Reverse(), exit, v) <==> Reaches(g, v, exit)
    {
      if Reaches(g, v, exit) {
        var p :| PathFromTo(g, v, exit, p);
        var q := ReversePath(g, v, exit, p);
      }
      if Reaches(g.Reverse(), exit, v) {
        var p :| PathFromTo(g.Reverse(), exit, v, p);
        var q := ReversePath(g.Reverse(), exit, v, p);
        assert g.Reverse().Reverse() == g;
      }
    }
  }
}
