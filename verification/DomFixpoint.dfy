/** The dominator equations, and what a sweep over them does to a candidate solution:
    the mathematics behind `DGraph::computeDom` and `DGraph::computePdom`. */
module DomFixpoint {
  import opened Graphs
  import opened Dominance

  type DomTable = map<VexIdx, set<VexIdx>>

  /** What all predecessors of v have in common. */
  function Meet(g: Graph, d: DomTable, v: VexIdx): set<VexIdx>
    requires v in g.ins && g.ins[v] != []
    requires forall u :: u in g.ins[v] ==> u in d
  {
    set x | x in d[g.ins[v][0]] && forall u :: u in g.ins[v] ==> x in d[u]
  }

  /** One table entry is recomputed; entries keep their value. */
  ghost function Update(g: Graph, d: DomTable, v: VexIdx): DomTable
    requires g.Valid() && v in g.Vs() && d.Keys == g.Vs()
  {
    if g.IsEntry(v) then d else d[v := Meet(g, d, v) + {v}]
  }

  /** The whole list is recomputed in order. */
  ghost function Sweep(g: Graph, d: DomTable, vlst: seq<VexIdx>): (d': DomTable)
    requires g.Valid() && d.Keys == g.Vs() && SetOf(vlst) <= g.Vs()
    ensures d'.Keys == g.Vs()
  {
    if vlst == [] then d
    else
      assert vlst[|vlst| - 1] in SetOf(vlst);
      assert SetOf(vlst[..|vlst| - 1]) <= SetOf(vlst);
      Update(g, Sweep(g, d, vlst[..|vlst| - 1]), vlst[|vlst| - 1])
  }

  ghost function Sweeps(g: Graph, d: DomTable, vlst: seq<VexIdx>, rounds: nat): (d': DomTable)
    requires g.Valid() && d.Keys == g.Vs() && SetOf(vlst) <= g.Vs()
    ensures d'.Keys == g.Vs()
  {
    if rounds == 0 then d else Sweep(g, Sweeps(g, d, vlst, rounds - 1), vlst)
  }

  ghost function InitTable(g: Graph): DomTable
    requires g.Valid()
  {
    map v | v in g.Vs() :: if g.IsEntry(v) then {v} else g.Vs()
  }

  ghost predicate SolvesAt(g: Graph, d: DomTable, v: VexIdx)
    requires g.Valid() && d.Keys == g.Vs() && v in g.Vs()
  {
    !g.IsEntry(v) ==> d[v] == Meet(g, d, v) + {v}
  }

  ghost predicate Solves(g: Graph, d: DomTable)
    requires g.Valid() && d.Keys == g.Vs()
  {
    forall v {:trigger SolvesAt(g, d, v)} :: v in g.Vs() ==> SolvesAt(g, d, v)
  }

  ghost predicate AboveAt(g: Graph, root: VexIdx, d: DomTable, v: VexIdx)
    requires Rooted(g, root) && d.Keys == g.Vs() && v in g.Vs()
  {
    && DomSet(g, root, v) <= d[v] <= g.Vs()
    && (v != root ==> Meet(g, d, v) + {v} <= d[v])
  }

  /** A table that lies above the truth and above its own recomputation. */
  ghost predicate Above(g: Graph, root: VexIdx, d: DomTable) {
    && Rooted(g, root)
    && d.Keys == g.Vs()
    && d[root] == {root}
    && (forall v {:trigger AboveAt(g, root, d, v)} :: v in g.Vs() ==> AboveAt(g, root, d, v))
  }

  ghost predicate Exact(g: Graph, root: VexIdx, d: DomTable) {
    d.Keys == g.Vs() && forall v :: v in g.Vs() ==> d[v] == DomSet(g, root, v)
  }

  ghost predicate Shrinks(d: DomTable, d': DomTable) {
    d'.Keys == d.Keys && forall v :: v in d ==> d'[v] <= d[v]
  }

  lemma ShrinksBothWays(d: DomTable, d': DomTable)
    requires Shrinks(d, d') && Shrinks(d', d)
    ensures d == d'
  {
    forall v | v in d
      ensures d[v] == d'[v]
    {
      assert d'[v] <= d[v];
    }
  }

  lemma ShrinksTwice(d0: DomTable, d1: DomTable, d2: DomTable)
    requires Shrinks(d0, d1) && Shrinks(d1, d2)
    ensures Shrinks(d0, d2)
    ensures d1 != d2 ==> d0 != d2
  {
    forall v | v in d0
      ensures d2[v] <= d0[v]
    {
      assert d2[v] <= d1[v] <= d0[v];
    }
    if d0 == d2 {
      ShrinksBothWays(d1, d2);
    }
  }

  lemma InitAbove(g: Graph, root: VexIdx)
    requires Rooted(g, root)
    ensures Above(g, root, InitTable(g))
  {
    var d := InitTable(g);
    forall v | v in g.Vs()
      ensures AboveAt(g, root, d, v)
    {
      if v == root {
        forall x | x in DomSet(g, root, root)
          ensures x in d[root]
        {
          OnlyRootDominatesRoot(g, root, x);
        }
      } else {
        var u := g.ins[v][0];
        assert g.Edge(u, v) && d[u] <= g.Vs();
      }
    }
  }

  /** Recomputing one entry keeps every true dominator and only shrinks the table. */
  lemma UpdateKeepsAbove(g: Graph, root: VexIdx, d: DomTable, v: VexIdx)
    requires Above(g, root, d) && v in g.Vs()
    ensures Above(g, root, Update(g, d, v))
    ensures Shrinks(d, Update(g, d, v))
  {
    var d' := Update(g, d, v);
    if v != root {
      assert AboveAt(g, root, d, v);
      TruthSurvivesUpdate(g, root, d, v);
      forall w | w in g.Vs()
        ensures AboveAt(g, root, d', w)
      {
        assert AboveAt(g, root, d, w);
        if w != root {
          assert forall u :: u in g.ins[w] ==> d'[u] <= d[u];
          assert Meet(g, d', w) <= Meet(g, d, w);
        }
      }
    }
  }

  lemma TruthSurvivesUpdate(g: Graph, root: VexIdx, d: DomTable, v: VexIdx)
    requires Above(g, root, d) && v in g.Vs() && v != root
    ensures DomSet(g, root, v) <= Meet(g, d, v) + {v}
  {
    forall x, u | x in DomSet(g, root, v) && x != v && u in g.ins[v]
      ensures x in d[u]
    {
      assert g.Edge(u, v);
      DomOfPred(g, root, x, u, v);
      assert AboveAt(g, root, d, u);
    }
  }

  lemma {:induction false} SweepKeepsAbove(g: Graph, root: VexIdx, d: DomTable, vlst: seq<VexIdx>)
    requires Above(g, root, d) && SetOf(vlst) <= g.Vs()
    ensures Above(g, root, Sweep(g, d, vlst))
    ensures Shrinks(d, Sweep(g, d, vlst))
  {
    if vlst != [] {
      var front, v := vlst[..|vlst| - 1], vlst[|vlst| - 1];
      assert v in SetOf(vlst) && SetOf(front) <= SetOf(vlst);
      SweepKeepsAbove(g, root, d, front);
      UpdateKeepsAbove(g, root, Sweep(g, d, front), v);
    }
  }

  /** A solution holds no vertex that some path avoids. */
  lemma {:induction false} SolutionOnPath(g: Graph, root: VexIdx, d: DomTable, p: seq<VexIdx>, i: nat, x: VexIdx)
    requires Rooted(g, root) && d.Keys == g.Vs() && d[root] == {root} && Solves(g, d)
    requires IsPath(g, p) && p[0] == root && i < |p| && p[i] in d && x in d[p[i]]
    ensures x in p[..i + 1]
  {
    if i > 0 && x != p[i] {
      assert Hop(g, p, i - 1) && g.Edge(p[i - 1], p[i]);
      assert SolvesAt(g, d, p[i]);
      SolutionOnPath(g, root, d, p, i - 1, x);
    }
  }

  lemma SolutionIsExact(g: Graph, root: VexIdx, d: DomTable)
    requires Above(g, root, d) && Solves(g, d)
    ensures Exact(g, root, d)
  {
    forall v | v in g.Vs()
      ensures d[v] == DomSet(g, root, v)
    {
      assert AboveAt(g, root, d, v);
      forall x, p | x in d[v] && PathFromTo(g, root, v, p)
        ensures x in p
      {
        SolutionOnPath(g, root, d, p, |p| - 1, x);
      }
    }
  }

  lemma UpdatesKeepExact(g: Graph, root: VexIdx, d: DomTable)
    requires Above(g, root, d) && Exact(g, root, d)
    ensures Solves(g, d)
  {
    forall v | v in g.Vs() && v != root
      ensures SolvesAt(g, d, v)
    {
      UpdateKeepsAbove(g, root, d, v);
      var d' := Update(g, d, v);
      assert AboveAt(g, root, d', v);
      assert DomSet(g, root, v) <= d'[v] <= d[v];
    }
  }

  /** A table above the truth solves the equations exactly when it is the truth. */
  lemma SolvesIffExact(g: Graph, root: VexIdx, d: DomTable)
    requires Above(g, root, d)
    ensures Solves(g, d) <==> Exact(g, root, d)
  {
    if Solves(g, d) {
      SolutionIsExact(g, root, d);
    } else if Exact(g, root, d) {
      UpdatesKeepExact(g, root, d);
    }
  }

  /** A sweep over the whole list that changes nothing has met a solution. */
  lemma {:induction false} QuietSweepSolves(g: Graph, root: VexIdx, d: DomTable, vlst: seq<VexIdx>)
    requires Above(g, root, d) && SetOf(vlst) <= g.Vs() && Sweep(g, d, vlst) == d
    ensures forall v :: v in vlst ==> SolvesAt(g, d, v)
  {
    if vlst != [] {
      var front, v := vlst[..|vlst| - 1], vlst[|vlst| - 1];
      assert v in SetOf(vlst) && SetOf(front) <= SetOf(vlst);
      SweepKeepsAbove(g, root, d, front);
      var d1 := Sweep(g, d, front);
      UpdateKeepsAbove(g, root, d1, v);
      ShrinksBothWays(d, d1);
      QuietSweepSolves(g, root, d, front);
      assert forall w :: w in vlst ==> w == v || w in front;
    }
  }

  lemma {:induction false} SweepsKeepAbove(g: Graph, root: VexIdx, d: DomTable, vlst: seq<VexIdx>, rounds: nat)
    requires Above(g, root, d) && SetOf(vlst) <= g.Vs()
    ensures Above(g, root, Sweeps(g, d, vlst, rounds))
    ensures Shrinks(d, Sweeps(g, d, vlst, rounds))
  {
    if rounds > 0 {
      SweepsKeepAbove(g, root, d, vlst, rounds - 1);
      SweepKeepsAbove(g, root, Sweeps(g, d, vlst, rounds - 1), vlst);
    }
  }

  /** One more round changes nothing exactly when the table is the truth. */
  lemma ExactIffQuiet(g: Graph, root: VexIdx, d: DomTable, vlst: seq<VexIdx>)
    requires Above(g, root, d) && SetOf(vlst) == g.Vs()
    ensures Exact(g, root, d) <==> Sweep(g, d, vlst) == d
  {
    SweepKeepsAbove(g, root, d, vlst);
    var d' := Sweep(g, d, vlst);
    if Exact(g, root, d) {
      forall v | v in g.Vs()
        ensures d[v] == d'[v]
      {
        assert AboveAt(g, root, d', v) && d'[v] <= d[v];
      }
      assert d.Keys == d'.Keys;
    }
    if d' == d {
      QuietSweepSolves(g, root, d, vlst);
      forall v | v in g.Vs()
        ensures SolvesAt(g, d, v)
      {
        assert v in vlst;
      }
      SolvesIffExact(g, root, d);
    }
  }
}
