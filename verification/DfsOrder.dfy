/** Depth-first search as a recursion, and what is left to be done of it when a stack has taken over. */
module DfsOrder {
  import opened Graphs

  /** The vertices visited, those left during the visit, the last one first, and those entered in their order. */
  datatype Walk = Walk(seen: set<VexIdx>, list: seq<VexIdx>, pre: seq<VexIdx>)

  ghost predicate InGraph(g: Graph, us: seq<VexIdx>) {
    forall u :: u in us ==> u in g.Vs()
  }

  lemma OutsInGraph(g: Graph, v: VexIdx)
    requires g.Valid() && v in g.Vs()
    ensures InGraph(g, g.outs[v])
  {
    forall u | u in g.outs[v]
      ensures u in g.Vs()
    {
      assert g.Edge(v, u);
    }
  }

  lemma FewerUnseen(g: Graph, seen: set<VexIdx>, seen': set<VexIdx>, u: VexIdx)
    requires seen <= seen'
    ensures |g.Vs() - seen'| <= |g.Vs() - seen|
    ensures u in seen' && u !in seen && u in g.Vs() ==> |g.Vs() - seen'| < |g.Vs() - seen|
  {
    SubsetCard(g.Vs() - seen', g.Vs() - seen);
  }

  /** Visits the vertices of us one after the other, and before the next one everything that can be reached
      from it and has not been seen. */
  ghost function Visit(g: Graph, seen: set<VexIdx>, us: seq<VexIdx>): (w: Walk)
    requires g.Valid() && InGraph(g, us)
    ensures seen <= w.seen
    decreases |g.Vs() - seen|, |us|
  {
    if us == [] then Walk(seen, [], [])
    else if us[0] in seen then Visit(g, seen, us[1..])
    else
      OutsInGraph(g, us[0]);
      FewerUnseen(g, seen, seen + {us[0]}, us[0]);
      var sub := Visit(g, seen + {us[0]}, g.outs[us[0]]);
      FewerUnseen(g, seen, sub.seen, us[0]);
      var rest := Visit(g, sub.seen, us[1..]);
      Walk(rest.seen, rest.list + [us[0]] + sub.list, [us[0]] + sub.pre + rest.pre)
  }

  /** The list that depth-first search from root leaves. */
  ghost function DfsList(g: Graph, root: VexIdx): seq<VexIdx>
    requires g.Valid() && root in g.Vs()
  {
    Visit(g, {}, [root]).list
  }

  lemma {:induction false} SkipsSeen(g: Graph, seen: set<VexIdx>, pre: seq<VexIdx>, us: seq<VexIdx>)
    requires g.Valid() && InGraph(g, pre) && InGraph(g, us) && forall u :: u in pre ==> u in seen
    ensures Visit(g, seen, pre + us) == Visit(g, seen, us)
  {
    if pre == [] {
      assert pre + us == us;
    } else {
      SkipsSeen(g, seen, pre[1..], us);
      assert (pre + us)[1..] == pre[1..] + us;
    }
  }

  /** The search still has the vertices of stk to visit, the top first, and leaves the list in the end. */
  ghost predicate EndsWith(g: Graph, seen: set<VexIdx>, stk: seq<VexIdx>, vlst: seq<VexIdx>, list: seq<VexIdx>)
    decreases |stk|
  {
    if stk == [] then vlst == list
    else
      var v := stk[|stk| - 1];
      && g.Valid() && v in g.Vs() && InGraph(g, g.outs[v])
      && var w := Visit(g, seen + {v}, g.outs[v]);
      EndsWith(g, w.seen, stk[..|stk| - 1], [v] + w.list + vlst, list)
  }

  lemma SearchStarts(g: Graph, root: VexIdx)
    requires g.Valid() && root in g.Vs()
    ensures EndsWith(g, {}, [root], [], DfsList(g, root))
  {
    OutsInGraph(g, root);
    var sub := Visit(g, {} + {root}, g.outs[root]);
    assert Visit(g, sub.seen, [root][1..]) == Walk(sub.seen, [], []);
    assert DfsList(g, root) == [root] + sub.list + [];
    assert [root][..0] == [];
    assert EndsWith(g, sub.seen, [], [root] + sub.list + [], DfsList(g, root));
  }

  /** The top may be marked as seen at any time. */
  lemma TopSeen(g: Graph, seen: set<VexIdx>, stk: seq<VexIdx>, vlst: seq<VexIdx>, list: seq<VexIdx>, v: VexIdx)
    requires EndsWith(g, seen, stk, vlst, list) && stk != [] && v == stk[|stk| - 1]
    ensures EndsWith(g, seen + {v}, stk, vlst, list)
  {
    assert seen + {v} + {v} == seen + {v};
  }

  /** A vertex whose successors have all been seen is left. */
  lemma TopLeft(g: Graph, seen: set<VexIdx>, stk: seq<VexIdx>, vlst: seq<VexIdx>, list: seq<VexIdx>, v: VexIdx)
    requires EndsWith(g, seen, stk, vlst, list) && stk != [] && v == stk[|stk| - 1] && v in seen
    requires forall u :: g.Edge(v, u) ==> u in seen
    ensures EndsWith(g, seen, stk[..|stk| - 1], [v] + vlst, list)
  {
    forall u | u in g.outs[v]
      ensures u in seen
    {
      assert g.Edge(v, u);
    }
    SkipsSeen(g, seen, g.outs[v], []);
    assert g.outs[v] + [] == g.outs[v];
    assert seen + {v} == seen;
    assert [v] + [] + vlst == [v] + vlst;
  }

  /** The first successor that has not been seen is visited next. */
  lemma NextPushed(g: Graph, seen: set<VexIdx>, stk: seq<VexIdx>, vlst: seq<VexIdx>, list: seq<VexIdx>, v: VexIdx,
                   i: nat)
    requires EndsWith(g, seen, stk, vlst, list) && stk != [] && v == stk[|stk| - 1] && v in seen
    requires v in g.outs && i < |g.outs[v]| && g.outs[v][i] !in seen
    requires forall k :: 0 <= k < i ==> g.outs[v][k] in seen
    ensures EndsWith(g, seen, stk + [g.outs[v][i]], vlst, list)
  {
    var s := g.outs[v][i];
    var sub, after := AfterNext(g, seen, v, i);
    assert (stk + [s])[..|stk|] == stk;
    assert [v] + (after.list + [s] + sub.list) + vlst == [v] + after.list + ([s] + sub.list + vlst);
    assert EndsWith(g, sub.seen, stk, [s] + sub.list + vlst, list);
  }

  /** Visiting the first successor not seen and then all of them is visiting all of them. */
  lemma AfterNext(g: Graph, seen: set<VexIdx>, v: VexIdx, i: nat) returns (sub: Walk, after: Walk)
    requires g.Valid() && v in g.Vs() && InGraph(g, g.outs[v]) && v in seen
    requires i < |g.outs[v]| && g.outs[v][i] !in seen && forall k :: 0 <= k < i ==> g.outs[v][k] in seen
    ensures var s := g.outs[v][i];
      && s in g.Vs() && InGraph(g, g.outs[s]) && sub == Visit(g, seen + {s}, g.outs[s])
      && after == Visit(g, sub.seen + {v}, g.outs[v])
      && Visit(g, seen + {v}, g.outs[v])
         == Walk(after.seen, after.list + [s] + sub.list, [s] + sub.pre + after.pre)
  {
    var us, s := g.outs[v], g.outs[v][i];
    assert s in g.outs[v];
    OutsInGraph(g, s);
    sub := Visit(g, seen + {s}, g.outs[s]);
    VisitFrom(g, seen, us, i);
    VisitAgain(g, sub.seen, us, i + 1);
    assert seen + {v} == seen && sub.seen + {v} == sub.seen;
    after := Visit(g, sub.seen, us);
  }

  lemma VisitFrom(g: Graph, seen: set<VexIdx>, us: seq<VexIdx>, i: nat)
    requires g.Valid() && InGraph(g, us) && i < |us| && us[i] !in seen && us[i] in g.Vs()
    requires forall k :: 0 <= k < i ==> us[k] in seen
    ensures InGraph(g, g.outs[us[i]]) && InGraph(g, us[i + 1..])
    ensures var sub := Visit(g, seen + {us[i]}, g.outs[us[i]]);
      var rest := Visit(g, sub.seen, us[i + 1..]);
      Visit(g, seen, us) == Walk(rest.seen, rest.list + [us[i]] + sub.list, [us[i]] + sub.pre + rest.pre)
  {
    OutsInGraph(g, us[i]);
    VisitAgain(g, seen, us, i);
    assert us[i..][0] == us[i] && us[i..][1..] == us[i + 1..];
  }

  lemma VisitAgain(g: Graph, seen: set<VexIdx>, us: seq<VexIdx>, i: nat)
    requires g.Valid() && InGraph(g, us) && i <= |us| && forall k :: 0 <= k < i ==> us[k] in seen
    ensures InGraph(g, us[i..]) && Visit(g, seen, us) == Visit(g, seen, us[i..])
  {
    SkipsSeen(g, seen, us[..i], us[i..]);
    assert us[..i] + us[i..] == us;
  }

  // ---- The order of entering, over all vertices ----

  /** The order in which depth-first search from all vertices enters them. */
  ghost function Preorder(g: Graph): seq<VexIdx>
    requires g.Valid()
  {
    Visit(g, {}, g.vertices).pre
  }

  /** The search has entered the given vertices, still has those of stk to visit, the top first, and then those
      of rest; in the end it will have entered all of list. */
  ghost predicate Enters(g: Graph, seen: set<VexIdx>, stk: seq<VexIdx>, rest: seq<VexIdx>, entered: seq<VexIdx>,
                         list: seq<VexIdx>)
    decreases |stk|
  {
    if stk == [] then
      g.Valid() && InGraph(g, rest) && entered + Visit(g, seen, rest).pre == list
    else
      var v := stk[|stk| - 1];
      && g.Valid() && v in g.Vs() && InGraph(g, g.outs[v])
      && var w := Visit(g, seen + {v}, g.outs[v]);
      Enters(g, w.seen, stk[..|stk| - 1], rest, entered + (if v in seen then [] else [v]) + w.pre, list)
  }

  lemma EnteringStarts(g: Graph)
    requires g.Valid()
    ensures Enters(g, {}, [], g.vertices, [], Preorder(g))
  {
  }

  /** The next root, if it has been entered already or not. */
  lemma RootSkipped(g: Graph, seen: set<VexIdx>, rest: seq<VexIdx>, entered: seq<VexIdx>, list: seq<VexIdx>)
    requires Enters(g, seen, [], rest, entered, list) && rest != [] && rest[0] in seen
    ensures Enters(g, seen, [], rest[1..], entered, list)
  {
  }

  lemma RootPushed(g: Graph, seen: set<VexIdx>, rest: seq<VexIdx>, entered: seq<VexIdx>, list: seq<VexIdx>)
    requires Enters(g, seen, [], rest, entered, list) && rest != [] && rest[0] !in seen
    ensures Enters(g, seen, [rest[0]], rest[1..], entered, list)
  {
    var v := rest[0];
    OutsInGraph(g, v);
    var sub := Visit(g, seen + {v}, g.outs[v]);
    var after := Visit(g, sub.seen, rest[1..]);
    assert entered + [v] + sub.pre + after.pre == entered + ([v] + sub.pre + after.pre);
    assert [v][..0] == [];
    assert Enters(g, sub.seen, [], rest[1..], entered + [v] + sub.pre, list);
  }

  /** The top is entered. */
  lemma TopEnters(g: Graph, seen: set<VexIdx>, stk: seq<VexIdx>, rest: seq<VexIdx>, entered: seq<VexIdx>,
                  list: seq<VexIdx>, v: VexIdx)
    requires Enters(g, seen, stk, rest, entered, list) && stk != [] && v == stk[|stk| - 1] && v !in seen
    ensures Enters(g, seen + {v}, stk, rest, entered + [v], list)
  {
    assert seen + {v} + {v} == seen + {v};
    assert entered + [v] + [] == entered + [v];
  }

  /** The top is left, when all its successors have been entered. */
  lemma TopLeaves(g: Graph, seen: set<VexIdx>, stk: seq<VexIdx>, rest: seq<VexIdx>, entered: seq<VexIdx>,
                  list: seq<VexIdx>, v: VexIdx)
    requires Enters(g, seen, stk, rest, entered, list) && stk != [] && v == stk[|stk| - 1] && v in seen
    requires forall u :: g.Edge(v, u) ==> u in seen
    ensures Enters(g, seen, stk[..|stk| - 1], rest, entered, list)
  {
    forall u | u in g.outs[v]
      ensures u in seen
    {
      assert g.Edge(v, u);
    }
    SkipsSeen(g, seen, g.outs[v], []);
    assert g.outs[v] + [] == g.outs[v];
    assert seen + {v} == seen;
    assert entered + [] + [] == entered;
  }

  /** The first successor not entered is pushed. */
  lemma NextEnters(g: Graph, seen: set<VexIdx>, stk: seq<VexIdx>, rest: seq<VexIdx>, entered: seq<VexIdx>,
                   list: seq<VexIdx>, v: VexIdx, i: nat)
    requires Enters(g, seen, stk, rest, entered, list) && stk != [] && v == stk[|stk| - 1] && v in seen
    requires v in g.outs && i < |g.outs[v]| && g.outs[v][i] !in seen
    requires forall k :: 0 <= k < i ==> g.outs[v][k] in seen
    ensures Enters(g, seen, stk + [g.outs[v][i]], rest, entered, list)
  {
    var s := g.outs[v][i];
    var sub, after := AfterNext(g, seen, v, i);
    assert (stk + [s])[..|stk|] == stk;
    assert entered + [] + ([s] + sub.pre + after.pre) == entered + [s] + sub.pre + [] + after.pre;
    assert Enters(g, sub.seen, stk, rest, entered + [s] + sub.pre, list);
  }
}
