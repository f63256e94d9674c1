/** When a given number of rounds of the set iteration gives the dominators: a condition on
    the graph and the vertex list, for every list. What a round has settled are the paths
    that the updates so far have followed in order. */
module DomRounds {
  import opened Graphs
  import opened Dominance
  import opened DomFixpoint

  /** The members of q occur in s, in this order. */
  predicate OccursIn(q: seq<VexIdx>, s: seq<VexIdx>) {
    q == [] ||
    (s != [] &&
     if q[|q| - 1] == s[|s| - 1] then OccursIn(q[..|q| - 1], s[..|s| - 1])
     else OccursIn(q, s[..|s| - 1]))
  }

  /** s written k times in a row. */
  function Repeated(s: seq<VexIdx>, k: nat): seq<VexIdx> {
    if k == 0 then [] else Repeated(s, k - 1) + s
  }

  /** A path from the root to v around x, whose later vertices occur in s in its order. */
  ghost predicate PathAround(g: Graph, root: VexIdx, x: VexIdx, v: VexIdx, s: seq<VexIdx>, p: seq<VexIdx>) {
    PathFromTo(g, root, v, p) && x !in p && OccursIn(p[1..], s)
  }

  ghost predicate Avoidable(g: Graph, root: VexIdx, x: VexIdx, v: VexIdx, s: seq<VexIdx>) {
    exists p :: PathAround(g, root, x, v, s, p)
  }

  /** Whenever x does not dominate v, some path that shows it can be read, in order, in the
      list written k times. */
  ghost predicate EnoughRounds(g: Graph, root: VexIdx, vlst: seq<VexIdx>, k: nat) {
    forall x, v :: x in g.Vs() && v in g.Vs() && !Dom(g, root, x, v) ==>
                     Avoidable(g, root, x, v, Repeated(vlst, k))
  }

  // ---- What a sequence of updates has found out ----

  lemma RootAvoids(g: Graph, root: VexIdx, x: VexIdx, s: seq<VexIdx>)
    requires root in g.Vs()
    ensures Avoidable(g, root, x, root, s) <==> x != root
  {
    if x != root {
      PathSingle(g, root);
      assert PathAround(g, root, x, root, s, [root]);
    }
  }

  /** Before any update no path leads beyond the root. */
  lemma NothingYet(g: Graph, root: VexIdx, x: VexIdx, v: VexIdx)
    requires v != root
    ensures !Avoidable(g, root, x, v, [])
  {
  }

  /** Updating w says nothing about other vertices. */
  lemma OtherVertex(g: Graph, root: VexIdx, x: VexIdx, v: VexIdx, s: seq<VexIdx>, w: VexIdx)
    requires v != w
    ensures Avoidable(g, root, x, v, s + [w]) <==> Avoidable(g, root, x, v, s)
  {
    assert (s + [w])[..|s|] == s;
    forall p
      ensures PathAround(g, root, x, v, s + [w], p) <==> PathAround(g, root, x, v, s, p)
    {
      if PathFromTo(g, root, v, p) && |p| > 1 {
        assert p[1..][|p| - 2] == v;
      }
    }
  }

  /** Updating w finds the paths that had reached one of its predecessors. */
  lemma UpdatedVertex(g: Graph, root: VexIdx, x: VexIdx, s: seq<VexIdx>, w: VexIdx)
    requires g.Valid() && w != root
    ensures Avoidable(g, root, x, w, s + [w]) <==>
              x != w && exists u :: g.Edge(u, w) && Avoidable(g, root, x, u, s)
  {
    if Avoidable(g, root, x, w, s + [w]) {
      var p :| PathAround(g, root, x, w, s + [w], p);
      LastHop(g, root, x, w, s, p);
    }
    if x != w && exists u :: g.Edge(u, w) && Avoidable(g, root, x, u, s) {
      var u :| g.Edge(u, w) && Avoidable(g, root, x, u, s);
      OneHopMore(g, root, x, u, s, w);
    }
  }

  lemma OneHopMore(g: Graph, root: VexIdx, x: VexIdx, u: VexIdx, s: seq<VexIdx>, w: VexIdx)
    requires g.Edge(u, w) && Avoidable(g, root, x, u, s) && x != w
    ensures Avoidable(g, root, x, w, s + [w])
  {
    assert (s + [w])[..|s|] == s;
    var q :| PathAround(g, root, x, u, s, q);
    PathSnoc(g, root, u, q, w);
    assert (q + [w])[1..] == q[1..] + [w];
    assert (q[1..] + [w])[..|q| - 1] == q[1..];
    assert PathAround(g, root, x, w, s + [w], q + [w]);
  }

  lemma LastHop(g: Graph, root: VexIdx, x: VexIdx, w: VexIdx, s: seq<VexIdx>, p: seq<VexIdx>)
    requires g.Valid() && w != root && PathAround(g, root, x, w, s + [w], p)
    ensures x != w && exists u :: g.Edge(u, w) && Avoidable(g, root, x, u, s)
  {
    assert (s + [w])[..|s|] == s;
    var q, u := p[..|p| - 1], p[|p| - 2];
    PathSlice(g, p, 0, |p| - 1);
    assert p[0..|p| - 1] == q;
    assert Hop(g, p, |p| - 2);
    assert p[1..][..|p| - 2] == q[1..];
    assert PathAround(g, root, x, u, s, q);
  }

  /** The table after the updates in s: x is still in the entry of v exactly if no path
      around x has been followed. */
  ghost predicate Followed(g: Graph, root: VexIdx, d: DomTable, s: seq<VexIdx>, v: VexIdx) {
    && v in d
    && d[v] <= g.Vs()
    && forall x :: x in g.Vs() ==> (x in d[v] <==> !Avoidable(g, root, x, v, s))
  }

  ghost predicate AllFollowed(g: Graph, root: VexIdx, d: DomTable, s: seq<VexIdx>) {
    forall v {:trigger Followed(g, root, d, s, v)} :: v in g.Vs() ==> Followed(g, root, d, s, v)
  }

  lemma InitFollowed(g: Graph, root: VexIdx)
    requires Rooted(g, root)
    ensures AllFollowed(g, root, InitTable(g), [])
  {
    forall v | v in g.Vs()
      ensures Followed(g, root, InitTable(g), [], v)
    {
      forall x | x in g.Vs()
        ensures x in InitTable(g)[v] <==> !Avoidable(g, root, x, v, [])
      {
        if v == root {
          RootAvoids(g, root, x, []);
        } else {
          NothingYet(g, root, x, v);
        }
      }
    }
  }

  lemma UpdateFollows(g: Graph, root: VexIdx, d: DomTable, s: seq<VexIdx>, w: VexIdx)
    requires Rooted(g, root) && d.Keys == g.Vs() && w in g.Vs() && AllFollowed(g, root, d, s)
    ensures AllFollowed(g, root, Update(g, d, w), s + [w])
  {
    var d' := Update(g, d, w);
    forall v | v in g.Vs()
      ensures Followed(g, root, d', s + [w], v)
    {
      assert Followed(g, root, d, s, v);
      if v != w {
        forall x: VexIdx
          ensures Avoidable(g, root, x, v, s + [w]) <==> Avoidable(g, root, x, v, s)
        {
          OtherVertex(g, root, x, v, s, w);
        }
      } else if w == root {
        forall x: VexIdx
          ensures Avoidable(g, root, x, v, s + [w]) <==> Avoidable(g, root, x, v, s)
        {
          RootAvoids(g, root, x, s);
          RootAvoids(g, root, x, s + [w]);
        }
      } else {
        MeetFollows(g, root, d, s, w);
      }
    }
  }

  lemma MeetFollows(g: Graph, root: VexIdx, d: DomTable, s: seq<VexIdx>, w: VexIdx)
    requires Rooted(g, root) && d.Keys == g.Vs() && w in g.Vs() && w != root && AllFollowed(g, root, d, s)
    ensures Followed(g, root, Update(g, d, w), s + [w], w)
  {
    forall u | u in g.ins[w]
      ensures Followed(g, root, d, s, u)
    {
      assert g.Edge(u, w);
    }
    forall x | x in g.Vs()
      ensures x in Meet(g, d, w) + {w} <==> !Avoidable(g, root, x, w, s + [w])
    {
      UpdatedVertex(g, root, x, s, w);
      assert forall u :: g.Edge(u, w) <==> u in g.ins[w];
      assert forall u :: u in g.ins[w] ==> (x in d[u] <==> !Avoidable(g, root, x, u, s));
    }
    assert Followed(g, root, d, s, g.ins[w][0]);
  }

  lemma {:induction false} SweepFollows(g: Graph, root: VexIdx, s: seq<VexIdx>)
    requires Rooted(g, root) && SetOf(s) <= g.Vs()
    ensures AllFollowed(g, root, Sweep(g, InitTable(g), s), s)
  {
    if s == [] {
      InitFollowed(g, root);
    } else {
      var front, w := s[..|s| - 1], s[|s| - 1];
      assert w in SetOf(s) && SetOf(front) <= SetOf(s);
      SweepFollows(g, root, front);
      UpdateFollows(g, root, Sweep(g, InitTable(g), front), front, w);
      assert front + [w] == s;
    }
  }

  // ---- Rounds ----

  lemma SweepSnoc(g: Graph, d: DomTable, s: seq<VexIdx>, w: VexIdx)
    requires g.Valid() && d.Keys == g.Vs() && SetOf(s) <= g.Vs() && w in g.Vs()
    ensures SetOf(s + [w]) <= g.Vs() && Sweep(g, d, s + [w]) == Update(g, Sweep(g, d, s), w)
  {
    assert (s + [w])[..|s|] == s;
  }

  lemma LastApart(s: seq<VexIdx>, t: seq<VexIdx>)
    requires t != []
    ensures s + t == s + t[..|t| - 1] + [t[|t| - 1]]
  {
  }

  lemma {:induction false} SweepTwice(g: Graph, d: DomTable, s: seq<VexIdx>, t: seq<VexIdx>)
    requires g.Valid() && d.Keys == g.Vs() && SetOf(s) <= g.Vs() && SetOf(t) <= g.Vs()
    ensures SetOf(s + t) <= g.Vs()
    ensures Sweep(g, d, s + t) == Sweep(g, Sweep(g, d, s), t)
  {
    if t == [] {
      assert s + t == s;
    } else {
      var front, w := t[..|t| - 1], t[|t| - 1];
      assert w in SetOf(t) && SetOf(front) <= SetOf(t);
      SweepTwice(g, d, s, front);
      SweepSnoc(g, d, s + front, w);
      LastApart(s, t);
    }
  }

  lemma {:induction false} SweepsIsOneSweep(g: Graph, d: DomTable, vlst: seq<VexIdx>, k: nat)
    requires g.Valid() && d.Keys == g.Vs() && SetOf(vlst) <= g.Vs()
    ensures SetOf(Repeated(vlst, k)) <= g.Vs()
    ensures Sweeps(g, d, vlst, k) == Sweep(g, d, Repeated(vlst, k))
  {
    if k > 0 {
      SweepsIsOneSweep(g, d, vlst, k - 1);
      SweepTwice(g, d, Repeated(vlst, k - 1), vlst);
    }
  }

  /** k rounds give the dominators exactly if the list written k times spells a path around
      every vertex that is no dominator. */
  lemma RoundsExactIff(g: Graph, root: VexIdx, vlst: seq<VexIdx>, k: nat)
    requires Rooted(g, root) && SetOf(vlst) <= g.Vs()
    ensures Exact(g, root, Sweeps(g, InitTable(g), vlst, k)) <==> EnoughRounds(g, root, vlst, k)
  {
    var s := Repeated(vlst, k);
    SweepsIsOneSweep(g, InitTable(g), vlst, k);
    SweepFollows(g, root, s);
    var d := Sweep(g, InitTable(g), s);
    forall x, v | x in g.Vs() && v in g.Vs()
      ensures Followed(g, root, d, s, v)
      ensures Avoidable(g, root, x, v, s) ==> !Dom(g, root, x, v)
    {
      assert Followed(g, root, d, s, v);
    }
    if EnoughRounds(g, root, vlst, k) {
      forall v | v in g.Vs()
        ensures d[v] == DomSet(g, root, v)
      {
        assert Followed(g, root, d, s, v);
      }
    }
    if Exact(g, root, d) {
      forall x, v | x in g.Vs() && v in g.Vs() && !Dom(g, root, x, v)
        ensures Avoidable(g, root, x, v, s)
      {
        assert Followed(g, root, d, s, v);
        assert x !in DomSet(g, root, v);
      }
    }
  }

  /** The table that k > 0 rounds leave, and whether the last of them changed it. */
  ghost predicate LastRounds(g: Graph, d0: DomTable, vlst: seq<VexIdx>, k: nat, change: bool, d: DomTable)
    requires g.Valid() && d0.Keys == g.Vs() && SetOf(vlst) <= g.Vs()
  {
    && k > 0
    && d == Sweeps(g, d0, vlst, k)
    && (change <==> d != Sweeps(g, d0, vlst, k - 1))
  }

  /** After count rounds; the flag is set until the first quiet one. */
  ghost predicate RoundsSoFar(g: Graph, d0: DomTable, vlst: seq<VexIdx>, count: nat, change: bool, d: DomTable) {
    && g.Valid() && d0.Keys == g.Vs() && SetOf(vlst) <= g.Vs()
    && d == Sweeps(g, d0, vlst, count)
    && if count == 0 then change else LastRounds(g, d0, vlst, count, change, d)
  }

  lemma OneMoreRound(g: Graph, d0: DomTable, vlst: seq<VexIdx>, k: nat, before: DomTable, change: bool, d: DomTable)
    requires RoundsSoFar(g, d0, vlst, k, true, before)
    requires d == Sweep(g, before, vlst) && (change <==> d != before)
    ensures RoundsSoFar(g, d0, vlst, k + 1, change, d)
  {
  }

  /** Once a round is quiet, all later ones are. */
  lemma {:induction false} QuietEnd(g: Graph, d0: DomTable, vlst: seq<VexIdx>, k: nat, d: DomTable, m: nat)
    requires g.Valid() && d0.Keys == g.Vs() && SetOf(vlst) <= g.Vs() && k <= m
    requires LastRounds(g, d0, vlst, k, false, d)
    ensures LastRounds(g, d0, vlst, m, false, d)
  {
    if k < m {
      QuietEnd(g, d0, vlst, k, d, m - 1);
      QuietOnce(g, d0, vlst, m - 1, d);
    }
  }

  lemma QuietOnce(g: Graph, d0: DomTable, vlst: seq<VexIdx>, k: nat, d: DomTable)
    requires g.Valid() && d0.Keys == g.Vs() && SetOf(vlst) <= g.Vs() && LastRounds(g, d0, vlst, k, false, d)
    ensures LastRounds(g, d0, vlst, k + 1, false, d)
  {
    assert Sweeps(g, d0, vlst, k) == Sweep(g, d, vlst);
    assert Sweeps(g, d0, vlst, k + 1) == Sweep(g, d, vlst);
  }

  lemma SweptAbove(g: Graph, root: VexIdx, vlst: seq<VexIdx>, k: nat, d: DomTable)
    requires Rooted(g, root) && SetOf(vlst) <= g.Vs() && d == Sweeps(g, InitTable(g), vlst, k)
    ensures Above(g, root, d)
  {
    InitAbove(g, root);
    SweepsKeepAbove(g, root, InitTable(g), vlst, k);
  }

  /** A round after k others changes nothing exactly if these were enough. */
  lemma QuietIffEnough(g: Graph, root: VexIdx, vlst: seq<VexIdx>, k: nat, before: DomTable, change: bool, d: DomTable)
    requires Rooted(g, root) && SetOf(vlst) == g.Vs() && before == Sweeps(g, InitTable(g), vlst, k)
    requires d == Sweep(g, before, vlst) && (change <==> d != before)
    ensures !change <==> EnoughRounds(g, root, vlst, k)
    ensures !change ==> Exact(g, root, d)
  {
    SweptAbove(g, root, vlst, k, before);
    ExactIffQuiet(g, root, before, vlst);
    RoundsExactIff(g, root, vlst, k);
  }

  lemma LastRoundTells(g: Graph, root: VexIdx, vlst: seq<VexIdx>, k: nat, change: bool, d: DomTable)
    requires Rooted(g, root) && SetOf(vlst) == g.Vs()
    requires LastRounds(g, InitTable(g), vlst, k + 1, change, d)
    ensures !change <==> EnoughRounds(g, root, vlst, k)
    ensures !change ==> Exact(g, root, d)
  {
    QuietIffEnough(g, root, vlst, k, Sweeps(g, InitTable(g), vlst, k), change, d);
  }

  lemma LastTableTells(g: Graph, root: VexIdx, vlst: seq<VexIdx>, k: nat, change: bool, d: DomTable)
    requires Rooted(g, root) && SetOf(vlst) == g.Vs()
    requires LastRounds(g, InitTable(g), vlst, k, change, d)
    ensures Exact(g, root, d) <==> EnoughRounds(g, root, vlst, k)
  {
    RoundsExactIff(g, root, vlst, k);
  }

  /** What the result of k rounds and the flag of the last of them say. */
  lemma RoundsDecide(g: Graph, root: VexIdx, vlst: seq<VexIdx>, k: nat, change: bool, d: DomTable)
    requires Rooted(g, root) && SetOf(vlst) == g.Vs() && k > 0
    requires LastRounds(g, InitTable(g), vlst, k, change, d)
    ensures Exact(g, root, d) <==> EnoughRounds(g, root, vlst, k)
    ensures !change <==> EnoughRounds(g, root, vlst, k - 1)
    ensures !change ==> Exact(g, root, d)
  {
    LastTableTells(g, root, vlst, k, change, d);
    LastRoundTells(g, root, vlst, k - 1, change, d);
  }

  // ---- The rounds that one path takes ----

  predicate StandsBefore(vlst: seq<VexIdx>, u: VexIdx, v: VexIdx) {
    exists i, j :: 0 <= i < j < |vlst| && vlst[i] == u && vlst[j] == v
  }

  /** One round to begin with, and one more for every step that goes back in the list. */
  function RoundsFor(vlst: seq<VexIdx>, q: seq<VexIdx>): (r: nat)
    ensures r == 0 <==> q == []
  {
    if q == [] then 0
    else if |q| == 1 then 1
    else RoundsFor(vlst, q[..|q| - 1]) + if StandsBefore(vlst, q[|q| - 2], q[|q| - 1]) then 0 else 1
  }

  /** On a list without repetition, k copies spell a path exactly if it steps back fewer than
      k times. */
  lemma OccursIffRounds(vlst: seq<VexIdx>, q: seq<VexIdx>, k: nat)
    requires NoDup(vlst) && forall v :: v in q ==> v in vlst
    ensures OccursIn(q, Repeated(vlst, k)) <==> RoundsFor(vlst, q) <= k
  {
    PartOfRound(vlst, q, k, 0);
    assert Repeated(vlst, k) + vlst[..0] == Repeated(vlst, k);
  }

  lemma {:induction false} PartOfRound(vlst: seq<VexIdx>, q: seq<VexIdx>, k: nat, i: nat)
    requires NoDup(vlst) && (forall v :: v in q ==> v in vlst) && i <= |vlst|
    ensures OccursIn(q, Repeated(vlst, k) + vlst[..i]) <==>
              || RoundsFor(vlst, q) <= k
              || (RoundsFor(vlst, q) == k + 1 && q[|q| - 1] in vlst[..i])
    decreases k, i
  {
    var s := Repeated(vlst, k) + vlst[..i];
    if i == 0 {
      if k == 0 {
        assert s == [];
      } else {
        PartOfRound(vlst, q, k - 1, |vlst|);
        assert vlst[..|vlst|] == vlst && Repeated(vlst, k - 1) + vlst == s;
      }
    } else if q != [] {
      var w, last := vlst[i - 1], q[|q| - 1];
      assert vlst[..i] == vlst[..i - 1] + [w];
      assert s[..|s| - 1] == Repeated(vlst, k) + vlst[..i - 1];
      if last == w {
        var front := q[..|q| - 1];
        PartOfRound(vlst, front, k, i - 1);
        if front != [] {
          assert StandsBefore(vlst, front[|front| - 1], w) <==> front[|front| - 1] in vlst[..i - 1];
        }
      } else {
        PartOfRound(vlst, q, k, i - 1);
      }
    }
  }

  /** In an order that no edge goes back in, one round is enough. */
  lemma TopologicalListIsEnough(g: Graph, root: VexIdx, vlst: seq<VexIdx>, k: nat)
    requires Rooted(g, root) && NoDup(vlst) && SetOf(vlst) == g.Vs() && k > 0
    requires forall u, v :: u != root && g.Edge(u, v) ==> StandsBefore(vlst, u, v)
    ensures EnoughRounds(g, root, vlst, k)
  {
    forall x, v | x in g.Vs() && v in g.Vs() && !Dom(g, root, x, v)
      ensures Avoidable(g, root, x, v, Repeated(vlst, k))
    {
      var p :| PathFromTo(g, root, v, p) && x !in p;
      ForwardPath(g, root, vlst, p, |p|);
      assert p[1..|p|] == p[1..];
      OccursIffRounds(vlst, p[1..], k);
      assert PathAround(g, root, x, v, Repeated(vlst, k), p);
    }
  }

  lemma {:induction false} ForwardPath(g: Graph, root: VexIdx, vlst: seq<VexIdx>, p: seq<VexIdx>, i: nat)
    requires Rooted(g, root) && SetOf(vlst) == g.Vs() && IsPath(g, p) && 1 <= i <= |p|
    requires forall u, v :: u != root && g.Edge(u, v) ==> StandsBefore(vlst, u, v)
    ensures RoundsFor(vlst, p[1..i]) <= 1
    ensures forall v :: v in p[1..i] ==> v in vlst
  {
    if i > 1 {
      ForwardPath(g, root, vlst, p, i - 1);
      assert p[1..i] == p[1..i - 1] + [p[i - 1]];
      assert Hop(g, p, i - 2);
      PathVertices(g, p, i - 1);
      if i > 2 {
        assert Hop(g, p, i - 3) && p[i - 3] in g.ins[p[i - 2]];
      }
    }
  }

  // ---- How many rounds are always enough ----

  /** A path without detours over some of the vertices of p. */
  lemma {:induction false} Shortened(g: Graph, u: VexIdx, v: VexIdx, p: seq<VexIdx>) returns (q: seq<VexIdx>)
    requires g.Valid() && PathFromTo(g, u, v, p)
    ensures PathFromTo(g, u, v, q) && NoDup(q) && forall x :: x in q ==> x in p
    decreases |p|
  {
    if NoDup(p) {
      q := p;
    } else {
      var i, j :| 0 <= i < j < |p| && p[i] == p[j];
      PathSlice(g, p, 0, i + 1);
      PathSlice(g, p, j, |p|);
      PathAppend(g, u, p[i], v, p[0..i + 1], p[j..|p|]);
      q := Shortened(g, u, v, p[0..i + 1] + p[j..|p|][1..]);
    }
  }

  /** What occurs still occurs in a longer list. */
  lemma {:induction false} OccursLonger(q: seq<VexIdx>, s: seq<VexIdx>, w: VexIdx)
    requires OccursIn(q, s)
    ensures OccursIn(q, s + [w])
    decreases |s|, 1
  {
    assert (s + [w])[..|s|] == s;
    if q != [] && q[|q| - 1] == w {
      OccursFront(q, s);
    }
  }

  lemma {:induction false} OccursFront(q: seq<VexIdx>, s: seq<VexIdx>)
    requires OccursIn(q, s) && q != []
    ensures OccursIn(q[..|q| - 1], s)
    decreases |s|, 0
  {
    var front, w := s[..|s| - 1], s[|s| - 1];
    assert s == front + [w];
    if q[|q| - 1] != w {
      OccursFront(q, front);
    }
    OccursLonger(q[..|q| - 1], front, w);
  }

  lemma {:induction false} OccursBefore(q: seq<VexIdx>, s: seq<VexIdx>, t: seq<VexIdx>)
    requires OccursIn(q, s)
    ensures OccursIn(q, s + t)
  {
    if t == [] {
      assert s + t == s;
    } else {
      OccursBefore(q, s, t[..|t| - 1]);
      OccursLonger(q, s + t[..|t| - 1], t[|t| - 1]);
      LastApart(s, t);
    }
  }

  /** Every copy of the list spells at least one more vertex. */
  lemma {:induction false} OneRoundEach(vlst: seq<VexIdx>, q: seq<VexIdx>, k: nat)
    requires |q| <= k && forall v :: v in q ==> v in vlst
    ensures OccursIn(q, Repeated(vlst, k))
  {
    if q != [] {
      var front, s := q[..|q| - 1], Repeated(vlst, k - 1);
      OneRoundEach(vlst, front, k - 1);
      assert q[|q| - 1] in q;
      var i :| 0 <= i < |vlst| && vlst[i] == q[|q| - 1];
      OccursBefore(front, s, vlst[..i]);
      assert (s + vlst[..i] + [vlst[i]])[..|s| + i] == s + vlst[..i];
      OccursBefore(q, s + vlst[..i] + [vlst[i]], vlst[i + 1..]);
      assert s + vlst[..i] + [vlst[i]] + vlst[i + 1..] == s + vlst;
    }
  }

  /** k rounds are enough for every graph of at most k + 2 vertices, whatever the order of the list. */
  lemma SmallGraphsAreDone(g: Graph, root: VexIdx, vlst: seq<VexIdx>, k: nat)
    requires Rooted(g, root) && SetOf(vlst) == g.Vs() && |g.vertices| <= k + 2
    ensures EnoughRounds(g, root, vlst, k)
  {
    forall x, v | x in g.Vs() && v in g.Vs() && !Dom(g, root, x, v)
      ensures Avoidable(g, root, x, v, Repeated(vlst, k))
    {
      var p :| PathFromTo(g, root, v, p) && x !in p;
      var q := Shortened(g, root, v, p);
      ShortPath(g, q, x);
      forall y | y in q[1..]
        ensures y in vlst
      {
        var i :| 0 <= i < |q| && q[i] == y;
        PathVertices(g, q, i);
      }
      OneRoundEach(vlst, q[1..], k);
      assert PathAround(g, root, x, v, Repeated(vlst, k), q);
    }
  }

  /** A path without repetition around x leaves out at least one vertex. */
  lemma ShortPath(g: Graph, q: seq<VexIdx>, x: VexIdx)
    requires g.Valid() && IsPath(g, q) && NoDup(q) && x in g.Vs() && x !in q
    ensures |q| < |g.vertices|
  {
    forall y | y in q + [x]
      ensures y in g.Vs()
    {
      if y in q {
        var i :| 0 <= i < |q| && q[i] == y;
        PathVertices(g, q, i);
      }
    }
    NoDupBounded(g, q + [x]);
  }
}
