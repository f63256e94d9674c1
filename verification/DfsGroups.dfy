/** What the groups of a depth-first scan are, in terms of two numberings of the vertices: num counts them
    as they are entered, and last is the next number to be given when they are left. */
module DfsGroups {
  import opened Arithmetic
  import opened Graphs

  type Numbering = map<VexIdx, nat>

  /** The vertices entered between entering and leaving a vertex are left before it is. */
  ghost predicate Nested(num: Numbering, last: Numbering, a: VexIdx, b: VexIdx) {
    && a in num && b in num
    && (num[a] < num[b] && a in last ==> last[a] <= num[b] || (b in last && last[b] <= last[a]))
  }

  /** If v leads to any vertex with a larger number, it leads to the next one. */
  ghost predicate LeadsOn(g: Graph, num: Numbering, v: VexIdx)
    requires v in num
  {
    || (exists t :: g.Edge(v, t) && t in num && num[t] == num[v] + 1)
    || (forall t :: g.Edge(v, t) && t in num ==> num[t] <= num[v])
  }

  /** num and last are the numbers of a depth-first scan of all vertices. */
  ghost predicate DfsNumbers(g: Graph, num: Numbering, last: Numbering) {
    && g.Valid() && num.Keys == g.Vs() && last.Keys == g.Vs()
    && (forall u, v :: u in num && v in num && num[u] == num[v] ==> u == v)
    && (forall v :: v in num && v in last ==> num[v] < last[v])
    && (forall u, v :: g.Edge(u, v) && u in last && v in num ==> num[v] < last[u])
    && (forall a, b {:trigger Nested(num, last, a, b)} :: a in num && b in num ==> Nested(num, last, a, b))
    && (forall v {:trigger LeadsOn(g, num, v)} :: v in num ==> LeadsOn(g, num, v))
  }

  /** t had been left when v was. */
  predicate LeftBefore(num: Numbering, last: Numbering, v: VexIdx, t: VexIdx)
    requires v in num && t in num
  {
    t in last && (num[v] < num[t] || last[t] <= num[v])
  }

  /** The group of t when v was left: its number, until it was left itself. */
  function Seen(num: Numbering, last: Numbering, grp: Numbering, v: VexIdx, t: VexIdx): nat
    requires v in num && t in num && t in grp
  {
    if LeftBefore(num, last, v, t) then grp[t] else num[t]
  }

  /** t follows v on a cycle. */
  ghost predicate NextOnCycle(g: Graph, v: VexIdx, t: VexIdx) {
    g.Edge(v, t) && Reaches(g, t, v)
  }

  /** The group of a vertex on a cycle is the least one seen among its successors on cycles with it. */
  ghost predicate GroupIs(g: Graph, num: Numbering, last: Numbering, grp: Numbering, v: VexIdx) {
    && v in num && v in grp && grp[v] <= num[v]
    && (forall t :: NextOnCycle(g, v, t) ==> t in num && t in grp && grp[v] <= Seen(num, last, grp, v, t))
    && (if OnCycle(g, v) then
          exists t :: NextOnCycle(g, v, t) && t in num && t in grp && grp[v] == Seen(num, last, grp, v, t)
        else grp[v] == num[v])
  }

  /** The groups of a depth-first scan of g. */
  ghost predicate Grouped(g: Graph, num: Numbering, last: Numbering, grp: Numbering) {
    && DfsNumbers(g, num, last) && grp.Keys == g.Vs()
    && (forall v {:trigger GroupIs(g, num, last, grp, v)} :: v in g.Vs() ==> GroupIs(g, num, last, grp, v))
  }

  lemma GroupFound(g: Graph, num: Numbering, last: Numbering, grp: Numbering, v: VexIdx, c: VexIdx)
    requires v in num && v in grp && grp[v] <= num[v]
    requires forall t :: NextOnCycle(g, v, t) ==>
                           t in num && t in grp && grp[v] <= Seen(num, last, grp, v, t)
    requires if OnCycle(g, v) then NextOnCycle(g, v, c) && grp[v] == Seen(num, last, grp, v, c)
             else grp[v] == num[v]
    ensures GroupIs(g, num, last, grp, v)
  {
  }

  /** Every group is headed by the vertex it names, to which one of its members leads back. */
  lemma {:induction false} BackEdge(g: Graph, num: Numbering, last: Numbering, grp: Numbering, v: VexIdx)
    returns (y: VexIdx, h: VexIdx)
    requires Grouped(g, num, last, grp) && v in g.Vs() && OnCycle(g, v)
    ensures y in g.Vs() && grp[y] == grp[v] && Reaches(g, v, y) && Reaches(g, y, v)
    ensures h in g.Vs() && num[h] == grp[v] && g.Edge(y, h) && num[h] <= num[y]
    ensures Reaches(g, v, h) && Reaches(g, h, v)
    decreases last[v], last[v] - num[v]
  {
    assert GroupIs(g, num, last, grp, v);
    var t :| NextOnCycle(g, v, t) && t in num && t in grp && grp[v] == Seen(num, last, grp, v, t);
    ReachesEdge(g, v, t);
    if LeftBefore(num, last, v, t) {
      assert Nested(num, last, v, t);
      CycleOf(g, v, t);
      y, h := BackEdge(g, num, last, grp, t);
      ReachesTrans(g, v, t, y);
      ReachesTrans(g, y, t, v);
      ReachesTrans(g, v, t, h);
      ReachesTrans(g, h, t, v);
    } else {
      y, h := v, t;
      PathSingle(g, v);
    }
  }

  lemma CycleOf(g: Graph, v: VexIdx, t: VexIdx)
    requires g.Valid() && NextOnCycle(g, v, t)
    ensures OnCycle(g, v) && OnCycle(g, t)
  {
    if t != v {
      var p :| PathFromTo(g, t, v, p);
      assert Hop(g, p, 0);
      PathSlice(g, p, 1, |p|);
      assert Reaches(g, p[1], v);
      ReachesSnoc(g, p[1], v, t);
    }
  }

  // ---- A cycle that nothing leaves ----

  /** v is the only successor of u. */
  ghost predicate OnlyStep(g: Graph, u: VexIdx, v: VexIdx) {
    g.Edge(u, v) && forall t :: g.Edge(u, t) ==> t == v
  }

  ghost predicate StepAt(g: Graph, c: seq<VexIdx>, i: nat)
    requires i < |c|
  {
    OnlyStep(g, c[i], if i + 1 < |c| then c[i + 1] else c[0])
  }

  /** The vertices of c follow each other, the first one the last one, and have no other successors. */
  ghost predicate LoneCycle(g: Graph, c: seq<VexIdx>) {
    && c != [] && NoDup(c)
    && (forall i: nat :: i < |c| ==> StepAt(g, c, i))
  }

  lemma Rotated(g: Graph, c: seq<VexIdx>, m: nat)
    requires LoneCycle(g, c) && m < |c|
    ensures LoneCycle(g, c[m..] + c[..m])
  {
    var r := c[m..] + c[..m];
    forall i: nat | i < |r|
      ensures StepAt(g, r, i)
    {
      var j := if m + i < |c| then m + i else m + i - |c|;
      assert r[i] == c[j] && StepAt(g, c, j);
    }
    assert NoDup(c[m..]) && NoDup(c[..m]) && forall i, j :: m <= i < |c| && 0 <= j < m ==> c[j] != c[i];
  }

  /** The vertex at m has the least number of all. */
  ghost predicate LeastAt(num: Numbering, c: seq<VexIdx>, m: nat) {
    m < |c| && forall i :: 0 <= i < |c| ==> c[i] in num && c[m] in num && num[c[m]] <= num[c[i]]
  }

  lemma {:induction false} LeastOf(num: Numbering, c: seq<VexIdx>) returns (m: nat)
    requires c != [] && forall i :: 0 <= i < |c| ==> c[i] in num
    ensures LeastAt(num, c, m)
  {
    if |c| == 1 {
      m := 0;
    } else {
      var front := c[..|c| - 1];
      m := LeastOf(num, front);
      assert forall i :: 0 <= i < |c| - 1 ==> c[i] == front[i];
      if num[c[|c| - 1]] < num[c[m]] {
        m := |c| - 1;
      }
    }
  }

  lemma RotatedLeast(num: Numbering, c: seq<VexIdx>, m: nat)
    requires LeastAt(num, c, m)
    ensures LeastAt(num, c[m..] + c[..m], 0)
  {
    var r := c[m..] + c[..m];
    forall i | 0 <= i < |r|
      ensures r[i] in num && num[r[0]] <= num[r[i]]
    {
      assert r[i] == c[if m + i < |c| then m + i else m + i - |c|];
    }
  }

  /** No vertex repeats one of the numbers before it. */
  lemma NotAgain(g: Graph, num: Numbering, last: Numbering, c: seq<VexIdx>, i: nat, j: int)
    requires DfsNumbers(g, num, last) && LeastAt(num, c, 0) && NoDup(c) && i < |c|
    ensures 0 <= j < i ==> num[c[j]] != num[c[i]]
  {
  }

  /** From the vertex entered first, such a cycle is numbered without a gap. */
  lemma {:induction false} NumberedOn(g: Graph, num: Numbering, last: Numbering, c: seq<VexIdx>, i: nat)
    requires DfsNumbers(g, num, last) && LoneCycle(g, c) && i < |c|
    requires LeastAt(num, c, 0)
    ensures forall j :: 0 <= j <= i ==> num[c[j]] == num[c[0]] + j
  {
    if i > 0 {
      NumberedOn(g, num, last, c, i - 1);
      NotAgain(g, num, last, c, i, num[c[i]] - num[c[0]]);
      StepsOn(g, num, last, c, i);
    }
  }

  lemma StepsOn(g: Graph, num: Numbering, last: Numbering, c: seq<VexIdx>, i: nat)
    requires DfsNumbers(g, num, last) && LoneCycle(g, c) && LeastAt(num, c, 0) && 0 < i < |c|
    ensures num[c[i - 1]] < num[c[i]] ==> num[c[i]] == num[c[i - 1]] + 1
  {
    assert StepAt(g, c, i - 1) && LeadsOn(g, num, c[i - 1]);
  }

  /** All its vertices are in one group. */
  lemma {:induction false} OneGroup(g: Graph, num: Numbering, last: Numbering, grp: Numbering, c: seq<VexIdx>,
                                    i: nat)
    requires Grouped(g, num, last, grp) && LoneCycle(g, c) && i < |c|
    requires LeastAt(num, c, 0)
    ensures grp[c[i]] == grp[c[0]]
  {
    if i > 0 {
      OneGroup(g, num, last, grp, c, i - 1);
      NumberedOn(g, num, last, c, i);
      assert StepAt(g, c, i - 1) && GroupIs(g, num, last, grp, c[i - 1]);
      LoneOnCycle(g, c, i - 1);
    }
  }

  lemma {:induction false} ReachesAlong(g: Graph, c: seq<VexIdx>, i: nat, j: nat)
    requires g.Valid() && LoneCycle(g, c) && i <= j < |c| && c[i] in g.Vs()
    ensures Reaches(g, c[i], c[j])
  {
    if i == j {
      PathSingle(g, c[i]);
    } else {
      ReachesAlong(g, c, i, j - 1);
      assert StepAt(g, c, j - 1);
      ReachesSnoc(g, c[i], c[j - 1], c[j]);
    }
  }

  lemma LoneOnCycle(g: Graph, c: seq<VexIdx>, i: nat)
    requires g.Valid() && LoneCycle(g, c) && i < |c| && forall j :: 0 <= j < |c| ==> c[j] in g.Vs()
    ensures OnCycle(g, c[i])
  {
    var n := |c| - 1;
    assert StepAt(g, c, n);
    ReachesAlong(g, c, 0, i);
    if i == n {
      assert g.Edge(c[i], c[0]);
    } else {
      assert StepAt(g, c, i);
      ReachesAlong(g, c, i + 1, n);
      ReachesSnoc(g, c[i + 1], c[n], c[0]);
      ReachesTrans(g, c[i + 1], c[0], c[i]);
    }
  }

  lemma LoneInGraph(g: Graph, c: seq<VexIdx>)
    requires g.Valid() && LoneCycle(g, c)
    ensures forall i :: 0 <= i < |c| ==> c[i] in g.Vs()
  {
    forall i | 0 <= i < |c|
      ensures c[i] in g.Vs()
    {
      assert StepAt(g, c, i);
    }
  }

  /** A cycle without branches is one group. */
  lemma LoneCycleIsOneGroup(g: Graph, num: Numbering, last: Numbering, grp: Numbering, c: seq<VexIdx>,
                            u: VexIdx, v: VexIdx)
    requires Grouped(g, num, last, grp) && LoneCycle(g, c) && u in c && v in c
    ensures u in g.Vs() && v in g.Vs() && OnCycle(g, u) && grp[u] == grp[v]
  {
    LoneInGraph(g, c);
    var m := LeastOf(num, c);
    var r := c[m..] + c[..m];
    Rotated(g, c, m);
    RotatedLeast(num, c, m);
    InRotated(c, m, u);
    InRotated(c, m, v);
    LeastFirst(g, num, last, grp, r, u);
    LeastFirst(g, num, last, grp, r, v);
  }

  lemma InRotated(c: seq<VexIdx>, m: nat, x: VexIdx)
    requires m <= |c| && x in c
    ensures x in c[m..] + c[..m]
  {
    assert c == c[..m] + c[m..];
  }

  lemma LeastFirst(g: Graph, num: Numbering, last: Numbering, grp: Numbering, c: seq<VexIdx>, u: VexIdx)
    requires Grouped(g, num, last, grp) && LoneCycle(g, c) && u in c && LeastAt(num, c, 0)
    ensures u in g.Vs() && OnCycle(g, u) && grp[u] == grp[c[0]]
  {
    var i :| 0 <= i < |c| && c[i] == u;
    OneGroup(g, num, last, grp, c, i);
    LoneOnCycle(g, c, i);
  }

  // ---- A component of two groups ----

  /** 2 lies on a cycle with 1 and on one with 3. */
  ghost predicate TwoCycles(g: Graph) {
    && (forall x :: g.Edge(1, x) <==> x == 2)
    && (forall x :: g.Edge(2, x) <==> x == 1 || x == 3)
    && (forall x :: g.Edge(3, x) <==> x == 2)
  }

  /** The vertices of two cycles that share one reach each other, but a scan that enters 1 first puts them in
      two groups. */
  lemma ComponentMaySplit(g: Graph, num: Numbering, last: Numbering, grp: Numbering)
    requires TwoCycles(g) && Grouped(g, num, last, grp) && {1, 2, 3} <= g.Vs() && num[1] < num[2] && num[1] < num[3]
    ensures Reaches(g, 1, 3) && Reaches(g, 3, 1)
    ensures grp[1] == grp[2] == num[1] && grp[3] == num[2] != num[1]
  {
    TwoCyclesReach(g);
    TwoCyclesNumbers(g, num, last);
    TwoSeen(g, num, last, grp, 3, 2, 2);
    TwoSeen(g, num, last, grp, 2, 3, 1);
    TwoSeen(g, num, last, grp, 1, 2, 2);
  }

  lemma TwoSeen(g: Graph, num: Numbering, last: Numbering, grp: Numbering, v: VexIdx, s: VexIdx, t: VexIdx)
    requires Grouped(g, num, last, grp) && NextOnCycle(g, v, s) && NextOnCycle(g, v, t)
    requires forall x :: g.Edge(v, x) ==> x == s || x == t
    ensures v in grp && s in grp && t in grp && v in num && s in num && t in num
    ensures grp[v] == Min(Seen(num, last, grp, v, s), Seen(num, last, grp, v, t))
  {
    CycleOf(g, v, t);
    assert GroupIs(g, num, last, grp, v);
  }

  lemma TwoCyclesNumbers(g: Graph, num: Numbering, last: Numbering)
    requires TwoCycles(g) && DfsNumbers(g, num, last) && {1, 2, 3} <= g.Vs() && num[1] < num[2] && num[1] < num[3]
    ensures num[1] < num[2] < num[3] < last[2] && num[2] < last[1]
  {
    assert g.Edge(1, 2) && g.Edge(2, 3) && LeadsOn(g, num, 1);
  }

  lemma TwoCyclesReach(g: Graph)
    requires TwoCycles(g) && g.Valid()
    ensures NextOnCycle(g, 1, 2) && NextOnCycle(g, 2, 1) && NextOnCycle(g, 2, 3) && NextOnCycle(g, 3, 2)
    ensures Reaches(g, 1, 3) && Reaches(g, 3, 1)
  {
    ReachesEdge(g, 1, 2);
    ReachesEdge(g, 2, 1);
    ReachesEdge(g, 2, 3);
    ReachesEdge(g, 3, 2);
    ReachesTrans(g, 1, 2, 3);
    ReachesTrans(g, 3, 2, 1);
  }
}
