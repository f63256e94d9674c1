/** Detection of the vertices on cycles and their grouping into strongly connected sets by
    one depth-first scan, `com/scc.cpp`. */
module Scc {
  import opened Graphs
  import opened DfsGroups
  import opened DfsOrder

  const UNDEF_GROUP: nat := 0

  /** The tables that the scan updates. Each reported set is an element of sccs; group2bs
      finds the set of a group. */
  datatype Tables = Tables(
    visited: set<VexIdx>,
    onpath: set<VexIdx>,
    index: map<VexIdx, nat>,
    group: map<VexIdx, nat>,
    count: nat,
    path: seq<VexIdx>,
    group2bs: map<nat, nat>,
    sccs: seq<set<VexIdx>>)

  // ---- The invariant of the scan; gray lists the vertices entered and not yet left ----

  ghost predicate Numbers(s: Tables) {
    && s.index.Keys == s.visited
    && s.group.Keys == s.visited
    && UNDEF_GROUP < s.count
    && (forall x {:trigger s.index[x]} :: x in s.visited ==> UNDEF_GROUP < s.group[x] <= s.index[x] < s.count)
  }

  ghost predicate SameIndex(s: Tables, x: VexIdx, y: VexIdx)
    requires Numbers(s)
  {
    x in s.visited && y in s.visited && s.index[x] == s.index[y]
  }

  ghost predicate Distinct(s: Tables)
    requires Numbers(s)
  {
    forall x, y {:trigger SameIndex(s, x, y)} :: SameIndex(s, x, y) ==> x == y
  }

  ghost predicate PathSorted(s: Tables)
    requires Numbers(s)
  {
    && s.onpath == SetOf(s.path)
    && s.onpath <= s.visited
    && (forall i, j :: 0 <= i < j < |s.path| ==>
          s.path[i] in s.onpath && s.path[j] in s.onpath && s.index[s.path[i]] < s.index[s.path[j]])
  }

  ghost predicate GrayAt(s: Tables, x: VexIdx)
    requires Numbers(s)
  {
    x in s.onpath && x in s.visited && s.group[x] == s.index[x]
  }

  ghost predicate GrayAscends(s: Tables, gray: seq<VexIdx>)
    requires Numbers(s)
  {
    && (forall i :: 0 <= i < |gray| ==> GrayAt(s, gray[i]))
    && (forall i, j :: 0 <= i < j < |gray| ==> s.index[gray[i]] < s.index[gray[j]])
  }

  ghost predicate GrayPath(g: Graph, s: Tables, gray: seq<VexIdx>)
    requires Numbers(s)
  {
    && GrayAscends(s, gray)
    && (forall i: nat :: i + 1 < |gray| ==> Hop(g, gray, i))
    && (gray == [] <==> s.path == [])
    && (gray != [] && s.path != [] ==> gray[0] == s.path[0])
  }

  /** y is where x was entered from. */
  ghost predicate ParentOf(g: Graph, s: Tables, gray: seq<VexIdx>, y: VexIdx, x: VexIdx)
    requires Numbers(s) && x in s.visited
  {
    && y in s.visited && y in s.onpath
    && g.Edge(y, x)
    && s.index[y] < s.index[x]
    && (y !in gray ==> s.group[y] <= s.group[x])
    && (forall z :: z in gray && z in s.visited ==> s.index[z] <= s.index[y] || s.index[x] <= s.index[z])
  }

  ghost predicate HasParent(g: Graph, s: Tables, gray: seq<VexIdx>, x: VexIdx)
    requires Numbers(s) && x in s.visited
  {
    exists y :: ParentOf(g, s, gray, y, x)
  }

  /** A left vertex that is still on the path reaches the earlier vertex its group names. */
  ghost predicate Leads(g: Graph, s: Tables, x: VexIdx)
    requires Numbers(s) && x in s.visited
  {
    exists y :: y in s.onpath && y in s.visited && s.index[y] == s.group[x] && Reaches(g, x, y)
  }

  ghost predicate Waiting(g: Graph, s: Tables, gray: seq<VexIdx>, x: VexIdx)
    requires Numbers(s) && x in s.visited
  {
    && s.group[x] < s.index[x]
    && Leads(g, s, x)
    && HasParent(g, s, gray, x)
    && (forall t :: g.Edge(x, t) && t in s.onpath && t in s.visited ==> s.group[x] <= s.index[t])
  }

  /** What is known about an entered vertex and its edges. */
  ghost predicate Known(g: Graph, s: Tables, gray: seq<VexIdx>, x: VexIdx)
    requires Numbers(s) && x in s.visited
  {
    x !in gray ==>
      && (forall t :: g.Edge(x, t) ==> t in s.visited && (x !in s.onpath ==> t !in s.onpath))
      && (x in s.onpath ==> Waiting(g, s, gray, x))
  }

  ghost predicate ScanInv(g: Graph, s: Tables, gray: seq<VexIdx>) {
    && g.Valid()
    && s.visited <= g.Vs()
    && Numbers(s)
    && Distinct(s)
    && PathSorted(s)
    && GrayPath(g, s, gray)
    && (forall x {:trigger Known(g, s, gray, x)} :: x in s.visited ==> Known(g, s, gray, x))
  }

  // ---- The reported sets ----

  ghost predicate InSome(s: Tables, x: VexIdx) {
    exists k :: 0 <= k < |s.sccs| && x in s.sccs[k]
  }

  /** A set holds the vertices of one group; they reach the vertex of that number, and are reached by it. */
  ghost predicate SetMember(g: Graph, s: Tables, grp: nat, x: VexIdx) {
    && s.index.Keys == s.group.Keys == s.visited
    && x in s.visited && s.group[x] == grp
    && exists z :: z in s.visited && s.index[z] == grp && Reaches(g, x, z) && Reaches(g, z, x)
  }

  ghost predicate HasGroup(s: Tables, k: nat) {
    exists grp :: grp in s.group2bs && s.group2bs[grp] == k
  }

  ghost predicate SetsOk(g: Graph, s: Tables) {
    && (forall grp :: grp in s.group2bs ==> s.group2bs[grp] < |s.sccs|)
    && (forall a, b :: a in s.group2bs && b in s.group2bs && s.group2bs[a] == s.group2bs[b] ==> a == b)
    && (forall k {:trigger HasGroup(s, k)} :: 0 <= k < |s.sccs| ==> HasGroup(s, k))
    && (forall grp, x :: grp in s.group2bs && s.group2bs[grp] < |s.sccs| && x in s.sccs[s.group2bs[grp]]
          ==> SetMember(g, s, grp, x))
    && (forall k, l :: 0 <= k < l < |s.sccs| ==> s.sccs[k] !! s.sccs[l])
  }

  ghost predicate Reported(g: Graph, s: Tables, gray: seq<VexIdx>, x: VexIdx) {
    if x in gray then !InSome(s, x) else InSome(s, x) <==> OnCycle(g, x)
  }

  /** What vertex v leads to so far. */
  ghost predicate LeadsSoFar(g: Graph, s: Tables, gray: seq<VexIdx>, v: VexIdx)
    requires Numbers(s) && v in s.visited
  {
    || LeadsToNext(g, s, v)
    || (if v in gray then s.count == s.index[v] + 1
        else forall t :: g.Edge(v, t) && t in s.visited ==> s.index[t] <= s.index[v])
  }

  ghost predicate LeadsToNext(g: Graph, s: Tables, v: VexIdx)
    requires Numbers(s) && v in s.visited
  {
    exists t :: g.Edge(v, t) && t in s.visited && s.index[t] == s.index[v] + 1
  }

  /** last holds the numbers at which the vertices not in gray were left. */
  ghost predicate LeftAt(g: Graph, s: Tables, gray: seq<VexIdx>, last: Numbering) {
    && Numbers(s)
    && last.Keys == s.visited - SetOf(gray)
    && (forall v :: v in last ==> s.index[v] < last[v] <= s.count)
    && (forall u, v :: u in last && g.Edge(u, v) ==> v in s.visited && s.index[v] < last[u])
  }

  ghost predicate AllNested(s: Tables, last: Numbering) {
    forall a, b {:trigger Nested(s.index, last, a, b)} ::
      a in s.visited && b in s.visited ==> Nested(s.index, last, a, b)
  }

  ghost predicate AllLead(g: Graph, s: Tables, gray: seq<VexIdx>)
    requires Numbers(s)
  {
    forall v {:trigger LeadsSoFar(g, s, gray, v)} :: v in s.visited ==> LeadsSoFar(g, s, gray, v)
  }

  /** The groups of the vertices left so far. */
  ghost predicate GroupsAre(g: Graph, s: Tables, last: Numbering) {
    forall v {:trigger GroupIs(g, s.index, last, s.group, v)} ::
      v in last ==> GroupIs(g, s.index, last, s.group, v)
  }

  ghost predicate Settled(g: Graph, s: Tables, gray: seq<VexIdx>) {
    Numbers(s) && AllLead(g, s, gray) && exists last :: SettledBy(g, s, gray, last)
  }

  ghost predicate SettledBy(g: Graph, s: Tables, gray: seq<VexIdx>, last: Numbering) {
    LeftAt(g, s, gray, last) && AllNested(s, last) && GroupsAre(g, s, last)
  }

  ghost predicate ReportInv(g: Graph, s: Tables, gray: seq<VexIdx>) {
    && Settled(g, s, gray)
    && SetsOk(g, s)
    && (forall x {:trigger Reported(g, s, gray, x)} :: x in s.visited ==> Reported(g, s, gray, x))
  }

  // ---- Consequences ----

  lemma GrayReachesTop(g: Graph, s: Tables, gray: seq<VexIdx>, i: nat)
    requires ScanInv(g, s, gray) && i < |gray|
    ensures Reaches(g, gray[i], gray[|gray| - 1])
  {
    assert gray[0] in g.Vs();
    assert IsPath(g, gray);
    PathSlice(g, gray, i, |gray|);
  }

  /** Every vertex on the path reaches the vertex entered last. */
  lemma {:induction false} PathReachesTop(g: Graph, s: Tables, gray: seq<VexIdx>, x: VexIdx)
    requires ScanInv(g, s, gray) && x in s.onpath && x in s.visited && gray != []
    ensures Reaches(g, x, gray[|gray| - 1])
    decreases s.index[x]
  {
    if x in gray {
      var i :| 0 <= i < |gray| && gray[i] == x;
      GrayReachesTop(g, s, gray, i);
    } else {
      assert Known(g, s, gray, x);
      var y :| y in s.onpath && y in s.visited && s.index[y] == s.group[x] && Reaches(g, x, y);
      PathReachesTop(g, s, gray, y);
      ReachesTrans(g, x, y, gray[|gray| - 1]);
    }
  }

  /** Vertices on the path behind the last entered one have been left. */
  lemma BehindTopIsLeft(g: Graph, s: Tables, gray: seq<VexIdx>, x: VexIdx)
    requires ScanInv(g, s, gray) && gray != [] && x in s.visited && gray[|gray| - 1] in s.visited
    requires s.index[gray[|gray| - 1]] < s.index[x]
    ensures x !in gray
  {
  }

  /** A vertex is on a cycle exactly when, as it is left, one of its successors is on the path. */
  lemma CycleIffSuccOnPath(g: Graph, s: Tables, gray: seq<VexIdx>, v: VexIdx)
    requires ScanInv(g, s, gray) && gray != [] && v == gray[|gray| - 1]
    requires forall t :: g.Edge(v, t) ==> t in s.visited
    ensures OnCycle(g, v) <==> exists t :: g.Edge(v, t) && t in s.onpath
  {
    assert v in s.onpath;
    if exists t :: g.Edge(v, t) && t in s.onpath {
      var t :| g.Edge(v, t) && t in s.onpath;
      PathReachesTop(g, s, gray, t);
    }
    if OnCycle(g, v) {
      var t :| g.Edge(v, t) && Reaches(g, t, v);
      OnPathIffBack(g, s, gray, t);
    }
  }

  /** Just the vertices on the path reach the vertex entered last. */
  lemma OnPathIffBack(g: Graph, s: Tables, gray: seq<VexIdx>, t: VexIdx)
    requires ScanInv(g, s, gray) && gray != [] && t in s.visited
    ensures t in s.onpath <==> Reaches(g, t, gray[|gray| - 1])
  {
    if t in s.onpath {
      PathReachesTop(g, s, gray, t);
    } else if Reaches(g, t, gray[|gray| - 1]) {
      assert GrayAt(s, gray[|gray| - 1]);
      var gone := s.visited - s.onpath;
      forall a, b | a in gone && g.Edge(a, b)
        ensures b in gone
      {
        assert a !in gray;
        assert Known(g, s, gray, a);
      }
      ClosedHoldsReachable(g, gone, t, gray[|gray| - 1]);
    }
  }

  /** If some successor of the vertex being left is on the path, one of them has a group no
      larger than the vertex's number. */
  lemma SmallGroupSucc(g: Graph, s: Tables, gray: seq<VexIdx>, v: VexIdx, t: VexIdx) returns (c: VexIdx)
    requires ScanInv(g, s, gray) && gray != [] && v == gray[|gray| - 1] && v in s.visited
    requires g.Edge(v, t) && t in s.onpath && t in s.visited
    ensures g.Edge(v, c) && c in s.onpath && c in s.visited && s.group[c] <= s.index[v]
  {
    if s.group[t] <= s.index[v] {
      c := t;
    } else {
      var i :| 0 <= i < |s.path| && s.path[i] == v;
      c := NextOnPath(g, s, gray, i, t);
      NextWasEntered(g, s, gray, i, c);
      NextHasSmallGroup(g, s, gray, i, c);
    }
  }

  /** What stands behind the top of the stack on the path has been left. */
  lemma NextOnPath(g: Graph, s: Tables, gray: seq<VexIdx>, i: nat, t: VexIdx) returns (c: VexIdx)
    requires ScanInv(g, s, gray) && gray != [] && i < |s.path| && s.path[i] == gray[|gray| - 1]
    requires s.path[i] in s.visited && t in s.onpath && t in s.visited && s.index[s.path[i]] < s.index[t]
    ensures i + 1 < |s.path| && c == s.path[i + 1] && c in s.onpath && c in s.visited && c !in gray
    ensures s.index[s.path[i]] < s.index[c]
  {
    var j :| 0 <= j < |s.path| && s.path[j] == t;
    assert i < j;
    c := s.path[i + 1];
    assert c in s.onpath;
    BehindTopIsLeft(g, s, gray, c);
  }

  lemma NextWasEntered(g: Graph, s: Tables, gray: seq<VexIdx>, i: nat, c: VexIdx)
    requires ScanInv(g, s, gray) && gray != [] && i + 1 < |s.path| && s.path[i] == gray[|gray| - 1]
    requires s.path[i] in s.visited && c == s.path[i + 1] && c in s.onpath && c in s.visited && c !in gray
    requires s.index[s.path[i]] < s.index[c]
    ensures g.Edge(s.path[i], c)
  {
    assert Known(g, s, gray, c);
    var y :| ParentOf(g, s, gray, y, c);
    NothingBetween(s, i, y);
    assert SameIndex(s, s.path[i], y);
  }

  lemma NextHasSmallGroup(g: Graph, s: Tables, gray: seq<VexIdx>, i: nat, c: VexIdx)
    requires ScanInv(g, s, gray) && i + 1 < |s.path| && s.path[i] in s.visited
    requires c == s.path[i + 1] && c in s.onpath && c in s.visited && c !in gray
    ensures s.group[c] <= s.index[s.path[i]]
  {
    assert Known(g, s, gray, c);
    var z :| z in s.onpath && z in s.visited && s.index[z] == s.group[c] && Reaches(g, c, z);
    NothingBetween(s, i, z);
  }

  lemma NothingBetween(s: Tables, i: nat, y: VexIdx)
    requires Numbers(s) && PathSorted(s) && i + 1 < |s.path| && y in s.onpath && y in s.visited
    requires s.path[i] in s.visited && s.path[i + 1] in s.visited
    requires s.index[y] < s.index[s.path[i + 1]]
    ensures s.index[y] <= s.index[s.path[i]]
  {
    var k :| 0 <= k < |s.path| && s.path[k] == y;
  }

  // ---- Entering a vertex ----

  function Enter(s: Tables, v: VexIdx): Tables {
    s.(visited := s.visited + {v},
       index := s.index[v := s.count],
       group := s.group[v := s.count],
       count := s.count + 1,
       onpath := s.onpath + {v},
       path := s.path + [v])
  }

  lemma EnterKeepsNumbers(g: Graph, s: Tables, gray: seq<VexIdx>, v: VexIdx)
    requires ScanInv(g, s, gray) && v !in s.visited
    ensures Numbers(Enter(s, v)) && Distinct(Enter(s, v)) && PathSorted(Enter(s, v))
  {
    var s' := Enter(s, v);
    assert Numbers(s');
    forall x, y | SameIndex(s', x, y)
      ensures x == y
    {
      assert x != v && y != v ==> SameIndex(s, x, y);
    }
    EnterKeepsPath(s, v);
  }

  lemma EnterKeepsPath(s: Tables, v: VexIdx)
    requires Numbers(s) && Numbers(Enter(s, v)) && PathSorted(s) && v !in s.visited
    ensures PathSorted(Enter(s, v))
  {
    var s' := Enter(s, v);
    assert forall x :: x in s'.path <==> x in s.path || x == v;
    forall i, j | 0 <= i < j < |s'.path|
      ensures s'.path[i] in s'.onpath && s'.path[j] in s'.onpath && s'.index[s'.path[i]] < s'.index[s'.path[j]]
    {
      assert s.path[i] in SetOf(s.path);
    }
  }

  lemma EnterKeepsGray(g: Graph, s: Tables, gray: seq<VexIdx>, v: VexIdx)
    requires ScanInv(g, s, gray) && v !in s.visited
    requires gray != [] ==> g.Edge(gray[|gray| - 1], v)
    ensures Numbers(Enter(s, v)) && GrayPath(g, Enter(s, v), gray + [v])
  {
    EnterAscends(s, gray, v);
    HopsSnoc(g, gray, v);
  }

  lemma EnterAscends(s: Tables, gray: seq<VexIdx>, v: VexIdx)
    requires Numbers(s) && GrayAscends(s, gray) && v !in s.visited
    ensures Numbers(Enter(s, v)) && GrayAscends(Enter(s, v), gray + [v])
  {
    forall i | 0 <= i < |gray|
      ensures GrayAt(s, gray[i]) && gray[i] != v
    {
    }
  }

  lemma HopsSnoc(g: Graph, gray: seq<VexIdx>, v: VexIdx)
    requires forall i: nat :: i + 1 < |gray| ==> Hop(g, gray, i)
    requires gray != [] ==> g.Edge(gray[|gray| - 1], v)
    ensures forall i: nat :: i + 1 < |gray + [v]| ==> Hop(g, gray + [v], i)
  {
    forall i: nat | i + 1 < |gray + [v]|
      ensures Hop(g, gray + [v], i)
    {
      if i + 1 < |gray| { assert Hop(g, gray, i); }
    }
  }

  lemma EnterKeepsScan(g: Graph, s: Tables, gray: seq<VexIdx>, v: VexIdx)
    requires ScanInv(g, s, gray) && v in g.Vs() && v !in s.visited
    requires gray != [] ==> g.Edge(gray[|gray| - 1], v)
    ensures ScanInv(g, Enter(s, v), gray + [v])
  {
    var s', gray' := Enter(s, v), gray + [v];
    EnterKeepsNumbers(g, s, gray, v);
    EnterKeepsGray(g, s, gray, v);
    forall x | x in s'.visited
      ensures Known(g, s', gray', x)
    {
      if x !in gray' {
        assert Known(g, s, gray, x);
        if x in s.onpath {
          EnterKeepsWaiting(g, s, gray, v, x);
        }
      }
    }
  }

  lemma EnterKeepsWaiting(g: Graph, s: Tables, gray: seq<VexIdx>, v: VexIdx, x: VexIdx)
    requires Numbers(s) && Numbers(Enter(s, v)) && v !in s.visited && s.onpath <= s.visited
    requires x in s.visited && Waiting(g, s, gray, x)
    requires forall t :: g.Edge(x, t) ==> t in s.visited
    ensures Waiting(g, Enter(s, v), gray + [v], x)
  {
    var s' := Enter(s, v);
    var y :| y in s.onpath && y in s.visited && s.index[y] == s.group[x] && Reaches(g, x, y);
    assert y in s'.onpath && s'.index[y] == s'.group[x];
    var z :| ParentOf(g, s, gray, z, x);
    assert ParentOf(g, s', gray + [v], z, x);
  }

  /** Whatever has been left stays as it is; the parent leads to the next number. */
  lemma EnterSettled(g: Graph, s: Tables, gray: seq<VexIdx>, v: VexIdx)
    requires ScanInv(g, s, gray) && Settled(g, s, gray) && v !in s.visited
    requires gray != [] ==> g.Edge(gray[|gray| - 1], v)
    ensures Settled(g, Enter(s, v), gray + [v])
  {
    var last :| SettledBy(g, s, gray, last);
    EnterLeftAt(g, s, gray, v, last);
    EnterNested(g, s, gray, v, last);
    EnterGroups(g, s, gray, v, last);
    assert SettledBy(g, Enter(s, v), gray + [v], last);
    forall x | x in Enter(s, v).visited
      ensures LeadsSoFar(g, Enter(s, v), gray + [v], x)
    {
      if x != v {
        EnterLeads(g, s, gray, v, x);
      }
    }
  }

  lemma EnterLeftAt(g: Graph, s: Tables, gray: seq<VexIdx>, v: VexIdx, last: Numbering)
    requires LeftAt(g, s, gray, last) && v !in s.visited
    ensures LeftAt(g, Enter(s, v), gray + [v], last)
  {
    assert SetOf(gray + [v]) == SetOf(gray) + {v};
  }

  lemma EnterNested(g: Graph, s: Tables, gray: seq<VexIdx>, v: VexIdx, last: Numbering)
    requires LeftAt(g, s, gray, last) && AllNested(s, last) && v !in s.visited
    ensures AllNested(Enter(s, v), last)
  {
    var s' := Enter(s, v);
    forall a, b | a in s'.visited && b in s'.visited
      ensures Nested(s'.index, last, a, b)
    {
      assert a != v && b != v ==> Nested(s.index, last, a, b);
    }
  }

  lemma EnterLeads(g: Graph, s: Tables, gray: seq<VexIdx>, v: VexIdx, x: VexIdx)
    requires ScanInv(g, s, gray) && v !in s.visited && x in s.visited && LeadsSoFar(g, s, gray, x)
    requires Numbers(Enter(s, v)) && (gray != [] ==> g.Edge(gray[|gray| - 1], v))
    ensures LeadsSoFar(g, Enter(s, v), gray + [v], x)
  {
    var s' := Enter(s, v);
    if LeadsToNext(g, s, x) {
      var t :| g.Edge(x, t) && t in s.visited && s.index[t] == s.index[x] + 1;
      assert s'.index[t] == s'.index[x] + 1;
    } else if x in gray {
      LargestIsTop(g, s, gray, x);
      assert s'.index[v] == s'.index[x] + 1;
    } else {
      assert Known(g, s, gray, x);
    }
  }

  lemma LargestIsTop(g: Graph, s: Tables, gray: seq<VexIdx>, x: VexIdx)
    requires ScanInv(g, s, gray) && x in gray && x in s.visited && s.count == s.index[x] + 1
    ensures x == gray[|gray| - 1]
  {
    TopIsLargest(g, s, gray, x);
    assert SameIndex(s, x, gray[|gray| - 1]);
  }

  lemma EnterGroups(g: Graph, s: Tables, gray: seq<VexIdx>, v: VexIdx, last: Numbering)
    requires LeftAt(g, s, gray, last) && GroupsAre(g, s, last) && v !in s.visited
    ensures GroupsAre(g, Enter(s, v), last)
  {
    var s' := Enter(s, v);
    forall x | x in last
      ensures GroupIs(g, s'.index, last, s'.group, x)
    {
      assert GroupIs(g, s.index, last, s.group, x);
      GroupStays(g, s.index, s.group, last, s'.index, s'.group, last, x);
    }
  }

  /** A group is what it is as long as its successors look the same. */
  lemma GroupStays(g: Graph, num: Numbering, grp: Numbering, last: Numbering,
                   num': Numbering, grp': Numbering, last': Numbering, x: VexIdx)
    requires GroupIs(g, num, last, grp, x) && x in num' && x in grp'
    requires num'[x] == num[x] && grp'[x] == grp[x]
    requires forall t :: g.Edge(x, t) && t in num && t in grp ==>
                           t in num' && t in grp' && Seen(num', last', grp', x, t) == Seen(num, last, grp, x, t)
    ensures GroupIs(g, num', last', grp', x)
  {
    if OnCycle(g, x) {
      var t :| NextOnCycle(g, x, t) && t in num && t in grp && grp[x] == Seen(num, last, grp, x, t);
      assert grp'[x] == Seen(num', last', grp', x, t);
    }
  }

  lemma EnterKeepsReport(g: Graph, s: Tables, gray: seq<VexIdx>, v: VexIdx)
    requires ScanInv(g, s, gray) && ReportInv(g, s, gray) && v !in s.visited
    requires gray != [] ==> g.Edge(gray[|gray| - 1], v)
    ensures ReportInv(g, Enter(s, v), gray + [v])
  {
    EnterSettled(g, s, gray, v);
    EnterKeepsSets(g, s, v);
    forall x | x in Enter(s, v).visited
      ensures Reported(g, Enter(s, v), gray + [v], x)
    {
      assert InSome(Enter(s, v), x) <==> InSome(s, x);
      if x == v {
        MembersAreVisited(g, s, v);
      } else {
        assert Reported(g, s, gray, x);
      }
    }
  }

  lemma EnterKeepsSets(g: Graph, s: Tables, v: VexIdx)
    requires SetsOk(g, s) && s.index.Keys == s.group.Keys == s.visited && v !in s.visited
    ensures SetsOk(g, Enter(s, v))
  {
    var s' := Enter(s, v);
    forall k | 0 <= k < |s'.sccs|
      ensures HasGroup(s', k)
    {
      assert HasGroup(s, k);
    }
    forall grp, x | grp in s'.group2bs && s'.group2bs[grp] < |s'.sccs| && x in s'.sccs[s'.group2bs[grp]]
      ensures SetMember(g, s', grp, x)
    {
      assert SetMember(g, s, grp, x);
      var z :| z in s.visited && s.index[z] == grp && Reaches(g, x, z) && Reaches(g, z, x);
      assert s'.index[z] == grp;
    }
  }

  lemma MembersAreVisited(g: Graph, s: Tables, v: VexIdx)
    requires SetsOk(g, s)
    ensures InSome(s, v) ==> v in s.visited
  {
    if InSome(s, v) {
      var k :| 0 <= k < |s.sccs| && v in s.sccs[k];
      assert HasGroup(s, k);
      var grp :| grp in s.group2bs && s.group2bs[grp] == k;
      assert SetMember(g, s, grp, v);
    }
  }

  // ---- Leaving a vertex ----

  /** The group computed for v from its successors on the path. */
  ghost predicate GroupFor(g: Graph, s: Tables, v: VexIdx, grp: nat)
    requires Numbers(s) && v in s.visited
  {
    && UNDEF_GROUP < grp <= s.index[v]
    && (forall t :: g.Edge(v, t) && t in s.onpath && t in s.visited ==> grp <= s.group[t])
    && (grp == s.index[v] || exists t :: g.Edge(v, t) && t in s.onpath && t in s.visited && s.group[t] == grp)
  }

  ghost predicate Leaving(g: Graph, s: Tables, gray: seq<VexIdx>, v: VexIdx, grp: nat) {
    && ScanInv(g, s, gray)
    && gray != [] && v == gray[|gray| - 1] && v in s.visited
    && (forall t :: g.Edge(v, t) ==> t in s.visited)
    && GroupFor(g, s, v, grp)
  }

  /** Everything behind v on the path has a group no smaller than v's. */
  lemma {:induction false} GroupsBehind(g: Graph, s: Tables, gray: seq<VexIdx>, v: VexIdx, grp: nat, x: VexIdx)
    requires Leaving(g, s, gray, v, grp)
    requires x in s.onpath && x in s.visited && s.index[v] < s.index[x]
    ensures grp <= s.group[x]
    decreases s.index[x]
  {
    BehindTopIsLeft(g, s, gray, x);
    assert Known(g, s, gray, x);
    var y :| ParentOf(g, s, gray, y, x);
    assert s.index[v] <= s.index[y];
    if y != v {
      assert !SameIndex(s, y, v);
      GroupsBehind(g, s, gray, v, grp, y);
      BehindTopIsLeft(g, s, gray, y);
    }
  }

  function Regroup(s: Tables, v: VexIdx, grp: nat): Tables {
    s.(group := s.group[v := grp])
  }

  lemma RegroupNumbers(g: Graph, s: Tables, gray: seq<VexIdx>, v: VexIdx, grp: nat)
    requires Leaving(g, s, gray, v, grp)
    ensures Numbers(Regroup(s, v, grp)) && Distinct(Regroup(s, v, grp)) && PathSorted(Regroup(s, v, grp))
  {
    var s' := Regroup(s, v, grp);
    assert Numbers(s');
    forall x, y | SameIndex(s', x, y)
      ensures x == y
    {
      assert SameIndex(s, x, y);
    }
  }

  lemma LeaveGray(g: Graph, s: Tables, gray: seq<VexIdx>, v: VexIdx, grp: nat)
    requires Numbers(s) && Numbers(Regroup(s, v, grp)) && GrayPath(g, s, gray)
    requires |gray| > 1 && v == gray[|gray| - 1]
    ensures GrayPath(g, Regroup(s, v, grp), gray[..|gray| - 1])
  {
    var s', gray' := Regroup(s, v, grp), gray[..|gray| - 1];
    forall i | 0 <= i < |gray'|
      ensures GrayAt(s', gray'[i])
    {
      assert GrayAt(s, gray[i]) && s.index[gray[i]] < s.index[v];
    }
    forall i: nat | i + 1 < |gray'|
      ensures Hop(g, gray', i)
    {
      assert Hop(g, gray, i);
    }
  }

  /** A parent stays one while the stack shrinks. */
  lemma ParentKept(g: Graph, s: Tables, s': Tables, gray: seq<VexIdx>, gray': seq<VexIdx>, z: VexIdx, x: VexIdx)
    requires Numbers(s) && Numbers(s') && s'.visited == s.visited && s'.index == s.index
    requires x in s.visited && ParentOf(g, s, gray, z, x) && z in s'.onpath
    requires z !in gray' ==> s'.group[z] <= s'.group[x]
    requires gray' <= gray
    ensures ParentOf(g, s', gray', z, x)
  {
    assert forall w :: w in gray' ==> w in gray;
  }

  lemma ButLast(gray: seq<VexIdx>, w: VexIdx)
    requires gray != []
    ensures w in gray <==> w in gray[..|gray| - 1] || w == gray[|gray| - 1]
  {
    assert gray == gray[..|gray| - 1] + [gray[|gray| - 1]];
  }

  lemma LeaveKeepsParent(g: Graph, s: Tables, gray: seq<VexIdx>, v: VexIdx, grp: nat, x: VexIdx)
    requires Leaving(g, s, gray, v, grp) && Numbers(Regroup(s, v, grp))
    requires x in s.visited && x in s.onpath && x !in gray && HasParent(g, s, gray, x)
    ensures HasParent(g, Regroup(s, v, grp), gray[..|gray| - 1], x)
  {
    var z :| ParentOf(g, s, gray, z, x);
    ButLast(gray, z);
    if z == v {
      GroupsBehind(g, s, gray, v, grp, x);
    }
    ParentKept(g, s, Regroup(s, v, grp), gray, gray[..|gray| - 1], z, x);
  }

  /** A vertex left earlier keeps waiting, as long as it stays on the path. */
  lemma LeaveKeepsWaiting(g: Graph, s: Tables, gray: seq<VexIdx>, v: VexIdx, grp: nat, x: VexIdx)
    requires Leaving(g, s, gray, v, grp) && Numbers(Regroup(s, v, grp))
    requires x in s.visited && x in s.onpath && x !in gray
    ensures Waiting(g, Regroup(s, v, grp), gray[..|gray| - 1], x)
  {
    var s' := Regroup(s, v, grp);
    assert Known(g, s, gray, x);
    var y :| y in s.onpath && y in s.visited && s.index[y] == s.group[x] && Reaches(g, x, y);
    assert y in s'.onpath && s'.index[y] == s'.group[x];
    LeaveKeepsParent(g, s, gray, v, grp, x);
  }

  /** The vertex below the top of the stack is the parent of the top. */
  lemma LeftParent(g: Graph, s: Tables, s': Tables, gray: seq<VexIdx>, v: VexIdx)
    requires Numbers(s) && Numbers(s') && s'.visited == s.visited && s'.index == s.index && s'.onpath == s.onpath
    requires GrayPath(g, s, gray) && |gray| > 1 && v == gray[|gray| - 1] && v in s.visited
    ensures ParentOf(g, s', gray[..|gray| - 1], gray[|gray| - 2], v)
  {
    var gray', z := gray[..|gray| - 1], gray[|gray| - 2];
    assert Hop(g, gray, |gray| - 2) && GrayAt(s, z);
    forall w | w in gray'
      ensures w in s.visited && s.index[w] <= s.index[z]
    {
      BelowTop(g, s, gray, w);
    }
    assert gray'[|gray| - 2] == z;
  }

  lemma BelowTop(g: Graph, s: Tables, gray: seq<VexIdx>, w: VexIdx)
    requires Numbers(s) && GrayPath(g, s, gray) && |gray| > 1 && w in gray[..|gray| - 1]
    ensures w in s.visited && gray[|gray| - 2] in s.visited && s.index[w] <= s.index[gray[|gray| - 2]]
  {
    var k :| 0 <= k < |gray| - 1 && gray[k] == w;
    assert GrayAt(s, gray[k]) && GrayAt(s, gray[|gray| - 2]);
  }

  /** If the group of the top is smaller than its number, something is below it. */
  lemma TopIsNotAlone(g: Graph, s: Tables, gray: seq<VexIdx>, v: VexIdx, y: VexIdx)
    requires ScanInv(g, s, gray) && gray != [] && v == gray[|gray| - 1] && v in s.visited
    requires y in s.onpath && y in s.visited && s.index[y] < s.index[v]
    ensures |gray| > 1
  {
    var i :| 0 <= i < |s.path| && s.path[i] == y;
    assert s.path[0] in s.onpath && s.index[s.path[0]] <= s.index[y];
  }

  /** The vertex being left waits, if its group is smaller than its number. */
  lemma LeftWaits(g: Graph, s: Tables, gray: seq<VexIdx>, v: VexIdx, grp: nat)
    requires Leaving(g, s, gray, v, grp) && Numbers(Regroup(s, v, grp))
    requires grp < s.index[v]
    ensures |gray| > 1
    ensures Waiting(g, Regroup(s, v, grp), gray[..|gray| - 1], v)
  {
    var s' := Regroup(s, v, grp);
    var y := GroupTarget(g, s, gray, v, grp);
    TopIsNotAlone(g, s, gray, v, y);
    LeftParent(g, s, s', gray, v);
    assert y in s'.onpath && s'.index[y] == s'.group[v];
    assert Leads(g, s', v);
  }

  lemma GroupTarget(g: Graph, s: Tables, gray: seq<VexIdx>, v: VexIdx, grp: nat) returns (y: VexIdx)
    requires Leaving(g, s, gray, v, grp)
    ensures y in s.onpath && y in s.visited && s.index[y] == grp && Reaches(g, v, y)
  {
    if grp == s.index[v] {
      y := v;
      PathSingle(g, v);
      assert GrayAt(s, gray[|gray| - 1]);
    } else {
      var t :| g.Edge(v, t) && t in s.onpath && t in s.visited && s.group[t] == grp;
      ReachesEdge(g, v, t);
      if t in gray {
        y := t;
        var k :| 0 <= k < |gray| && gray[k] == t;
        assert GrayAt(s, gray[k]);
      } else {
        assert Known(g, s, gray, t);
        y :| y in s.onpath && y in s.visited && s.index[y] == s.group[t] && Reaches(g, t, y);
        ReachesTrans(g, v, t, y);
      }
    }
  }

  lemma LeaveKeepsScan(g: Graph, s: Tables, gray: seq<VexIdx>, v: VexIdx, grp: nat)
    requires Leaving(g, s, gray, v, grp) && grp < s.index[v]
    ensures ScanInv(g, Regroup(s, v, grp), gray[..|gray| - 1])
  {
    var s', gray' := Regroup(s, v, grp), gray[..|gray| - 1];
    RegroupNumbers(g, s, gray, v, grp);
    LeftWaits(g, s, gray, v, grp);
    LeaveGray(g, s, gray, v, grp);
    forall x | x in s'.visited
      ensures Known(g, s', gray', x)
    {
      assert Known(g, s, gray, x);
      if x !in gray' && x != v {
        assert x !in gray;
        if x in s.onpath {
          LeaveKeepsWaiting(g, s, gray, v, grp, x);
        }
      }
    }
  }

  /** Everything from position k of the path on is taken off it. */
  function Popped(s: Tables, k: nat): Tables
    requires k <= |s.path|
  {
    s.(path := s.path[..k], onpath := s.onpath - SetOf(s.path[k..]))
  }

  lemma PoppedOnPath(s: Tables, k: nat, x: VexIdx)
    requires Numbers(s) && PathSorted(s) && k < |s.path| && s.path[k] in s.visited
    ensures x in Popped(s, k).onpath <==> x in s.onpath && x in s.visited && s.index[x] < s.index[s.path[k]]
    ensures x in Popped(s, k).onpath <==> x in s.path[..k]
  {
    if x in s.onpath {
      var i :| 0 <= i < |s.path| && s.path[i] == x;
      PositionOnPath(s, k, i);
    }
  }

  /** The path is cut at position k between the smaller and the larger numbers. */
  lemma PositionOnPath(s: Tables, k: nat, i: nat)
    requires Numbers(s) && PathSorted(s) && k < |s.path| && i < |s.path|
    ensures s.path[k] in s.visited && s.path[i] in s.visited
    ensures i < k <==> s.index[s.path[i]] < s.index[s.path[k]]
    ensures s.path[i] in s.path[k..] <==> k <= i
    ensures s.path[i] in s.path[..k] <==> i < k
  {
    assert s.path[k] in SetOf(s.path) && s.path[i] in SetOf(s.path);
    if k <= i {
      assert s.path[k..][i - k] == s.path[i];
    } else {
      assert s.path[..k][i] == s.path[i];
    }
  }

  lemma PopKeepsNumbers(g: Graph, s: Tables, gray: seq<VexIdx>, k: nat)
    requires ScanInv(g, s, gray) && k < |s.path| && s.path[k] in s.visited
    ensures Numbers(Popped(s, k)) && Distinct(Popped(s, k)) && PathSorted(Popped(s, k))
  {
    var s' := Popped(s, k);
    assert Numbers(s');
    forall x, y | SameIndex(s', x, y)
      ensures x == y
    {
      assert SameIndex(s, x, y);
    }
    forall x
      ensures x in s'.onpath <==> x in s'.path
    {
      PoppedOnPath(s, k, x);
    }
    forall i | 0 <= i < |s'.path|
      ensures s'.path[i] in s'.onpath
    {
      assert s'.path[i] in s'.path;
    }
    assert SetOf(s'.path) == s'.onpath;
  }

  lemma PopGray(g: Graph, s: Tables, gray: seq<VexIdx>, v: VexIdx, grp: nat, k: nat)
    requires Leaving(g, s, gray, v, grp) && k < |s.path| && s.path[k] == v
    ensures Numbers(Popped(s, k)) && GrayPath(g, Popped(s, k), gray[..|gray| - 1])
  {
    PopAscends(s, gray, k);
    PopStarts(s, gray, k);
    var gray' := gray[..|gray| - 1];
    forall i: nat | i + 1 < |gray'|
      ensures Hop(g, gray', i)
    {
      assert Hop(g, gray, i);
    }
  }

  lemma PopAscends(s: Tables, gray: seq<VexIdx>, k: nat)
    requires Numbers(s) && PathSorted(s) && GrayAscends(s, gray) && gray != []
    requires k < |s.path| && s.path[k] == gray[|gray| - 1]
    ensures Numbers(Popped(s, k)) && GrayAscends(Popped(s, k), gray[..|gray| - 1])
  {
    forall i | 0 <= i < |gray| - 1
      ensures GrayAt(Popped(s, k), gray[i])
    {
      assert GrayAt(s, gray[i]) && GrayAt(s, gray[|gray| - 1]);
      PoppedOnPath(s, k, gray[i]);
    }
  }

  /** What is left of the path still begins with the root. */
  lemma PopStarts(s: Tables, gray: seq<VexIdx>, k: nat)
    requires Numbers(s) && PathSorted(s) && GrayAscends(s, gray) && gray != []
    requires k < |s.path| && s.path[k] == gray[|gray| - 1] && gray[0] == s.path[0]
    ensures |gray| == 1 <==> k == 0
  {
    assert GrayAt(s, gray[|gray| - 1]);
    PositionOnPath(s, k, 0);
  }

  lemma PopKeepsParent(g: Graph, s: Tables, gray: seq<VexIdx>, v: VexIdx, k: nat, x: VexIdx)
    requires ScanInv(g, s, gray) && gray != [] && v == gray[|gray| - 1] && k < |s.path| && s.path[k] == v
    requires v in s.visited && Numbers(Popped(s, k)) && x in s.visited && x in Popped(s, k).onpath
    requires HasParent(g, s, gray, x)
    ensures HasParent(g, Popped(s, k), gray[..|gray| - 1], x)
  {
    PoppedOnPath(s, k, x);
    var z :| ParentOf(g, s, gray, z, x);
    PoppedOnPath(s, k, z);
    ButLast(gray, z);
    ParentKept(g, s, Popped(s, k), gray, gray[..|gray| - 1], z, x);
  }

  lemma PopKeepsWaiting(g: Graph, s: Tables, gray: seq<VexIdx>, v: VexIdx, grp: nat, k: nat, x: VexIdx)
    requires Leaving(g, s, gray, v, grp) && k < |s.path| && s.path[k] == v
    requires Numbers(Popped(s, k)) && x in s.visited && x !in gray && x in Popped(s, k).onpath
    ensures Waiting(g, Popped(s, k), gray[..|gray| - 1], x)
  {
    var s' := Popped(s, k);
    PoppedOnPath(s, k, x);
    assert Known(g, s, gray, x);
    var y :| y in s.onpath && y in s.visited && s.index[y] == s.group[x] && Reaches(g, x, y);
    PoppedOnPath(s, k, y);
    assert y in s'.onpath && s'.index[y] == s'.group[x];
    PopKeepsParent(g, s, gray, v, k, x);
    assert s'.onpath <= s.onpath;
  }

  /** A vertex taken off the path has only successors that are off the path too. */
  lemma PoppedIsClosed(g: Graph, s: Tables, gray: seq<VexIdx>, v: VexIdx, grp: nat, k: nat, x: VexIdx, t: VexIdx)
    requires Leaving(g, s, gray, v, grp) && grp == s.index[v] && k < |s.path| && s.path[k] == v
    requires x in s.visited && (x !in gray || x == v) && x !in Popped(s, k).onpath && g.Edge(x, t)
    ensures t in s.visited && t !in Popped(s, k).onpath
  {
    PoppedOnPath(s, k, x);
    PoppedOnPath(s, k, t);
    if x != v {
      assert Known(g, s, gray, x);
      if x in s.onpath {
        assert !SameIndex(s, x, v);
        GroupsBehind(g, s, gray, v, grp, x);
      }
    }
  }

  lemma PopKeepsScan(g: Graph, s: Tables, gray: seq<VexIdx>, v: VexIdx, grp: nat, k: nat)
    requires Leaving(g, s, gray, v, grp) && grp == s.index[v] && k < |s.path| && s.path[k] == v
    ensures Regroup(s, v, grp) == s
    ensures ScanInv(g, Popped(s, k), gray[..|gray| - 1])
  {
    var s', gray' := Popped(s, k), gray[..|gray| - 1];
    assert GrayAt(s, gray[|gray| - 1]);
    assert s.group[v := grp] == s.group;
    PopKeepsNumbers(g, s, gray, k);
    PopGray(g, s, gray, v, grp, k);
    forall x | x in s'.visited
      ensures Known(g, s', gray', x)
    {
      if x !in gray' {
        assert x !in gray || x == v;
        if x in s'.onpath {
          PoppedOnPath(s, k, x);
          PopKeepsWaiting(g, s, gray, v, grp, k, x);
          assert Known(g, s, gray, x);
        } else {
          forall t | g.Edge(x, t)
            ensures t in s'.visited && t !in s'.onpath
          {
            PoppedIsClosed(g, s, gray, v, grp, k, x, t);
          }
        }
      }
    }
  }

  // ---- Reporting ----

  /** v joins the set of its group, which is created on demand. */
  function AddToGroup(s: Tables, v: VexIdx, grp: nat): Tables {
    if grp in s.group2bs && s.group2bs[grp] < |s.sccs| then
      s.(sccs := s.sccs[s.group2bs[grp] := s.sccs[s.group2bs[grp]] + {v}])
    else
      s.(sccs := s.sccs + [{v}], group2bs := s.group2bs[grp := |s.sccs|])
  }

  lemma AddMember(s: Tables, v: VexIdx, grp: nat, x: VexIdx)
    requires grp in s.group2bs ==> s.group2bs[grp] < |s.sccs|
    ensures InSome(AddToGroup(s, v, grp), x) <==> InSome(s, x) || x == v
  {
    var s' := AddToGroup(s, v, grp);
    if InSome(s, x) {
      var k :| 0 <= k < |s.sccs| && x in s.sccs[k];
      assert x in s'.sccs[k];
    }
    if x == v {
      assert v in s'.sccs[s'.group2bs[grp]];
    }
  }

  lemma AddKeepsSets(g: Graph, s: Tables, v: VexIdx, grp: nat)
    requires SetsOk(g, s) && SetMember(g, s, grp, v) && !InSome(s, v)
    ensures SetsOk(g, AddToGroup(s, v, grp))
    ensures forall x :: InSome(AddToGroup(s, v, grp), x) <==> InSome(s, x) || x == v
  {
    var s' := AddToGroup(s, v, grp);
    AddKeepsGroups(g, s, v, grp, s');
    AddKeepsDisjoint(g, s, v, grp, s');
    forall x
      ensures InSome(s', x) <==> InSome(s, x) || x == v
    {
      AddMember(s, v, grp, x);
    }
    forall a, x | a in s'.group2bs && s'.group2bs[a] < |s'.sccs| && x in s'.sccs[s'.group2bs[a]]
      ensures SetMember(g, s', a, x)
    {
      assert SetMember(g, s, a, x);
    }
  }

  lemma AddKeepsGroups(g: Graph, s: Tables, v: VexIdx, grp: nat, s': Tables)
    requires SetsOk(g, s) && s' == AddToGroup(s, v, grp)
    ensures forall k {:trigger HasGroup(s', k)} :: 0 <= k < |s'.sccs| ==> HasGroup(s', k)
  {
    forall k | 0 <= k < |s'.sccs|
      ensures HasGroup(s', k)
    {
      if k < |s.sccs| {
        assert HasGroup(s, k);
        var a :| a in s.group2bs && s.group2bs[a] == k;
        assert s'.group2bs[a] == k;
      } else {
        assert s'.group2bs[grp] == k;
      }
    }
  }

  lemma AddKeepsDisjoint(g: Graph, s: Tables, v: VexIdx, grp: nat, s': Tables)
    requires SetsOk(g, s) && s' == AddToGroup(s, v, grp) && !InSome(s, v)
    ensures forall k, l :: 0 <= k < l < |s'.sccs| ==> s'.sccs[k] !! s'.sccs[l]
  {
    forall k, l | 0 <= k < l < |s'.sccs|
      ensures s'.sccs[k] !! s'.sccs[l]
    {
      assert k < |s.sccs| ==> v !in s.sccs[k];
      assert l < |s.sccs| ==> v !in s.sccs[l];
    }
  }

  lemma LeaveReports(g: Graph, s: Tables, s': Tables, gray: seq<VexIdx>, v: VexIdx, grp: nat, found: bool)
    requires Leaving(g, s, gray, v, grp) && ReportInv(g, s, gray)
    requires found <==> exists t :: g.Edge(v, t) && t in s.onpath
    requires var s1 := if found then AddToGroup(s, v, grp) else s;
      s'.sccs == s1.sccs && s'.group2bs == s1.group2bs
    requires SameNumbers(Regroup(s, v, grp), s')
    ensures ReportInv(g, s', gray[..|gray| - 1])
  {
    LeaveSettled(g, s, s', gray, v, grp);
    LeaveSets(g, s, s', gray, v, grp, found);
    forall x | x in s'.visited
      ensures Reported(g, s', gray[..|gray| - 1], x)
    {
      assert Reported(g, s, gray, x);
      LeaveReported(g, s, s', gray, v, grp, found, x);
    }
  }

  lemma LeaveReported(g: Graph, s: Tables, s': Tables, gray: seq<VexIdx>, v: VexIdx, grp: nat, found: bool, x: VexIdx)
    requires Leaving(g, s, gray, v, grp) && Reported(g, s, gray, x)
    requires found <==> exists t :: g.Edge(v, t) && t in s.onpath
    requires InSome(s', x) <==> InSome(s, x) || (found && x == v)
    ensures Reported(g, s', gray[..|gray| - 1], x)
  {
    CycleIffSuccOnPath(g, s, gray, v);
    TopOnce(g, s, gray);
    ButLast(gray, x);
  }

  lemma JoinsItsGroup(g: Graph, s: Tables, gray: seq<VexIdx>, v: VexIdx, grp: nat)
    requires Leaving(g, s, gray, v, grp)
    ensures SetMember(g, Regroup(s, v, grp), grp, v)
  {
    var y := GroupTarget(g, s, gray, v, grp);
    PathReachesTop(g, s, gray, y);
  }

  /** The sets keep their groups, and the vertex being left joins the set of its own. */
  lemma LeaveSets(g: Graph, s: Tables, s': Tables, gray: seq<VexIdx>, v: VexIdx, grp: nat, found: bool)
    requires Leaving(g, s, gray, v, grp) && ReportInv(g, s, gray)
    requires found <==> exists t :: g.Edge(v, t) && t in s.onpath
    requires var s1 := if found then AddToGroup(s, v, grp) else s;
      s'.sccs == s1.sccs && s'.group2bs == s1.group2bs
    requires SameNumbers(Regroup(s, v, grp), s')
    ensures SetsOk(g, s')
    ensures forall x :: InSome(s', x) <==> InSome(s, x) || (found && x == v)
  {
    assert Reported(g, s, gray, v);
    var r := Regroup(s, v, grp);
    RegroupSets(g, s, v, grp);
    var s1 := if found then AddToGroup(r, v, grp) else r;
    if found {
      JoinsItsGroup(g, s, gray, v, grp);
      AddKeepsSets(g, r, v, grp);
    }
    SetsCarryOver(g, s1, s');
    assert forall x :: InSome(r, x) <==> InSome(s, x);
  }

  ghost predicate SameNumbers(s: Tables, s': Tables) {
    s'.visited == s.visited && s'.index == s.index && s'.group == s.group && s'.count == s.count
  }

  /** The group of a vertex that is in no set yet may change. */
  lemma RegroupSets(g: Graph, s: Tables, v: VexIdx, grp: nat)
    requires SetsOk(g, s) && !InSome(s, v) && v in s.visited && s.group.Keys == s.visited
    ensures SetsOk(g, Regroup(s, v, grp))
  {
    var s' := Regroup(s, v, grp);
    forall k | 0 <= k < |s'.sccs|
      ensures HasGroup(s', k)
    {
      assert HasGroup(s, k);
    }
    forall a, x | a in s'.group2bs && s'.group2bs[a] < |s'.sccs| && x in s'.sccs[s'.group2bs[a]]
      ensures SetMember(g, s', a, x)
    {
      assert SetMember(g, s, a, x);
      assert x != v;
    }
  }

  // ---- The numbers and groups as a vertex is left ----

  lemma LeaveSettled(g: Graph, s: Tables, s': Tables, gray: seq<VexIdx>, v: VexIdx, grp: nat)
    requires Leaving(g, s, gray, v, grp) && Settled(g, s, gray) && SameNumbers(Regroup(s, v, grp), s')
    ensures Settled(g, s', gray[..|gray| - 1])
  {
    var last :| SettledBy(g, s, gray, last);
    var last', gray' := last[v := s.count], gray[..|gray| - 1];
    TopOnce(g, s, gray);
    LeaveAllLead(g, s, s', gray, v, grp);
    LeaveLeftAt(g, s, s', gray, v, last, last');
    LeaveNested(g, s, s', gray, v, grp, last, last');
    LeaveGroups(g, s, s', gray, v, grp, last, last');
    assert SettledBy(g, s', gray', last');
  }

  lemma LeaveAllLead(g: Graph, s: Tables, s': Tables, gray: seq<VexIdx>, v: VexIdx, grp: nat)
    requires Leaving(g, s, gray, v, grp) && AllLead(g, s, gray) && SameNumbers(Regroup(s, v, grp), s')
    ensures Numbers(s') && AllLead(g, s', gray[..|gray| - 1])
  {
    assert Numbers(s');
    forall x | x in s'.visited
      ensures LeadsSoFar(g, s', gray[..|gray| - 1], x)
    {
      LeaveLeads(g, s, s', gray, v, grp, x);
    }
  }

  /** The top has the largest number of all vertices that have not been left. */
  lemma TopIsLargest(g: Graph, s: Tables, gray: seq<VexIdx>, x: VexIdx)
    requires ScanInv(g, s, gray) && x in gray
    ensures x in s.visited && gray[|gray| - 1] in s.visited && s.index[x] <= s.index[gray[|gray| - 1]]
  {
    var i :| 0 <= i < |gray| && gray[i] == x;
    assert GrayAt(s, gray[i]) && GrayAt(s, gray[|gray| - 1]);
  }

  lemma LeaveLeftAt(g: Graph, s: Tables, s': Tables, gray: seq<VexIdx>, v: VexIdx, last: Numbering, last': Numbering)
    requires LeftAt(g, s, gray, last) && last' == last[v := s.count]
    requires s'.visited == s.visited && s'.index == s.index && s'.count == s.count && Numbers(s')
    requires gray != [] && v == gray[|gray| - 1] && v in s.visited && v !in gray[..|gray| - 1]
    requires forall t :: g.Edge(v, t) ==> t in s.visited
    ensures LeftAt(g, s', gray[..|gray| - 1], last')
  {
    LeftKeys(s, gray, last, last');
  }

  lemma LeaveNested(g: Graph, s: Tables, s': Tables, gray: seq<VexIdx>, v: VexIdx, grp: nat,
                    last: Numbering, last': Numbering)
    requires Leaving(g, s, gray, v, grp) && LeftAt(g, s, gray, last) && AllNested(s, last)
    requires SameNumbers(Regroup(s, v, grp), s') && last' == last[v := s.count]
    ensures AllNested(s', last')
  {
    forall a, b | a in s'.visited && b in s'.visited
      ensures Nested(s'.index, last', a, b)
    {
      assert Nested(s.index, last, a, b);
      if b in gray {
        TopIsLargest(g, s, gray, b);
      }
    }
  }

  lemma LeftKeys(s: Tables, gray: seq<VexIdx>, last: Numbering, last': Numbering)
    requires gray != [] && gray[|gray| - 1] in s.visited && gray[|gray| - 1] !in gray[..|gray| - 1]
    requires last.Keys == s.visited - SetOf(gray) && last' == last[gray[|gray| - 1] := s.count]
    ensures last'.Keys == s.visited - SetOf(gray[..|gray| - 1])
  {
    forall x
      ensures x in last' <==> x in s.visited && x !in gray[..|gray| - 1]
    {
      ButLast(gray, x);
    }
  }

  lemma LeaveLeads(g: Graph, s: Tables, s': Tables, gray: seq<VexIdx>, v: VexIdx, grp: nat, x: VexIdx)
    requires Leaving(g, s, gray, v, grp) && SameNumbers(Regroup(s, v, grp), s') && Numbers(s')
    requires x in s.visited && LeadsSoFar(g, s, gray, x)
    ensures LeadsSoFar(g, s', gray[..|gray| - 1], x)
  {
    ButLast(gray, x);
    if LeadsToNext(g, s, x) {
      var t :| g.Edge(x, t) && t in s.visited && s.index[t] == s.index[x] + 1;
      assert s'.index[t] == s'.index[x] + 1;
    }
  }

  lemma LeaveGroups(g: Graph, s: Tables, s': Tables, gray: seq<VexIdx>, v: VexIdx, grp: nat,
                    last: Numbering, last': Numbering)
    requires Leaving(g, s, gray, v, grp) && SettledBy(g, s, gray, last)
    requires SameNumbers(Regroup(s, v, grp), s') && last' == last[v := s.count]
    ensures GroupsAre(g, s', last')
  {
    assert v in gray;
    forall x | x in last'
      ensures GroupIs(g, s'.index, last', s'.group, x)
    {
      if x == v {
        LeftGroupIs(g, s, gray, v, grp, last, last');
      } else {
        assert GroupIs(g, s.index, last, s.group, x);
        forall t | g.Edge(x, t)
          ensures t in s.visited && Seen(s'.index, last', s'.group, x, t) == Seen(s.index, last, s.group, x, t)
        {
          LooksTheSame(g, s, gray, v, grp, last, last', x, t);
        }
        GroupStays(g, s.index, s.group, last, s'.index, s'.group, last', x);
      }
    }
  }

  /** Leaving v changes nothing for those left before. */
  lemma LooksTheSame(g: Graph, s: Tables, gray: seq<VexIdx>, v: VexIdx, grp: nat, last: Numbering, last': Numbering,
                     x: VexIdx, t: VexIdx)
    requires Leaving(g, s, gray, v, grp) && SettledBy(g, s, gray, last) && last' == last[v := s.count]
    requires x in last && g.Edge(x, t)
    ensures t in s.visited
    ensures Seen(s.index, last', s.group[v := grp], x, t) == Seen(s.index, last, s.group, x, t)
  {
    if t == v {
      assert v in gray;
      assert Nested(s.index, last, x, v);
    }
  }

  /** The group of the vertex being left is the least one it sees. */
  lemma LeftGroupIs(g: Graph, s: Tables, gray: seq<VexIdx>, v: VexIdx, grp: nat, last: Numbering, last': Numbering)
    requires Leaving(g, s, gray, v, grp) && SettledBy(g, s, gray, last) && last' == last[v := s.count]
    ensures GroupIs(g, s.index, last', s.group[v := grp], v)
  {
    forall t | NextOnCycle(g, v, t)
      ensures t in s.visited && grp <= s.group[t] == Seen(s.index, last', s.group[v := grp], v, t)
    {
      SeesNext(g, s, gray, v, grp, last, last', t);
    }
    var c := v;
    if OnCycle(g, v) {
      c := LeastSeen(g, s, gray, v, grp);
      SeesNext(g, s, gray, v, grp, last, last', c);
    } else {
      CycleIffSuccOnPath(g, s, gray, v);
    }
    GroupFound(g, s.index, last', s.group[v := grp], v, c);
  }

  lemma SeesNext(g: Graph, s: Tables, gray: seq<VexIdx>, v: VexIdx, grp: nat, last: Numbering, last': Numbering,
                 t: VexIdx)
    requires Leaving(g, s, gray, v, grp) && SettledBy(g, s, gray, last) && last' == last[v := s.count]
    requires NextOnCycle(g, v, t)
    ensures t in s.visited && grp <= s.group[t] == Seen(s.index, last', s.group[v := grp], v, t)
  {
    OnPathIffBack(g, s, gray, t);
    SeenIsGroup(g, s, gray, v, grp, last, last', t);
  }

  lemma LeastSeen(g: Graph, s: Tables, gray: seq<VexIdx>, v: VexIdx, grp: nat) returns (c: VexIdx)
    requires Leaving(g, s, gray, v, grp) && OnCycle(g, v)
    ensures NextOnCycle(g, v, c) && c in s.visited && s.group[c] == grp
  {
    var t :| g.Edge(v, t) && Reaches(g, t, v);
    OnPathIffBack(g, s, gray, t);
    c := SmallGroupSucc(g, s, gray, v, t);
    if s.group[c] != grp {
      c :| g.Edge(v, c) && c in s.onpath && c in s.visited && s.group[c] == grp;
    }
    OnPathIffBack(g, s, gray, c);
  }

  lemma SeenIsGroup(g: Graph, s: Tables, gray: seq<VexIdx>, v: VexIdx, grp: nat, last: Numbering, last': Numbering,
                    t: VexIdx)
    requires Leaving(g, s, gray, v, grp) && SettledBy(g, s, gray, last) && last' == last[v := s.count]
    requires t in s.visited
    ensures Seen(s.index, last', s.group[v := grp], v, t) == s.group[t]
  {
    assert v in gray && GrayAt(s, gray[|gray| - 1]);
    if t in gray {
      TopIsLargest(g, s, gray, t);
      var i :| 0 <= i < |gray| && gray[i] == t;
      assert GrayAt(s, gray[i]);
    } else {
      assert Nested(s.index, last, t, v);
      assert t in last;
      assert !SameIndex(s, t, v);
    }
  }

  lemma TopOnce(g: Graph, s: Tables, gray: seq<VexIdx>)
    requires ScanInv(g, s, gray) && gray != []
    ensures gray[|gray| - 1] !in gray[..|gray| - 1]
  {
    var front := gray[..|gray| - 1];
    forall i | 0 <= i < |front|
      ensures front[i] != gray[|gray| - 1]
    {
      assert s.index[gray[i]] < s.index[gray[|gray| - 1]];
    }
  }

  lemma SetsCarryOver(g: Graph, s: Tables, s': Tables)
    requires SetsOk(g, s) && s'.sccs == s.sccs && s'.group2bs == s.group2bs
    requires SameNumbers(s, s')
    ensures SetsOk(g, s')
    ensures forall x :: InSome(s', x) <==> InSome(s, x)
  {
    forall k | 0 <= k < |s'.sccs|
      ensures HasGroup(s', k)
    {
      assert HasGroup(s, k);
    }
    forall a, x | a in s'.group2bs && s'.group2bs[a] < |s'.sccs| && x in s'.sccs[s'.group2bs[a]]
      ensures SetMember(g, s', a, x)
    {
      assert SetMember(g, s, a, x);
    }
  }

  /** The scan's own invariant does not depend on what has been reported. */
  lemma ScanCarriesOver(g: Graph, s: Tables, s': Tables, gray: seq<VexIdx>)
    requires ScanInv(g, s, gray)
    requires s' == s.(sccs := s'.sccs, group2bs := s'.group2bs)
    ensures ScanInv(g, s', gray)
  {
    assert Numbers(s');
    forall x, y | SameIndex(s', x, y)
      ensures x == y
    {
      assert SameIndex(s, x, y);
    }
    forall i | 0 <= i < |gray|
      ensures GrayAt(s', gray[i])
    {
      assert GrayAt(s, gray[i]);
    }
    forall x | x in s'.visited
      ensures Known(g, s', gray, x)
    {
      assert Known(g, s, gray, x);
      if x !in gray && x in s.onpath {
        WaitingCarriesOver(g, s, s', gray, x);
      }
    }
  }

  lemma WaitingCarriesOver(g: Graph, s: Tables, s': Tables, gray: seq<VexIdx>, x: VexIdx)
    requires Numbers(s) && Numbers(s') && x in s.visited && Waiting(g, s, gray, x)
    requires s' == s.(sccs := s'.sccs, group2bs := s'.group2bs)
    ensures Waiting(g, s', gray, x)
  {
    var y :| y in s.onpath && y in s.visited && s.index[y] == s.group[x] && Reaches(g, x, y);
    assert y in s'.onpath && s'.index[y] == s'.group[x];
    var z :| ParentOf(g, s, gray, z, x);
    assert ParentOf(g, s', gray, z, x);
  }

  /** Both outcomes of leaving a vertex keep the invariant of the scan. */
  lemma LeaveScan(g: Graph, s: Tables, s': Tables, gray: seq<VexIdx>, v: VexIdx, grp: nat, k: nat)
    requires Leaving(g, s, gray, v, grp) && k < |s.path| && s.path[k] == v
    requires var s1 := if grp == s.index[v] then Popped(s, k) else Regroup(s, v, grp);
      s' == s1.(group := s.group[v := grp], sccs := s'.sccs, group2bs := s'.group2bs)
    ensures ScanInv(g, s', gray[..|gray| - 1])
  {
    if grp == s.index[v] {
      PopKeepsScan(g, s, gray, v, grp, k);
      ScanCarriesOver(g, Popped(s, k), s', gray[..|gray| - 1]);
    } else {
      LeaveKeepsScan(g, s, gray, v, grp);
      ScanCarriesOver(g, Regroup(s, v, grp), s', gray[..|gray| - 1]);
    }
  }

  lemma TopOnPath(g: Graph, s: Tables, gray: seq<VexIdx>, v: VexIdx) returns (k: nat)
    requires ScanInv(g, s, gray) && gray != [] && v == gray[|gray| - 1]
    ensures k < |s.path| && s.path[k] == v && NoDup(s.path)
  {
    assert GrayAt(s, gray[|gray| - 1]);
    k :| 0 <= k < |s.path| && s.path[k] == v;
    PathNoDup(s);
  }

  // ---- The group of a vertex ----

  /** Some successor on the path has the group grp. */
  ghost predicate SuccOfGroup(g: Graph, s: Tables, v: VexIdx, grp: nat)
    requires Numbers(s)
  {
    exists t :: g.Edge(v, t) && t in s.onpath && t in s.visited && s.group[t] == grp
  }

  /** After the first n successors. */
  ghost predicate GroupUpTo(g: Graph, s: Tables, v: VexIdx, n: nat, grp: nat, found: bool)
    requires Numbers(s) && s.onpath <= s.visited && v in s.visited && v in g.outs && n <= |g.outs[v]|
  {
    && UNDEF_GROUP < grp <= s.index[v]
    && (forall k :: 0 <= k < n && g.outs[v][k] in s.onpath ==> grp <= s.group[g.outs[v][k]])
    && (found ==> SuccOfGroup(g, s, v, grp))
    && (!found ==> grp == s.index[v])
    && (!found ==> forall k :: 0 <= k < n && g.outs[v][k] in s.onpath ==> s.index[v] < s.group[g.outs[v][k]])
  }

  lemma GroupStep(g: Graph, s: Tables, v: VexIdx, i: nat, grp: nat, found: bool, next: nat, grp': nat, found': bool)
    requires Numbers(s) && s.onpath <= s.visited && v in s.visited && v in g.outs && i < |g.outs[v]|
    requires next == i + 1 && GroupUpTo(g, s, v, i, grp, found)
    requires if g.outs[v][i] in s.onpath then
               && grp' == (if grp <= s.group[g.outs[v][i]] then grp else s.group[g.outs[v][i]])
               && (found' <==> found || grp' == s.group[g.outs[v][i]])
             else grp' == grp && found' == found
    ensures GroupUpTo(g, s, v, next, grp', found')
  {
    var t := g.outs[v][i];
    assert g.Edge(v, t);
    if t in s.onpath && s.group[t] == grp' {
      assert SuccOfGroup(g, s, v, grp');
    }
  }

  lemma GroupDone(g: Graph, s: Tables, gray: seq<VexIdx>, v: VexIdx, grp: nat, found: bool)
    requires ScanInv(g, s, gray) && gray != [] && v == gray[|gray| - 1] && v in s.visited && v in g.outs
    requires GroupUpTo(g, s, v, |g.outs[v]|, grp, found)
    ensures GroupFor(g, s, v, grp)
    ensures found <==> exists t :: g.Edge(v, t) && t in s.onpath
  {
    if exists t :: g.Edge(v, t) && t in s.onpath {
      var t :| g.Edge(v, t) && t in s.onpath;
      var c := SmallGroupSucc(g, s, gray, v, t);
      var k :| 0 <= k < |g.outs[v]| && g.outs[v][k] == c;
    }
    forall t | g.Edge(v, t) && t in s.onpath && t in s.visited
      ensures grp <= s.group[t]
    {
      var k :| 0 <= k < |g.outs[v]| && g.outs[v][k] == t;
    }
  }

  // ---- The scan ----

  class SCC {
    const g: Graph
    /** The reported sets. */
    var sccs: seq<set<VexIdx>>

    constructor (g: Graph)
      ensures this.g == g && sccs == []
    {
      this.g := g;
      sccs := [];
    }

    /** The first successor that has not been entered, or VERTEX_UNDEF. */
    static method UnvisitedSucc(g: Graph, v: VexIdx, visited: set<VexIdx>) returns (succ: VexIdx, ghost at: nat)
      requires g.Valid() && v in g.Vs()
      ensures succ == VERTEX_UNDEF ==> forall t :: g.Edge(v, t) ==> t in visited
      ensures succ != VERTEX_UNDEF ==> g.Edge(v, succ) && succ !in visited && succ in g.Vs()
      ensures succ != VERTEX_UNDEF ==>
                at < |g.outs[v]| && g.outs[v][at] == succ && forall k :: 0 <= k < at ==> g.outs[v][k] in visited
    {
      at := 0;
      for i := 0 to |g.outs[v]|
        invariant forall k :: 0 <= k < i ==> g.outs[v][k] in visited
      {
        succ := g.outs[v][i];
        if succ !in visited {
          assert g.Edge(v, succ);
          at := i;
          return;
        }
      }
      succ := VERTEX_UNDEF;
    }

    /** The group of the vertex being left, and whether it belongs to a set. */
    static method GroupOf(g: Graph, s: Tables, v: VexIdx, ghost gray: seq<VexIdx>) returns (vGroup: nat, findScc: bool)
      requires ScanInv(g, s, gray) && gray != [] && v == gray[|gray| - 1] && v in s.visited
      requires forall t :: g.Edge(v, t) ==> t in s.visited
      ensures Leaving(g, s, gray, v, vGroup)
      ensures findScc <==> exists t :: g.Edge(v, t) && t in s.onpath
    {
      assert GrayAt(s, gray[|gray| - 1]);
      vGroup, findScc := s.group[v], false;
      for i := 0 to |g.outs[v]|
        invariant GroupUpTo(g, s, v, i, vGroup, findScc)
      {
        var succ := g.outs[v][i];
        assert g.Edge(v, succ);
        ghost var grp, found := vGroup, findScc;
        if succ in s.onpath {
          var succGroup := s.group[succ];
          vGroup := if vGroup <= succGroup then vGroup else succGroup;
          if vGroup == succGroup {
            findScc := true;
          }
        }
        GroupStep(g, s, v, i, grp, found, i + 1, vGroup, findScc);
      }
      GroupDone(g, s, gray, v, vGroup, findScc);
    }

    /** Takes v and everything behind it off the path. */
    static method PopPath(s0: Tables, v: VexIdx, ghost k: nat) returns (s: Tables)
      requires k < |s0.path| && s0.path[k] == v && NoDup(s0.path)
      ensures s == Popped(s0, k)
    {
      var path, onpath := s0.path, s0.onpath;
      while path[|path| - 1] != v
        invariant k < |path| <= |s0.path| && path == s0.path[..|path|]
        invariant onpath == s0.onpath - SetOf(s0.path[|path|..])
        decreases |path|
      {
        var t := path[|path| - 1];
        SetOfTail(s0.path, |path| - 1);
        onpath := onpath - {t};
        path := path[..|path| - 1];
      }
      assert |path| - 1 == k;
      SetOfTail(s0.path, k);
      path := path[..|path| - 1];
      onpath := onpath - {v};
      s := s0.(path := path, onpath := onpath);
    }

    /** The group of v is fixed, v is reported if it is on a cycle, and the path is cut at v if it is its own
        group. */
    static method Retire(s0: Tables, v: VexIdx, vGroup: nat, findScc: bool, ghost k: nat) returns (s: Tables)
      requires v in s0.index && k < |s0.path| && s0.path[k] == v && NoDup(s0.path)
      ensures var s1 := if vGroup == s0.index[v] then Popped(s0, k) else s0;
        s == s1.(group := s0.group[v := vGroup], sccs := s.sccs, group2bs := s.group2bs)
      ensures var s2 := if findScc then AddToGroup(s0, v, vGroup) else s0;
        s.sccs == s2.sccs && s.group2bs == s2.group2bs
    {
      s := s0.(group := s0.group[v := vGroup]);
      if findScc {
        s := AddToGroup(s, v, vGroup);
      }
      if vGroup == s.index[v] {
        s := PopPath(s, v, k);
      }
    }

    /** One vertex is left: its group is fixed, it is reported, the path is cut. */
    static method Leave(g: Graph, s0: Tables, v: VexIdx, ghost gray: seq<VexIdx>) returns (s: Tables)
      requires ScanInv(g, s0, gray) && ReportInv(g, s0, gray)
      requires gray != [] && v == gray[|gray| - 1] && v in s0.visited
      requires forall t :: g.Edge(v, t) ==> t in s0.visited
      ensures ScanInv(g, s, gray[..|gray| - 1]) && ReportInv(g, s, gray[..|gray| - 1])
      ensures s.visited == s0.visited && s.index == s0.index && s.count == s0.count
    {
      var vGroup, findScc := GroupOf(g, s0, v, gray);
      ghost var k := TopOnPath(g, s0, gray, v);
      s := Retire(s0, v, vGroup, findScc, k);
      LeaveScan(g, s0, s, gray, v, vGroup, k);
      LeaveReports(g, s0, s, gray, v, vGroup, findScc);
    }

    /** One vertex is entered. */
    static method EnterVertex(g: Graph, s0: Tables, v: VexIdx, ghost gray: seq<VexIdx>) returns (s: Tables)
      requires ScanInv(g, s0, gray) && ReportInv(g, s0, gray)
      requires v in g.Vs() && v !in s0.visited && (gray != [] ==> g.Edge(gray[|gray| - 1], v))
      ensures ScanInv(g, s, gray + [v]) && ReportInv(g, s, gray + [v])
      ensures s.visited == s0.visited + {v} && s.index == s0.index[v := s0.count] && s.count == s0.count + 1
    {
      EnterKeepsScan(g, s0, gray, v);
      EnterKeepsReport(g, s0, gray, v);
      s := NumberVertex(s0, v);
    }

    static method NumberVertex(s0: Tables, v: VexIdx) returns (s: Tables)
      ensures s == Enter(s0, v)
    {
      s := s0.(visited := s0.visited + {v});
      s := s.(index := s.index[v := s.count]);
      s := s.(group := s.group[v := s.count]);
      s := s.(count := s.count + 1);
      s := s.(onpath := s.onpath + {v});
      s := s.(path := s.path + [v]);
    }

    /** The top of the stack, already entered, is continued: either a successor is pushed or
        the vertex is left. */
    static method Continue(g: Graph, s0: Tables, stk0: seq<VexIdx>, ghost rest: seq<VexIdx>)
      returns (s: Tables, stk: seq<VexIdx>, ghost gray: seq<VexIdx>)
      requires stk0 != [] && ScanInv(g, s0, stk0) && ReportInv(g, s0, stk0) && Entering(g, s0, stk0, rest)
      ensures ScanState(g, s, gray, stk) && Entering(g, s, stk, rest)
      ensures s.visited == s0.visited
      ensures stk != [] && stk[|stk| - 1] in s.visited ==> |stk| < |stk0|
    {
      s, stk, gray := s0, stk0, stk0;
      var v := stk[|stk| - 1];
      assert GrayAt(s, stk[|stk| - 1]);
      var succ;
      ghost var at;
      succ, at := UnvisitedSucc(g, v, s.visited);
      if succ != VERTEX_UNDEF {
        SuccPushed(g, s, stk, rest, v, at);
        stk := stk + [succ];
        return;
      }
      stk := stk[..|stk| - 1];
      s := Leave(g, s, v, gray);
      LeftEnters(g, s0, s, stk0, rest, v);
      gray := stk;
    }

    /** The vertex on top of the stack is entered unless it has been. */
    static method EnterTop(g: Graph, s0: Tables, stk: seq<VexIdx>, ghost rest: seq<VexIdx>, ghost gray: seq<VexIdx>)
      returns (s: Tables)
      requires stk != [] && ScanState(g, s0, gray, stk) && Entering(g, s0, stk, rest)
      ensures ScanInv(g, s, stk) && ReportInv(g, s, stk) && Entering(g, s, stk, rest)
      ensures s.visited == s0.visited + {stk[|stk| - 1]}
    {
      s := s0;
      if stk[|stk| - 1] !in s.visited {
        s := EnterNew(g, s, stk, rest, gray);
      } else {
        assert stk == gray;
      }
    }

    static method EnterNew(g: Graph, s0: Tables, stk: seq<VexIdx>, ghost rest: seq<VexIdx>, ghost gray: seq<VexIdx>)
      returns (s: Tables)
      requires stk != [] && ScanState(g, s0, gray, stk) && Entering(g, s0, stk, rest)
      requires stk[|stk| - 1] !in s0.visited
      ensures ScanInv(g, s, stk) && ReportInv(g, s, stk) && Entering(g, s, stk, rest)
      ensures s.visited == s0.visited + {stk[|stk| - 1]}
    {
      var v := stk[|stk| - 1];
      NotEntered(g, s0, gray, stk);
      s := EnterVertex(g, s0, v, gray);
      TopNumbered(g, s0, s, stk, rest, v);
      assert stk == gray + [v];
    }

    /** One round of the scan's loop. */
    static method Step(g: Graph, s0: Tables, stk0: seq<VexIdx>, ghost rest: seq<VexIdx>, ghost gray0: seq<VexIdx>)
      returns (s: Tables, stk: seq<VexIdx>, ghost gray: seq<VexIdx>)
      requires stk0 != [] && ScanState(g, s0, gray0, stk0) && Entering(g, s0, stk0, rest)
      ensures ScanState(g, s, gray, stk) && Entering(g, s, stk, rest)
      ensures s0.visited <= s.visited && stk0[|stk0| - 1] in s.visited
      ensures Nearer(g, s0, stk0, s, stk)
    {
      TopIsVertex(g, s0, gray0, stk0);
      RoomShrinks(g, s0, stk0[|stk0| - 1]);
      s := EnterTop(g, s0, stk0, rest, gray0);
      s, stk, gray := Continue(g, s, stk0, rest);
    }

    /** The scan of everything that root reaches and that has not been entered before. */
    static method ScanNoRecur(g: Graph, root: VexIdx, s0: Tables, ghost rest: seq<VexIdx>) returns (s: Tables)
      requires ScanInv(g, s0, []) && ReportInv(g, s0, []) && Entering(g, s0, [], [root] + rest)
      requires root in g.Vs() && root !in s0.visited
      ensures ScanInv(g, s, []) && ReportInv(g, s, []) && Entering(g, s, [], rest)
      ensures s0.visited <= s.visited && root in s.visited
    {
      ScanStarts(g, s0, root, rest);
      s := RunStack(g, s0, [root], rest);
      ScanEnds(g, s, rest);
    }

    /** Steps until the stack is empty. */
    static method RunStack(g: Graph, s0: Tables, stk0: seq<VexIdx>, ghost rest: seq<VexIdx>) returns (s: Tables)
      requires Scanning(g, s0, stk0, rest) && |stk0| == 1
      ensures Scanning(g, s, [], rest)
      ensures s0.visited <= s.visited && stk0[0] in s.visited
    {
      var stk := stk0;
      s := s0;
      while stk != []
        invariant Scanning(g, s, stk, rest)
        invariant s0.visited <= s.visited
        invariant stk0[0] in s.visited || (stk != [] && stk[|stk| - 1] == stk0[0])
        decreases Room(g, s), TopEntered(s, stk), |stk|
      {
        s, stk := StepOn(g, s, stk, rest);
      }
    }

    static method StepOn(g: Graph, s0: Tables, stk0: seq<VexIdx>, ghost rest: seq<VexIdx>)
      returns (s: Tables, stk: seq<VexIdx>)
      requires stk0 != [] && Scanning(g, s0, stk0, rest)
      ensures Scanning(g, s, stk, rest)
      ensures s0.visited <= s.visited && stk0[|stk0| - 1] in s.visited
      ensures Nearer(g, s0, stk0, s, stk)
    {
      ghost var gray :| ScanState(g, s0, gray, stk0);
      s, stk, gray := Step(g, s0, stk0, rest, gray);
    }

    /** Scans from v unless it has been entered. */
    static method ScanFrom(g: Graph, v: VexIdx, s0: Tables, ghost rest0: seq<VexIdx>)
      returns (s: Tables, ghost rest: seq<VexIdx>)
      requires Between(g, s0, rest0) && v in g.Vs() && rest0 != [] && rest0 == [v] + rest0[1..]
      ensures rest == rest0[1..] && Between(g, s, rest)
      ensures s0.visited <= s.visited && v in s.visited
    {
      s, rest := s0, rest0[1..];
      if v in s.visited {
        RootDone(g, s, v, rest);
        return;
      }
      PathEmpty(g, s);
      s := s.(onpath := {});
      s := s.(path := []);
      s := ScanNoRecur(g, v, s, rest);
    }

    /** Scans from every vertex that has not been entered yet. */
    static method ScanAll(g: Graph) returns (s: Tables)
      requires g.Valid()
      ensures Between(g, s, []) && AllVisited(g, s, [], |g.vertices|)
    {
      s := Tables({}, {}, map[], map[], UNDEF_GROUP + 1, [], map[], []);
      NothingScanned(g, s);
      ghost var rest := g.vertices;
      for i := 0 to |g.vertices|
        invariant Between(g, s, rest)
        invariant AllVisited(g, s, rest, i)
      {
        ghost var s1, rest1 := s, rest;
        RestSplits(g, s, rest, i);
        s, rest := ScanFrom(g, g.vertices[i], s, rest);
        OneMoreVisited(g, s1, rest1, s, rest, i, i + 1);
      }
    }

    /** Reports the vertices on cycles in sets, one for each group of the scan. */
    method FindSCC() returns (ghost num: Numbering, ghost last: Numbering, ghost grp: Numbering)
      requires g.Valid() && sccs == []
      modifies `sccs
      ensures forall v :: v in g.Vs() ==> (InSets(sccs, v) <==> OnCycle(g, v))
      ensures forall k, u, v :: 0 <= k < |sccs| && u in sccs[k] && v in sccs[k] ==> Reaches(g, u, v)
      ensures forall k, l :: 0 <= k < l < |sccs| ==> sccs[k] !! sccs[l]
      ensures forall k, v :: 0 <= k < |sccs| && v in sccs[k] ==> v in g.Vs()
      ensures NumbersInOrder(num, Preorder(g))
      ensures Grouped(g, num, last, grp)
      ensures OneSetPerGroup(sccs, grp)
    {
      var s := ScanAll(g);
      sccs := s.sccs;
      FinalReport(g, s);
      SetsAreGroups(g, s);
      num, grp := s.index, s.group;
      last := FinalNumbers(g, s);
      AllInOrder(g, s);
    }

    /** Whether a vertex is in some reported set. */
    method IsInSCC(vid: VexIdx) returns (found: bool, scc: set<VexIdx>)
      ensures found <==> InSets(sccs, vid)
      ensures found ==> vid in scc && scc in sccs
    {
      for i := 0 to |sccs|
        invariant forall k :: 0 <= k < i ==> vid !in sccs[k]
      {
        if vid in sccs[i] {
          return true, sccs[i];
        }
      }
      found, scc := false, {};
    }
  }

  /** Two vertices in sets are in the same set exactly if they have the same group. */
  ghost predicate OneSetPerGroup(sccs: seq<set<VexIdx>>, grp: Numbering) {
    forall k, l, u, v :: 0 <= k < |sccs| && 0 <= l < |sccs| && u in sccs[k] && v in sccs[l] ==>
                           u in grp && v in grp && (k == l <==> grp[u] == grp[v])
  }

  ghost predicate InSets(sccs: seq<set<VexIdx>>, v: VexIdx) {
    exists k :: 0 <= k < |sccs| && v in sccs[k]
  }

  /** The stack holds the entered vertices, and possibly one more to be entered next. */
  ghost predicate StackOk(g: Graph, s: Tables, gray: seq<VexIdx>, stk: seq<VexIdx>) {
    || stk == gray
    || (&& |stk| == |gray| + 1
        && stk[..|gray|] == gray
        && stk[|gray|] in g.Vs() && stk[|gray|] !in s.visited
        && (gray != [] ==> g.Edge(gray[|gray| - 1], stk[|gray|])))
  }

  /** What makes the loop over the stack end. */
  ghost predicate Nearer(g: Graph, s0: Tables, stk0: seq<VexIdx>, s: Tables, stk: seq<VexIdx>) {
    || Room(g, s) < Room(g, s0)
    || (Room(g, s) == Room(g, s0) && TopEntered(s0, stk0) && (TopEntered(s, stk) ==> |stk| < |stk0|))
  }

  ghost predicate TopEntered(s: Tables, stk: seq<VexIdx>) {
    stk != [] && stk[|stk| - 1] in s.visited
  }

  /** How many vertices are still to be entered. */
  ghost function Room(g: Graph, s: Tables): nat {
    |g.Vs() - s.visited|
  }

  lemma RoomShrinks(g: Graph, s: Tables, v: VexIdx)
    requires v in g.Vs()
    ensures forall s': Tables :: s'.visited == s.visited + {v} ==>
              if v in s.visited then s'.visited == s.visited && Room(g, s') == Room(g, s)
              else Room(g, s') < Room(g, s)
  {
    if v in s.visited {
      assert s.visited + {v} == s.visited;
    } else {
      assert g.Vs() - (s.visited + {v}) == g.Vs() - s.visited - {v};
    }
  }

  ghost predicate ScanState(g: Graph, s: Tables, gray: seq<VexIdx>, stk: seq<VexIdx>) {
    ScanInv(g, s, gray) && ReportInv(g, s, gray) && StackOk(g, s, gray, stk)
  }

  /** Some stack of entered vertices explains the state. */
  ghost predicate Scanning(g: Graph, s: Tables, stk: seq<VexIdx>, rest: seq<VexIdx>) {
    Entering(g, s, stk, rest) && exists gray {:trigger ScanState(g, s, gray, stk)} :: ScanState(g, s, gray, stk)
  }

  // ---- The order in which vertices are entered ----

  /** The numbers 1, 2, ... were given in the order of list. */
  ghost predicate NumbersInOrder(num: Numbering, list: seq<VexIdx>) {
    && (forall v :: v in list <==> v in num)
    && forall k :: 0 <= k < |list| ==> list[k] in num && num[list[k]] == k + 1
  }

  ghost predicate EnteringBy(g: Graph, s: Tables, entered: seq<VexIdx>, stk: seq<VexIdx>, rest: seq<VexIdx>)
    requires g.Valid()
  {
    && s.index.Keys == s.visited && s.count == |entered| + 1 && NumbersInOrder(s.index, entered)
    && Enters(g, s.visited, stk, rest, entered, Preorder(g))
  }

  /** The vertices have been numbered as depth-first search enters them, and it still has stk and then rest to
      visit. */
  ghost predicate Entering(g: Graph, s: Tables, stk: seq<VexIdx>, rest: seq<VexIdx>) {
    g.Valid() && exists entered {:trigger EnteringBy(g, s, entered, stk, rest)} :: EnteringBy(g, s, entered, stk, rest)
  }

  lemma SuccPushed(g: Graph, s: Tables, stk: seq<VexIdx>, rest: seq<VexIdx>, v: VexIdx, at: nat)
    requires Entering(g, s, stk, rest) && stk != [] && v == stk[|stk| - 1] && v in s.visited && v in g.outs
    requires at < |g.outs[v]| && g.outs[v][at] !in s.visited && forall k :: 0 <= k < at ==> g.outs[v][k] in s.visited
    ensures Entering(g, s, stk + [g.outs[v][at]], rest)
  {
    var entered :| EnteringBy(g, s, entered, stk, rest);
    NextEnters(g, s.visited, stk, rest, entered, Preorder(g), v, at);
    assert EnteringBy(g, s, entered, stk + [g.outs[v][at]], rest);
  }

  lemma LeftEnters(g: Graph, s: Tables, s': Tables, stk: seq<VexIdx>, rest: seq<VexIdx>, v: VexIdx)
    requires Entering(g, s, stk, rest) && stk != [] && v == stk[|stk| - 1] && v in s.visited
    requires forall u :: g.Edge(v, u) ==> u in s.visited
    requires s'.visited == s.visited && s'.index == s.index && s'.count == s.count
    ensures Entering(g, s', stk[..|stk| - 1], rest)
  {
    var entered :| EnteringBy(g, s, entered, stk, rest);
    TopLeaves(g, s.visited, stk, rest, entered, Preorder(g), v);
    assert EnteringBy(g, s', entered, stk[..|stk| - 1], rest);
  }

  lemma TopNumbered(g: Graph, s: Tables, s': Tables, stk: seq<VexIdx>, rest: seq<VexIdx>, v: VexIdx)
    requires Entering(g, s, stk, rest) && stk != [] && v == stk[|stk| - 1] && v !in s.visited
    requires s'.visited == s.visited + {v} && s'.index == s.index[v := s.count] && s'.count == s.count + 1
    ensures Entering(g, s', stk, rest)
  {
    var entered :| EnteringBy(g, s, entered, stk, rest);
    TopEnters(g, s.visited, stk, rest, entered, Preorder(g), v);
    NumberedNext(s.index, entered, v);
    assert EnteringBy(g, s', entered + [v], stk, rest);
  }

  lemma NumberedNext(num: Numbering, list: seq<VexIdx>, v: VexIdx)
    requires NumbersInOrder(num, list) && v !in num
    ensures NumbersInOrder(num[v := |list| + 1], list + [v])
  {
    forall k | 0 <= k < |list|
      ensures list[k] != v
    {
      assert list[k] in list;
    }
  }

  lemma RootDone(g: Graph, s: Tables, root: VexIdx, rest: seq<VexIdx>)
    requires Entering(g, s, [], [root] + rest) && root in s.visited
    ensures Entering(g, s, [], rest)
  {
    var entered :| EnteringBy(g, s, entered, [], [root] + rest);
    RootSkipped(g, s.visited, [root] + rest, entered, Preorder(g));
    assert ([root] + rest)[1..] == rest;
    assert EnteringBy(g, s, entered, [], rest);
  }

  lemma AllInOrder(g: Graph, s: Tables)
    requires Entering(g, s, [], [])
    ensures NumbersInOrder(s.index, Preorder(g))
  {
    var entered :| EnteringBy(g, s, entered, [], []);
    assert entered + [] == entered;
  }

  /** Between two scans. */
  ghost predicate Between(g: Graph, s: Tables, rest: seq<VexIdx>) {
    ScanInv(g, s, []) && ReportInv(g, s, []) && Entering(g, s, [], rest)
  }

  /** The first n vertices have been visited, and rest are the others. */
  ghost predicate AllVisited(g: Graph, s: Tables, rest: seq<VexIdx>, n: nat) {
    n <= |g.vertices| && rest == g.vertices[n..] && forall k :: 0 <= k < n ==> g.vertices[k] in s.visited
  }

  lemma OneMoreVisited(g: Graph, s: Tables, rest: seq<VexIdx>, s': Tables, rest': seq<VexIdx>, i: nat, next: nat)
    requires AllVisited(g, s, rest, i) && i < |g.vertices| && next == i + 1 && rest' == rest[1..]
    requires s.visited <= s'.visited && g.vertices[i] in s'.visited
    ensures AllVisited(g, s', rest', next)
  {
  }

  lemma RestSplits(g: Graph, s: Tables, rest: seq<VexIdx>, i: nat)
    requires i < |g.vertices| && AllVisited(g, s, rest, i)
    ensures rest != [] && rest == [g.vertices[i]] + rest[1..] && g.vertices[i] in g.Vs()
  {
  }

  lemma NothingScanned(g: Graph, s: Tables)
    requires g.Valid() && s == Tables({}, {}, map[], map[], UNDEF_GROUP + 1, [], map[], [])
    ensures ScanInv(g, s, []) && ReportInv(g, s, []) && Entering(g, s, [], g.vertices)
  {
    assert SettledBy(g, s, [], map[]);
    EnteringStarts(g);
    assert EnteringBy(g, s, [], [], g.vertices);
  }

  lemma ScanStarts(g: Graph, s: Tables, root: VexIdx, rest: seq<VexIdx>)
    requires ScanInv(g, s, []) && ReportInv(g, s, []) && root in g.Vs() && root !in s.visited
    requires Entering(g, s, [], [root] + rest)
    ensures Scanning(g, s, [root], rest)
  {
    assert ScanState(g, s, [], [root]);
    var entered :| EnteringBy(g, s, entered, [], [root] + rest);
    RootPushed(g, s.visited, [root] + rest, entered, Preorder(g));
    assert ([root] + rest)[1..] == rest;
    assert EnteringBy(g, s, entered, [root], rest);
  }

  lemma ScanEnds(g: Graph, s: Tables, rest: seq<VexIdx>)
    requires Scanning(g, s, [], rest)
    ensures ScanInv(g, s, []) && ReportInv(g, s, []) && Entering(g, s, [], rest)
  {
    var gray :| ScanState(g, s, gray, []);
    assert gray == [];
  }

  lemma TopIsVertex(g: Graph, s: Tables, gray: seq<VexIdx>, stk: seq<VexIdx>)
    requires ScanState(g, s, gray, stk) && stk != []
    ensures stk[|stk| - 1] in g.Vs()
  {
    if stk == gray {
      assert GrayAt(s, gray[|gray| - 1]);
    }
  }

  /** A stack whose top has not been entered is the entered vertices and that top. */
  lemma NotEntered(g: Graph, s: Tables, gray: seq<VexIdx>, stk: seq<VexIdx>)
    requires ScanState(g, s, gray, stk) && stk != [] && stk[|stk| - 1] !in s.visited
    ensures stk == gray + [stk[|stk| - 1]] && stk[|stk| - 1] in g.Vs()
    ensures gray != [] ==> g.Edge(gray[|gray| - 1], stk[|stk| - 1])
  {
    if gray != [] {
      assert GrayAt(s, gray[|gray| - 1]);
    }
  }

  lemma SetOfTail(p: seq<VexIdx>, n: nat)
    requires n < |p|
    ensures SetOf(p[n..]) == SetOf(p[n + 1..]) + {p[n]}
  {
    assert p[n..] == [p[n]] + p[n + 1..];
  }

  lemma PathNoDup(s: Tables)
    requires Numbers(s) && PathSorted(s)
    ensures NoDup(s.path)
  {
    forall i, j | 0 <= i < j < |s.path|
      ensures s.path[i] != s.path[j]
    {
      assert s.index[s.path[i]] < s.index[s.path[j]];
    }
  }

  lemma PathEmpty(g: Graph, s: Tables)
    requires ScanInv(g, s, [])
    ensures s.path == [] && s.onpath == {}
  {
  }

  lemma MembersReachEachOther(g: Graph, s: Tables, k: nat, u: VexIdx, v: VexIdx)
    requires Numbers(s) && Distinct(s) && SetsOk(g, s)
    requires k < |s.sccs| && u in s.sccs[k] && v in s.sccs[k]
    ensures Reaches(g, u, v) && v in s.visited
  {
    assert HasGroup(s, k);
    var grp :| grp in s.group2bs && s.group2bs[grp] == k;
    assert SetMember(g, s, grp, u) && SetMember(g, s, grp, v);
    var y :| y in s.visited && s.index[y] == grp && Reaches(g, u, y) && Reaches(g, y, u);
    var z :| z in s.visited && s.index[z] == grp && Reaches(g, v, z) && Reaches(g, z, v);
    assert SameIndex(s, y, z);
    ReachesTrans(g, u, y, v);
  }

  lemma FinalReport(g: Graph, s: Tables)
    requires ScanInv(g, s, []) && ReportInv(g, s, [])
    requires AllVisited(g, s, [], |g.vertices|)
    ensures forall v :: v in g.Vs() ==> (InSets(s.sccs, v) <==> OnCycle(g, v))
    ensures forall k, u, v :: 0 <= k < |s.sccs| && u in s.sccs[k] && v in s.sccs[k] ==> Reaches(g, u, v)
    ensures forall k, v :: 0 <= k < |s.sccs| && v in s.sccs[k] ==> v in g.Vs()
  {
    forall v | v in g.Vs()
      ensures InSets(s.sccs, v) <==> OnCycle(g, v)
    {
      assert Reported(g, s, [], v);
      assert InSome(s, v) <==> InSets(s.sccs, v);
    }
    forall k, u, v | 0 <= k < |s.sccs| && u in s.sccs[k] && v in s.sccs[k]
      ensures Reaches(g, u, v) && v in g.Vs()
    {
      MembersReachEachOther(g, s, k, u, v);
    }
  }

  /** When nothing is left to do, the tables hold the numbers and groups of a depth-first scan. */
  lemma FinalNumbers(g: Graph, s: Tables) returns (last: Numbering)
    requires ScanInv(g, s, []) && ReportInv(g, s, [])
    requires AllVisited(g, s, [], |g.vertices|)
    ensures Grouped(g, s.index, last, s.group)
  {
    last :| SettledBy(g, s, [], last);
    AllEntered(g, s);
    FinalDfs(g, s, last);
    assert s.group.Keys == g.Vs();
  }

  lemma AllEntered(g: Graph, s: Tables)
    requires s.visited <= g.Vs() && AllVisited(g, s, [], |g.vertices|)
    ensures s.visited == g.Vs()
  {
  }

  lemma FinalDfs(g: Graph, s: Tables, last: Numbering)
    requires g.Valid() && s.visited == g.Vs() && Numbers(s) && Distinct(s) && AllLead(g, s, [])
    requires LeftAt(g, s, [], last) && AllNested(s, last)
    ensures DfsNumbers(g, s.index, last)
  {
    AllLeft(g, s, last);
    FinalLeads(g, s);
    forall u, v | u in s.index && v in s.index && s.index[u] == s.index[v]
      ensures u == v
    {
      assert SameIndex(s, u, v);
    }
  }

  lemma AllLeft(g: Graph, s: Tables, last: Numbering)
    requires LeftAt(g, s, [], last)
    ensures last.Keys == s.visited
  {
    assert SetOf<VexIdx>([]) == {};
  }

  lemma FinalLeads(g: Graph, s: Tables)
    requires Numbers(s) && AllLead(g, s, [])
    ensures forall v {:trigger LeadsOn(g, s.index, v)} :: v in s.index ==> LeadsOn(g, s.index, v)
  {
    forall v | v in s.index
      ensures LeadsOn(g, s.index, v)
    {
      assert LeadsSoFar(g, s, [], v);
    }
  }

  lemma SetsAreGroups(g: Graph, s: Tables)
    requires SetsOk(g, s)
    ensures OneSetPerGroup(s.sccs, s.group)
  {
    forall k, l, u, v | 0 <= k < |s.sccs| && 0 <= l < |s.sccs| && u in s.sccs[k] && v in s.sccs[l]
      ensures u in s.group && v in s.group && (k == l <==> s.group[u] == s.group[v])
    {
      assert HasGroup(s, k) && HasGroup(s, l);
      var a :| a in s.group2bs && s.group2bs[a] == k;
      var b :| b in s.group2bs && s.group2bs[b] == l;
      assert SetMember(g, s, a, u) && SetMember(g, s, b, v);
    }
  }

  /** A cycle without branches is reported as one set. */
  lemma LoneCycleIsOneSet(g: Graph, sccs: seq<set<VexIdx>>, num: Numbering, last: Numbering, grp: Numbering,
                          c: seq<VexIdx>, u: VexIdx, v: VexIdx, k: nat)
    requires Grouped(g, num, last, grp) && OneSetPerGroup(sccs, grp)
    requires forall x :: x in g.Vs() ==> (InSets(sccs, x) <==> OnCycle(g, x))
    requires LoneCycle(g, c) && u in c && v in c && k < |sccs|
    ensures u in sccs[k] <==> v in sccs[k]
  {
    LoneCycleIsOneGroup(g, num, last, grp, c, u, v);
    LoneCycleIsOneGroup(g, num, last, grp, c, v, u);
    SameGroupSameSet(g, sccs, grp, u, v, k);
  }

  lemma SameGroupSameSet(g: Graph, sccs: seq<set<VexIdx>>, grp: Numbering, u: VexIdx, v: VexIdx, k: nat)
    requires OneSetPerGroup(sccs, grp) && k < |sccs| && InSets(sccs, u) && InSets(sccs, v)
    requires u in grp && v in grp && grp[u] == grp[v]
    ensures u in sccs[k] <==> v in sccs[k]
  {
    var i :| 0 <= i < |sccs| && u in sccs[i];
    var j :| 0 <= j < |sccs| && v in sccs[j];
    SameSet(sccs, grp, i, j, k, u, v);
  }

  lemma SameSet(sccs: seq<set<VexIdx>>, grp: Numbering, i: nat, j: nat, k: nat, u: VexIdx, v: VexIdx)
    requires OneSetPerGroup(sccs, grp) && i < |sccs| && j < |sccs| && k < |sccs| && u in sccs[i] && v in sccs[j]
    requires u in grp && v in grp && grp[u] == grp[v]
    ensures u in sccs[k] <==> v in sccs[k]
  {
    assert i == j;
  }

  /** Every reported set has a head, which its members reach and are reached by, and one of them leads back
      to it. */
  lemma SetHasHead(g: Graph, sccs: seq<set<VexIdx>>, num: Numbering, last: Numbering, grp: Numbering,
                   k: nat, v: VexIdx)
    returns (y: VexIdx, h: VexIdx)
    requires Grouped(g, num, last, grp) && OneSetPerGroup(sccs, grp) && k < |sccs| && v in sccs[k] && v in g.Vs()
    requires forall x :: x in g.Vs() ==> (InSets(sccs, x) <==> OnCycle(g, x))
    ensures h in g.Vs() && num[h] == grp[v] && Reaches(g, v, h) && Reaches(g, h, v)
    ensures y in sccs[k] && y in g.Vs() && g.Edge(y, h) && num[h] <= num[y]
  {
    assert InSets(sccs, v);
    y, h := BackEdge(g, num, last, grp, v);
    ReachesTrans(g, h, v, y);
    assert OnCycle(g, y);
    var j :| 0 <= j < |sccs| && y in sccs[j];
  }
}
