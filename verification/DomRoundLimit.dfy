/** What the fixed limit on rounds costs `DGraph::computeDom`: on a straight chain of
    vertices listed from its end, each round settles one more vertex only. */
module DomRoundLimit {
  import opened Graphs
  import opened Dominance
  import opened DomFixpoint
  import opened DomRounds
  import DGraphs

  /** {1, 2, ..., n}. */
  function Upto(n: nat): set<VexIdx> {
    if n == 0 then {} else Upto(n - 1) + {n}
  }

  lemma {:induction false} UptoMembers(n: nat, x: VexIdx)
    ensures x in Upto(n) <==> 1 <= x <= n
  {
    if n > 0 {
      UptoMembers(n - 1, x);
    }
  }

  /** 1 -> 2 -> ... -> n. */
  function Line(n: nat): Graph {
    Graph(
      seq(n, i => i + 1),
      map i | i in Upto(n) :: if i < n then [i + 1] else [],
      map i | i in Upto(n) :: if 1 < i then [i - 1] else [])
  }

  /** n, n - 1, ..., 1. */
  function FromEnd(n: nat): seq<VexIdx> {
    seq(n, i requires 0 <= i < n => n - i)
  }

  ghost predicate InOfLine(g: Graph, v: VexIdx)
    requires v in g.ins && v > 0
  {
    g.ins[v] == if v > 1 then [v - 1] else []
  }

  ghost predicate IsLine(g: Graph, n: nat) {
    && g.Valid()
    && g.Vs() == Upto(n)
    && (forall v {:trigger InOfLine(g, v)} :: v in g.ins ==> v > 0 && InOfLine(g, v))
  }

  lemma LineVertices(n: nat)
    ensures Line(n).Vs() == Upto(n)
  {
    forall v: VexIdx
      ensures v in Line(n).Vs() <==> v in Upto(n)
    {
      UptoMembers(n, v);
      if 1 <= v <= n {
        assert Line(n).vertices[v - 1] == v;
      }
    }
  }

  lemma LineEnds(n: nat, u: VexIdx, v: VexIdx)
    ensures Line(n).Edge(u, v) <==> v in Line(n).ins && u in Line(n).ins[v]
  {
    UptoMembers(n, u);
    UptoMembers(n, v);
  }

  lemma LineIsLine(n: nat)
    ensures IsLine(Line(n), n)
  {
    LineVertices(n);
    forall u: VexIdx, v: VexIdx
      ensures Line(n).Edge(u, v) <==> v in Line(n).ins && u in Line(n).ins[v]
    {
      LineEnds(n, u, v);
    }
    forall v | v in Line(n).ins
      ensures v > 0
    {
      UptoMembers(n, v);
    }
  }

  lemma LineEdge(g: Graph, n: nat, u: VexIdx, v: VexIdx)
    requires IsLine(g, n)
    ensures g.Edge(u, v) <==> 1 <= u < n && v == u + 1
  {
    UptoMembers(n, u);
    UptoMembers(n, v);
    if v in g.ins {
      assert InOfLine(g, v);
    }
  }

  lemma FromEndMembers(n: nat)
    ensures SetOf(FromEnd(n)) == Upto(n)
  {
    forall v
      ensures v in FromEnd(n) <==> v in Upto(n)
    {
      UptoMembers(n, v);
      if v in Upto(n) {
        assert FromEnd(n)[n - v] == v;
      }
    }
  }

  /** The only path to v. */
  function Along(v: nat): seq<VexIdx> {
    seq(v, i => i + 1)
  }

  lemma AlongIsPath(g: Graph, n: nat, v: nat)
    requires IsLine(g, n) && 1 <= v <= n
    ensures v in g.Vs() && PathFromTo(g, 1, v, Along(v))
    ensures forall x :: x in Along(v) <==> 1 <= x <= v
  {
    UptoMembers(n, 1);
    UptoMembers(n, v);
    var p := Along(v);
    forall i: nat | i + 1 < |p|
      ensures Hop(g, p, i)
    {
      LineEdge(g, n, i + 1, i + 2);
    }
    forall x: nat
      ensures x in p <==> 1 <= x <= v
    {
      if 1 <= x <= v {
        assert p[x - 1] == x;
      }
    }
  }

  lemma {:induction false} PathIsAlong(g: Graph, n: nat, p: seq<VexIdx>, i: nat)
    requires IsLine(g, n) && IsPath(g, p) && p[0] == 1 && 1 <= i <= |p|
    ensures p[..i] == Along(i)
  {
    if i > 1 {
      PathIsAlong(g, n, p, i - 1);
      assert p[..i] == p[..i - 1] + [p[i - 1]];
      assert p[i - 2] == p[..i - 1][i - 2] == i - 1;
      assert Hop(g, p, i - 2);
      LineEdge(g, n, p[i - 2], p[i - 1]);
    }
  }

  lemma OnlyPath(g: Graph, n: nat, v: nat, p: seq<VexIdx>)
    requires IsLine(g, n) && 1 <= v <= n && PathFromTo(g, 1, v, p)
    ensures p == Along(v)
  {
    PathIsAlong(g, n, p, |p|);
    assert p[..|p|] == p;
  }

  lemma LineRooted(g: Graph, n: nat)
    requires IsLine(g, n) && n >= 1
    ensures Rooted(g, 1)
  {
    UptoMembers(n, 1);
    forall v | v in g.Vs()
      ensures Reaches(g, 1, v)
      ensures g.IsEntry(v) <==> v == 1
    {
      UptoMembers(n, v);
      assert InOfLine(g, v);
      AlongIsPath(g, n, v);
    }
  }

  lemma LineDominators(g: Graph, n: nat, x: nat, v: nat)
    requires IsLine(g, n) && 1 <= x <= n && 1 <= v <= n
    ensures Dom(g, 1, x, v) <==> x <= v
  {
    AlongIsPath(g, n, v);
    forall p | PathFromTo(g, 1, v, p)
      ensures p == Along(v)
    {
      OnlyPath(g, n, v, p);
    }
  }

  /** Every step of the chain goes back in the list. */
  lemma {:induction false} StepsBack(n: nat, v: nat)
    requires 1 <= v <= n
    ensures RoundsFor(FromEnd(n), Along(v)[1..]) == v - 1
  {
    if v > 1 {
      StepsBack(n, v - 1);
      assert Along(v)[1..][..v - 2] == Along(v - 1)[1..];
      assert forall i :: 0 <= i < n ==> FromEnd(n)[i] == n - i;
      assert !StandsBefore(FromEnd(n), v - 1, v);
    }
  }

  lemma WhenAvoidable(g: Graph, n: nat, x: nat, v: nat, k: nat)
    requires IsLine(g, n) && 1 <= v < x <= n
    ensures Avoidable(g, 1, x, v, Repeated(FromEnd(n), k)) <==> v <= k + 1
  {
    AlongIsPath(g, n, v);
    forall y | y in Along(v)[1..]
      ensures y in FromEnd(n)
    {
      assert FromEnd(n)[n - y] == y;
    }
    StepsBack(n, v);
    OccursIffRounds(FromEnd(n), Along(v)[1..], k);
    if v <= k + 1 {
      assert PathAround(g, 1, x, v, Repeated(FromEnd(n), k), Along(v));
    }
    if Avoidable(g, 1, x, v, Repeated(FromEnd(n), k)) {
      var p :| PathAround(g, 1, x, v, Repeated(FromEnd(n), k), p);
      OnlyPath(g, n, v, p);
    }
  }

  lemma LineEnoughRounds(g: Graph, n: nat, k: nat)
    requires IsLine(g, n) && n >= 1
    ensures EnoughRounds(g, 1, FromEnd(n), k) <==> n <= k + 2
  {
    forall x, v | x in g.Vs() && v in g.Vs() && !Dom(g, 1, x, v)
      ensures v < n && (Avoidable(g, 1, x, v, Repeated(FromEnd(n), k)) <==> v <= k + 1)
    {
      UptoMembers(n, x);
      UptoMembers(n, v);
      LineDominators(g, n, x, v);
      WhenAvoidable(g, n, x, v, k);
    }
    if n > k + 2 {
      UptoMembers(n, n);
      UptoMembers(n, k + 2);
      LineDominators(g, n, n, k + 2);
    }
  }

  /** k rounds give the dominators of the chain exactly when it has at most k + 2 vertices. */
  lemma LineNeedsRounds(n: nat, k: nat)
    requires n >= 1
    ensures Rooted(Line(n), 1) && NoDup(FromEnd(n)) && SetOf(FromEnd(n)) == Line(n).Vs()
    ensures Exact(Line(n), 1, Sweeps(Line(n), InitTable(Line(n)), FromEnd(n), k)) <==> n <= k + 2
  {
    LineIsLine(n);
    LineRooted(Line(n), n);
    FromEndMembers(n);
    RoundsExactIff(Line(n), 1, FromEnd(n), k);
    LineEnoughRounds(Line(n), n, k);
  }

  /** So the limit of the source is too small for a chain of thirteen vertices. */
  lemma TenRoundsMissThirteen()
    ensures Rooted(Line(13), 1) && SetOf(FromEnd(13)) == Line(13).Vs()
    ensures !Exact(Line(13), 1, Sweeps(Line(13), InitTable(Line(13)), FromEnd(13), DGraphs.MAX_DOM_ROUNDS))
  {
    LineNeedsRounds(13, DGraphs.MAX_DOM_ROUNDS);
  }

  /** And that for post-dominators for a chain of sixteen, turned round. */
  lemma ThirteenRoundsMissSixteen()
    ensures var g := Line(16).Reverse();
      && Rooted(g.Reverse(), 1) && SetOf(FromEnd(16)) == g.Reverse().Vs()
      && !Exact(g.Reverse(), 1,
                Sweeps(g.Reverse(), InitTable(g.Reverse()), FromEnd(16), DGraphs.MAX_PDOM_ROUNDS))
  {
    assert Line(16).Reverse().Reverse() == Line(16);
    LineNeedsRounds(16, DGraphs.MAX_PDOM_ROUNDS);
  }
}
