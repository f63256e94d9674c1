# Verified models of the compiler's algorithm library

The directory `com/` of the repository is the library under the compiler: graphs, trees, matrices, big
integers and encoders. This project models the algorithms in it that are hardest to believe by reading,
and proves what they compute. `dafny verify dfyconfig.toml` checks everything.

## What is modelled

**Control flow.** `Graphs` holds graphs with ordered in- and out-lists, their paths, cycles and reachability.
`Rpo` numbers the vertices by a depth-first search with a stack, proved against the recursion in `DfsOrder`.
`Dominance` says what dominators are, by paths, and why they form chains. `DomFixpoint` is the theory of the
iteration over sets, `IdomTree` that of the walk in the table of immediate dominators, and `DGraphs` has the class
whose methods run both. The two were written independently; here both are proved to give the dominators in the
sense of paths, so they agree wherever the iteration is given enough rounds. `DomRounds` says when a number of
rounds is enough, by a condition on the graph and the list, and `DomRoundLimit` works it out for one family of
graphs. `Scc` finds the vertices on cycles by one depth-first scan and reports them in groups; `DfsGroups` says what
the groups are, in terms of the numbers that such a scan gives. `Topo` is the topological sort and `Mst` the minimum
spanning tree, proved minimal by exchanging edges.

**Matrices.** `LinAlg`, `Echelons` and `Factors` hold the theory over the real numbers: what row operations keep,
what a reduced echelon form says about the kernel, and what recorded multipliers are worth. `Elimination` states
what each step of the algorithms keeps, `Bases` what the rows picked by an elimination say about the kernel and
why there is only one rank, and `TriFactors` which matrices of any shape have triangular factors, with and without
row exchanges, and why these are unique. `Matrices` has the class with its in-place operations: inverse, rank with
both kinds of bases, null space and the two triangular factorisations.

**Fast forms and encodings.** `Lca` proves binary lifting and walking up parents against the same definition.
`SegTrees` proves the segment tree against counting per point, `BigInts` multi-word arithmetic against the
integers, `BinAssemble` bit packing against concatenation, and `Leb128` the encoders against the decoders of
section 7.6 of DWARF Version 5.

Methods that the source writes as loops over fields are methods with loops here. Where the source keeps several
tables in local variables of one function (the depth-first scan of `com/scc.cpp`, one pass of
`com/sgraph.cpp:2128-2199`), the tables are values that the step methods take and return.

## Where the code differs from its description

- The set iteration stops after 10 rounds (13 for post-dominators), and only an assertion notices that the
  tables are not settled. The sets are the dominators exactly if, whenever x does not dominate v, the list
  written 10 times in a row spells, in order, a path from the entry to v around x (`EnoughRounds`); the assertion
  holds exactly if 9 times are enough. On a list without repetition a path takes one round and one more for every
  step that goes back in the list (`OccursIffRounds`), so an order in which no edge goes back needs a single
  round. k rounds are enough for every graph of at most k + 2 vertices, whatever the list
  (`SmallGraphsAreDone`), so the sets of at most 12 vertices (15 for post-dominators) are always right. Chains of 13
  and 16, listed from their ends, are not done in time (`TenRoundsMissThirteen`, `ThirteenRoundsMissSixteen`); the
  chain of 12 is, although the assertion fails (`LineNeedsRounds`).
- The root of a tree has height 0 (`HEIGHT_INIT_VAL` in `com/sgraph.h`). On a tree of one vertex, and on no other,
  the greatest height is 0, the loop bound of `com/lca.cpp:195` wraps around and the loop does not end
  (`LoopEndsIff`, `LoneRootNeverLeaves`).
- `bisMul` multiplies magnitudes and restores the sign, but the length of the result only grows when the
  magnitude needs it. When both factors have n + 1 words together, the result is the product exactly if
  it fits n words with its sign or its magnitude needs n + 1 words; 0x10000 times 0x8000, one word each, comes out
  as the least number of one word (`OneWordOverflows`).
- The topological sort compares a count with the number of vertices. With parallel edges a vertex may become
  ready twice: an acyclic graph is then refused, and a graph with a cycle may be accepted
  (`ParallelEdgesMislead`). No vertex becomes ready twice exactly if every doubled edge u -> v is followed by a
  later predecessor: some predecessor of v comes after u in the order of the same graph without parallel edges, or
  is not in that order at all (`LaterPredecessors`, `RepeatsIff`). On an acyclic graph the sort succeeds exactly
  if this holds, and on every graph of which it holds the answer is right (`CountTells`).
- `rank`, asked for a basis made of rows of the matrix, returns the eliminated form instead when the rank is the
  number of rows.
- `lu` and `plu` report success also when the columns run out before the rows. `lu` succeeds exactly on the
  matrices with a factorisation whose echelon form has a pivot in every row or one in the last column
  (`Factorable`). `plu` succeeds exactly if the rank is the number of rows or no vector of the kernel ends in the
  last column (`ExchangesSucceed`), so also on the singular matrix [[0, 1], [0, 0]] (`SingularMaySucceed`). The
  factors are right in all these cases.
- The test that a buffer is large enough for its fields counts bytes, but fields off a word boundary are or-ed in
  as words of 8 bytes. Two fields of 4 bits pass the test with one byte and write beyond it (`BytesAreNotEnough`).
  Of a buffer with enough bytes, a field of at most a word stays inside exactly if it starts at a word boundary,
  or in a whole word with enough bytes behind it for what spills over (`InsideIff`).
- The reported sets are the groups of the scan, and vertices that reach each other may be in different groups
  (`ComponentMaySplit`); a cycle without branches is always one set (`LoneCycleIsOneSet`).
- No edge whose weight is the largest 32-bit number, or more, is ever used for a spanning tree; if there is none,
  the tree is a cheapest one among all connections by edges of the graph. The weight that is returned is cut to
  32 bits.

## Model

| member | source | states |
|---|---|---|
| `Rpo.ComputeRPO` | com/rpo.cpp:120-155 | the list is the one that the recursive depth-first search leaves, so it is determined by the order of the out-lists; it holds exactly the vertices that the root reaches, each once, the root first and numbers in steps of 10 that end at the number of the last vertex; every other vertex has a predecessor before it; an edge that does not go forward closes a cycle |
| `DfsOrder.NextPushed` | com/rpo.cpp:136-144 | with the first successor not visited on top of the stack, the search still ends with the same list |
| `DfsOrder.TopLeft` | com/rpo.cpp:145-150 | so it does when a vertex without such a successor is left |
| `Rpo.ReachableGraphIsNumbered` | com/rpo.cpp:120-155 | if every vertex is reachable, the numbers start at 0 and the list is an order in which the walk over dominators may run |
| `Rpo.TopologicalIffAcyclic` | com/rpo.cpp:120-155 | the list is topological exactly if none of its vertices is on a cycle |
| `Dominance.DominatorsFormChain` | com/sgraph.cpp:2151-2184 | two dominators of a vertex dominate one another one way, which is why the walk may follow a single chain |
| `Dominance.IDomExists` | com/sgraph.cpp:2362-2421 | every vertex but the entry has an immediate dominator |
| `Dominance.IDomUnique` | com/sgraph.cpp:2362-2421 | and only one |
| `Dominance.IDomIffDomSet` | com/sgraph.cpp:2383-2395 | i is the immediate dominator of v exactly if the dominators of i are those of v without v: the search of the source finds it, and finds nothing else |
| `Dominance.ReverseDomSet` | com/sgraph.cpp:1823-1897 | the dominators in the reversed graph are the post-dominators, the vertices on every path to the exit |
| `Dominance.ReverseRooted` | com/sgraph.cpp:1823-1897 | the reversed graph has the exit as its one entry, reaching all vertices, exactly if it is the only exit and every vertex reaches it |
| `DomFixpoint.InitAbove` | com/sgraph.cpp:1641-1653 | the initial sets contain all true dominators |
| `DomFixpoint.UpdateKeepsAbove` | com/sgraph.cpp:1666-1690 | every single update keeps all true dominators and only removes vertices |
| `DomFixpoint.SweepKeepsAbove` | com/sgraph.cpp:1664-1691 | so does a whole round, in any order of the list |
| `DomFixpoint.SolvesIffExact` | com/sgraph.cpp:1655-1693 | sets above the truth solve the equations exactly if they are the true dominators |
| `DomFixpoint.ExactIffQuiet` | com/sgraph.cpp:1660-1693 | and exactly if a round changes nothing |
| `DomRounds.UpdatedVertex` | com/sgraph.cpp:1666-1690 | an update finds the paths around x that had reached one of the predecessors, and no others |
| `DomRounds.SweepFollows` | com/sgraph.cpp:1660-1693 | after any sequence of updates x is still in the set of v exactly if the sequence spells no path to v around x |
| `DomRounds.RoundsExactIff` | com/sgraph.cpp:1660-1693 | k rounds over any list give the dominators exactly if the list written k times spells a path around every vertex that is no dominator |
| `DomRounds.OccursIffRounds` | com/sgraph.cpp:1664-1666 | on a list without repetition, k copies spell a path exactly if it goes back in the list fewer than k times |
| `DomRounds.TopologicalListIsEnough` | com/sgraph.cpp:1660-1693 | if no edge goes back in the list, every number of rounds from 1 on is enough |
| `DomRounds.RoundsDecide` | com/sgraph.cpp:1660-1693 | what the sets after k rounds and the flag of the last round say |
| `DomRounds.SmallGraphsAreDone` | com/sgraph.cpp:1660-1693 | k rounds are enough for every graph of at most k + 2 vertices and every list of them |
| `DomRounds.OneRoundEach` | com/sgraph.cpp:1664-1666 | every round spells at least one more vertex of any path |
| `DGraphs.DGraph.RecomputeDom` | com/sgraph.cpp:1673-1690 | one vertex: its set becomes the intersection over its predecessors and itself, and the flag tells whether it changed |
| `DGraphs.DGraph.DomRound` | com/sgraph.cpp:1664-1691 | one round, and whether it changed anything |
| `DGraphs.DGraph.Iterate` | com/sgraph.cpp:1660-1693 | stopping at a quiet round leaves what all the rounds would leave, and the flag says whether the last of them would still change an entry |
| `DGraphs.DGraph.ComputeDom` | com/sgraph.cpp:1611-1693 | the sets always contain the true dominators; they are the dominators exactly if 10 rounds are enough for the graph and the list, and the flag is clear exactly if 9 are; with at most 12 vertices they always are the dominators, and with at most 11 the flag is clear |
| `DGraphs.DGraph.ComputePdom` | com/sgraph.cpp:1823-1897 | the dual, with 13 and 12 rounds and at most 15 and 14 vertices, if every vertex reaches the exit; without an exit all sets are empty |
| `DGraphs.DGraph.ComputeIdom` | com/sgraph.cpp:2362-2421 | from the sets of dominators it records the immediate dominator of every vertex, and leaves the sets as they were; from any other sets it changes only those of at least two members, which then hold their vertex |
| `DGraphs.DGraph.ComputeIpdom` | com/sgraph.cpp:2495-2531 | the dual; from the empty sets of a graph without exit it records nothing |
| `DGraphs.DGraph.CollectDoms` | com/sgraph.cpp:1911-1922 | the walk along immediate dominators collects all strict dominators, also when it stops at a finished set |
| `DGraphs.DGraph.ComputeDom2` | com/sgraph.cpp:1904-1926 | from the immediate dominators it rebuilds exactly the strict dominators of each listed vertex, whatever the order of the list |
| `DomRoundLimit.LineNeedsRounds` | com/sgraph.cpp:1660-1662 | on a chain of n vertices listed from its end, k rounds give the dominators exactly if n is at most k + 2 |
| `DomRoundLimit.TenRoundsMissThirteen` | com/sgraph.cpp:1660-1693 | ten rounds do not give the dominators of the chain of 13 |
| `DomRoundLimit.ThirteenRoundsMissSixteen` | com/sgraph.cpp:1859-1897 | thirteen do not give the post-dominators of the chain of 16 |
| `IdomTree.Flow.NewEntryOnOldChain` | com/sgraph.cpp:2193-2196 | an entry only ever moves to an ancestor of its old value in the current tree |
| `IdomTree.Flow.TruthDescends` | com/sgraph.cpp:2139-2185 | a true dominator of a vertex with a smaller number than one of its ancestors dominates that ancestor as well |
| `IdomTree.Flow.TurnKeepsInv` | com/sgraph.cpp:2133-2197 | every turn keeps the invariant of the passes; from the second pass on the number of an entry only drops |
| `IdomTree.Flow.TurnShortens` | com/sgraph.cpp:2193-2196 | a turn that changes an existing entry makes the chain of its vertex strictly smaller, and no chain grows |
| `IdomTree.Flow.TotalDrops` | com/sgraph.cpp:2219-2221 | so it makes the total length of the chains smaller |
| `IdomTree.Flow.MeetsAreDominators` | com/sgraph.cpp:2219-2221 | once every entry is where its predecessors meet, the chains are the sets of dominators |
| `IdomTree.Flow.MeetsAreIDoms` | com/sgraph.cpp:2219-2221 | and the entries are the immediate dominators |
| `DGraphs.DGraph.RaiseFinger` | com/sgraph.cpp:2156-2164 | climbing one finger keeps the common ancestors and ends at a number no larger than the other's |
| `DGraphs.DGraph.NearestCommon` | com/sgraph.cpp:2151-2184 | the two fingers end at the vertex whose ancestors are exactly the common ones |
| `DGraphs.DGraph.IdomViaPreds` | com/sgraph.cpp:2140-2185 | the candidate is where all predecessors that have an entry meet; there is none exactly if no predecessor has an entry |
| `DGraphs.DGraph.VisitVertex` | com/sgraph.cpp:2135-2196 | the turn of one vertex keeps the state of the pass and says when the chains got shorter in total |
| `DGraphs.DGraph.ComputeIdomForFullGraph` | com/sgraph.cpp:2128-2199 | one pass: if it changed nothing every entry is a meet, otherwise the chains of a full table got shorter in total |
| `DGraphs.DGraph.IterateIdoms` | com/sgraph.cpp:2216-2221 | the loop ends, with every entry a meet |
| `DGraphs.DGraph.ComputeIdom2` | com/sgraph.cpp:2214-2230 | on a list in reverse postorder it terminates and records the immediate dominator of every vertex, none for the entry |
| `DGraphs.MeetsAreExact` | com/sgraph.cpp:2214-2230 | a settled table without the value of the entry is exactly the table of immediate dominators |
| `DGraphs.ExactTablesAgree` | com/sgraph.cpp:2257-2300 | the table from the sets and the table from the walk are the same |
| `Scc.SCC.FindSCC` | com/scc.cpp:216-240 | a vertex is in some reported set exactly if it is on a cycle, self loops included; the sets are disjoint and their members reach each other; two such vertices are in the same set exactly if they have the same group; the groups are those of a depth-first scan, and its numbers 1, 2, ... are given in the order in which the recursive search enters the vertices |
| `DfsOrder.NextEnters` | com/scc.cpp:96-105 | with the first successor not entered on top of the stack, the search still enters the vertices in the same order |
| `DfsOrder.RootPushed` | com/scc.cpp:226-234 | so it does when a scan starts from the next root |
| `DfsGroups.BackEdge` | com/scc.cpp:109-125 | every group is headed by the vertex it names, which the members reach and are reached by, and an edge of some member leads back to it |
| `DfsGroups.LoneCycleIsOneGroup` | com/scc.cpp:109-129 | a cycle whose vertices have one successor each is one group |
| `DfsGroups.ComponentMaySplit` | com/scc.cpp:109-129 | two cycles that share a vertex reach each other, but are two groups |
| `Scc.SetHasHead` | com/scc.cpp:201-210 | so every reported set has a head with a member that leads back to it |
| `Scc.LoneCycleIsOneSet` | com/scc.cpp:201-210 | and a cycle without branches is reported as one set |
| `Scc.LeftGroupIs` | com/scc.cpp:109-125 | as a vertex is left its group is the least one seen among its successors on cycles with it: the group of those left before, the number of the others; its own number if it is on no cycle |
| `Scc.SCC.IsInSCC` | com/scc.cpp:245-258 | it finds a set with the vertex exactly if there is one |
| `Scc.SCC.ScanNoRecur` | com/scc.cpp:75-143 | a scan keeps the invariants of the tables and enters its root |
| `Scc.SCC.GroupOf` | com/scc.cpp:109-125 | the group is the smallest one among the successors on the path, and the flag says whether there is such a successor |
| `Scc.SCC.Leave` | com/scc.cpp:108-140 | leaving a vertex keeps the invariants, with and without taking its part of the path off |
| `Scc.CycleIffSuccOnPath` | com/scc.cpp:111-129 | as a vertex is left, it is on a cycle exactly if one of its successors is on the path |
| `Scc.SmallGroupSucc` | com/scc.cpp:113-119 | then one of those successors has a group no larger than its number, so the flag is set |
| `Scc.PathReachesTop` | com/scc.cpp:84-141 | every vertex on the path reaches the vertex entered last |
| `Scc.PopKeepsScan` | com/scc.cpp:131-140 | cutting the path at a vertex that is its own group keeps the invariant |
| `Topo.SortInTopologOrder` | com/sgraph.cpp:943-985 | the vector begins with the order of finished vertices, and success is that it is as long as the graph has vertices; on an acyclic graph it succeeds exactly if every doubled edge is followed by a later predecessor, on every graph of which that is true it succeeds exactly without cycles, and the vector of an acyclic graph accepted is a permutation of the vertices with every edge forward |
| `Topo.CountTells` | com/sgraph.cpp:959-984 | on every acyclic graph the count is right exactly if every doubled edge is followed by a later predecessor; on every graph of which that is true, with cycles or not, it tells exactly the acyclic ones, and every edge goes forward |
| `Topo.RepeatsIff` | com/sgraph.cpp:959-984 | no vertex becomes ready twice exactly if every doubled edge is followed by a later predecessor, judged by the order of the graph without parallel edges, which is then the order of the graph itself |
| `Topo.RunsAgree` | com/sgraph.cpp:959-984 | from any state that both runs can be in, the runs with and without parallel edges agree exactly up to the first vertex that becomes ready twice |
| `Topo.OrderIs` | com/sgraph.cpp:959-984 | on every graph all vertices are finished exactly if there is no cycle, and a vertex is finished twice only with parallel edges |
| `Topo.ParallelEdgesMislead` | com/sgraph.cpp:984 | an acyclic graph that is refused and one with a cycle that is accepted |
| `Topo.DoneNotOnCycle` | com/sgraph.cpp:959-984 | no finished vertex is on a cycle |
| `Topo.PendingDrops` | com/sgraph.cpp:959-984 | why the loop ends, also with parallel edges |
| `Topo.FinishedIffAcyclic` | com/sgraph.cpp:959-984 | when no vertex is ready any more, all are finished exactly if there is no cycle |
| `Mst.MST.FindMinWeightEdge` | com/sgraph.cpp:3724-3757 | the first lightest edge, in either direction, from the vertex to one not visited, the outgoing edges before the incoming ones; or the vertex is exhausted |
| `Mst.MST.FindMinWeightEdgeForVisited` | com/sgraph.cpp:3760-3789 | a lightest edge from all listed vertices, the first one in the order of the list; only exhausted vertices are dropped |
| `Mst.ForemostOfAll` | com/sgraph.cpp:3765-3786 | dropping exhausted vertices does not change which lightest edge is the first |
| `Mst.WholeWorklist` | com/sgraph.cpp:3775-3780 | dropping exhausted vertices loses no edge that leaves the visited ones |
| `Mst.MST.BuildRound` | com/sgraph.cpp:3801-3818 | a round adds one vertex and keeps the invariant, or the tree is complete and minimal |
| `Mst.WGraph.Exchange` | com/sgraph.cpp:3801-3818 | in a spanning set an edge at least as heavy can be traded for the lightest edge leaving the visited vertices |
| `Mst.MST.Build` | com/sgraph.cpp:3792-3821 | the path is a spanning tree of the root's component by edges below 0xFFFFFFFF, every edge the first lightest one leaving the vertices joined before; no spanning set of the component weighs less, and the result is its weight modulo 2^32; no edge of weight 0xFFFFFFFF or more is taken |
| `Mst.NothingLeftAside` | com/sgraph.cpp:3724-3821 | if all weights are below 0xFFFFFFFF, the vertices joined are exactly those that any edges of the graph connect to the root, and no set of edges of the graph that connects them weighs less |
| `Matrices.Matrix.InterchRow` | com/matt.h:1568-1580 | exchanges two rows |
| `Matrices.Matrix.MulOfRow` | com/matt.h:1802-1816 | multiplies a row, whatever shortcut is taken |
| `Matrices.Matrix.MulAndAddRow` | com/matt.h:1924-1933 | adds a multiple of a row to a row, also to itself |
| `Matrices.Matrix.MulScalar` | com/matt.h:1783-1798 | multiplies every element, whatever shortcut is taken |
| `Matrices.Matrix.MulOfColumn` | com/matt.h:1838-1851 | multiplies one column and nothing else, whatever shortcut is taken |
| `Matrices.Matrix.Mul` | com/matt.h:4367-4384 | the product of two matrices |
| `Matrices.Matrix.FindPivot` | com/matt.h:2204-2230 | no pivot exactly if the column is zero from the row on; otherwise, with units preferred, the first entry 1 if there is one; otherwise the first non-zero entry if that is 1, and else the first one of greatest size |
| `Matrices.Matrix.FindColumn` | com/matt.h:2962-3004 | the first column that is not zero from the row on, with its pivot, or none |
| `Elimination.PivotLater` | com/matt.h:2204-2230 | one entry of the search: a preferred 1 ends it, a larger entry replaces the candidate |
| `Elimination.PivotIsLarge` | com/matt.h:3240-3261 | a pivot is 1 or as large as any entry of its column |
| `LinAlg.AddKeepsKernel` | com/matt.h:1924-1933 | the solutions of m x = 0 stay the same when a multiple of another row is added |
| `LinAlg.InverseFromKernel` | com/matt.h:2199-2258 | if [I, e] side by side has the kernel of [a, I], e is the inverse of a on both sides |
| `Elimination.NotInvertible` | com/matt.h:2231-2235 | a column without pivot gives a non-zero x with a x = 0 |
| `Elimination.InverseMeansNonsingular` | com/matt.h:2149-2262 | a matrix with an inverse kills only the zero vector |
| `Matrices.Matrix.Inv2` | com/matt.h:2174-2194 | size 2: the inverse, or a non-zero vector that the matrix kills |
| `Matrices.Matrix.GaussJordan` | com/matt.h:2199-2261 | other sizes: the same, by elimination on both matrices |
| `Matrices.Matrix.Inv` | com/matt.h:2149-2262 | e is the inverse on both sides when it succeeds; on a square matrix it fails exactly if the matrix kills a non-zero vector; the matrix is unchanged unless it is e itself |
| `Echelons.PivotsUnique` | com/matt.h:2937-3033 | the pivot columns, and so the rank, depend on the kernel alone and not on the pivots chosen |
| `Echelons.FullRank` | com/matt.h:2937-3033 | the rank is the number of columns exactly if only the zero vector is in the kernel |
| `Matrices.Matrix.ClearColumn` | com/matt.h:3016-3030 | clears a column and extends the reduced form by one pivot, with the same kernel |
| `Matrices.Matrix.Rank` | com/matt.h:2937-3033 | leaves the reduced echelon form with the same kernel and returns the number of its pivots, the rank, which is the number of columns exactly if the kernel is trivial |
| `Matrices.Matrix.RankRows` | com/matt.h:2937-3049 | the other mode: it returns the same rank and, if that is less than the number of rows, as many different rows of the matrix with the kernel of the whole matrix; otherwise the eliminated form, with the same kernel; the rows were chosen so that every pivot is 1, or no entry below it was 1 or larger in size |
| `Bases.BackSolve` | com/matt.h:3016-3030 | solving an echelon form backwards: every column without pivot ends a vector of the kernel |
| `Bases.SteppedPivotsUnique` | com/matt.h:2937-3033 | two echelon forms with one kernel have the same pivots, made units or not, so both modes find the same |
| `Bases.RankUnique` | com/matt.h:2937-3049 | a matrix has only one rank, whatever echelon form it is counted in |
| `Bases.FirstRowsKill` | com/matt.h:3034-3046 | the rows that gave the pivots kill the same vectors as the whole matrix |
| `Echelons.NullFixesKernel` | com/matt.h:2880-2919 | a vector is in the kernel exactly if the null space matrix leaves it in place |
| `Echelons.NullYieldsKernel` | com/matt.h:2880-2919 | whatever the null space matrix yields is in the kernel |
| `Matrices.Matrix.LeadingEntry` | com/matt.h:2902-2911 | searching from the diagonal finds the pivot of the row, and nothing in a zero row |
| `Matrices.Matrix.Nullspace` | com/matt.h:2880-2919 | for all x, A x = 0 exactly if ns x = x; and A (ns y) = 0 for all y |
| `Factors.RecordedIsProduct` | com/matt.h:3351-3370 | the multipliers of the elimination, as a unit lower triangular matrix, times what is left give the original matrix |
| `TriFactors.NextRowAgrees` | com/matt.h:3309-3363 | elimination finds the next row and the next multipliers of every factorisation there is, of any shape |
| `TriFactors.LuStuck` | com/matt.h:3309-3350 | where elimination needs a row exchange or finds no pivot before rows and columns run out, no factorisation exists that would succeed |
| `TriFactors.LuDone` | com/matt.h:3351-3373 | when rows or columns run out, the multipliers and what is left are factors; all others have the same echelon form, and the same multipliers if every row has a pivot |
| `TriFactors.PivotIffNoneEnds` | com/matt.h:3226-3299 | an echelon form has a pivot in a column exactly if no vector of the kernel ends there |
| `TriFactors.ExhaustsIff` | com/matt.h:3226-3299 | the pivots leave no row or no column over exactly if the rank is the number of rows or no vector of the kernel ends in the last column |
| `TriFactors.SingularMaySucceed` | com/matt.h:3226-3299 | a singular matrix on which the factorisation with row exchanges succeeds |
| `Matrices.Matrix.ClearBelow` | com/matt.h:3354-3362 | clears a column below the pivot, records the multipliers and keeps the kernel |
| `Matrices.Matrix.UnitDiagonal` | com/matt.h:3365-3369 | dividing the columns by their diagonal leaves the multipliers |
| `Matrices.Matrix.Lu` | com/matt.h:3303-3373 | for any shape: it succeeds exactly if the matrix is `Factorable`, and then L is unit lower triangular, U upper triangular in echelon form and L U = A; U and the columns of L up to the number of pivots are those of every such factorisation, and the other columns of L those of the identity; whenever a square matrix has factors without a zero pivot it succeeds with exactly these |
| `Matrices.Matrix.Plu` | com/matt.h:3226-3299 | for any shape: it succeeds exactly if the rank is the number of rows or no vector of the kernel ends in the last column, so on every matrix that kills only the zero vector; then P permutes the rows and P A = L U, and below every pivot that is not 1 the multipliers in L are at most 1 in size |
| `TriFactors.SmallStep` | com/matt.h:3264-3276 | why the multipliers stay small, and with units preferred never stand for an entry 1 |
| `TriFactors.FoundAreSmall` | com/matt.h:3278-3279 | factoring the permuted matrix again finds the same multipliers |
| `Lca.LcaUnique` | com/lca.cpp:35-59 | there is only one lowest common ancestor, so both queries return the same vertex |
| `Lca.NaiveLCA.Query` | com/lca.cpp:35-59 | the lowest common ancestor |
| `Lca.EntryIs` | com/lca.cpp:206-235 | entry d of a vertex is its ancestor at distance 2^d, and missing exactly if the tree is not that high above it |
| `Lca.BinLCA.InitAncestorDisTab` | com/lca.cpp:206-235 | fills the table so for every level below the maximum height, and the parents in any case |
| `Lca.BinLCA.FindMaxHeight` | com/lca.cpp:117-128 | the greatest height of any vertex, although only leaves are looked at |
| `Lca.HighestIsZeroIff` | com/lca.cpp:117-128 | the greatest height is 0 exactly if the root is the only vertex |
| `Lca.BinLCA.Climb` | com/lca.cpp:195-200 | one table entry for each bit of a distance leads that far up |
| `Lca.BinLCA.Approach` | com/lca.cpp:250-264 | the descending distances lead to the two different children of the meeting point |
| `Lca.BinLCA.Query` | com/lca.cpp:238-268 | the lowest common ancestor, with the height found or given, and a height that serves every later query |
| `Lca.LoopEndsIff` | com/lca.cpp:195-200 | with the height found in a tree, in 32-bit arithmetic, the loop can end exactly if some vertex is not the root |
| `Lca.LoneRootNeverLeaves` | com/lca.cpp:195-200 | on the tree of one vertex it cannot |
| `SegTrees.SegTree.BuildRecur` | com/segtree.cpp:119-135 | the vertices in preorder, all counts 0, nothing else touched; the kids of every inner vertex hold the halves of its interval, the left one by at most one point larger |
| `SegTrees.ShapeIsHalved` | com/segtree.cpp:127-133 | so it is everywhere in the tree |
| `SegTrees.DepthIsLogarithm` | com/segtree.cpp:119-135 | the depth is at most d exactly if the interval has at most 2^d points |
| `SegTrees.SegTree.Build` | com/segtree.cpp:138-146 | a tree over exactly the hull of the ranges: it begins at the start of some range, ends at the end of some range and holds all of them; it has 2 (high - low) + 1 vertices, halved intervals and logarithmic depth |
| `SegTrees.SegTree.ComputeMinMax` | com/segtree.cpp:106-116 | the smallest start and the largest end |
| `SegTrees.SegTree.ComputeRecur` | com/segtree.cpp:195-242 | entering a range updates the counts of the whole subtree as if it had been there from the start, and nothing outside |
| `SegTrees.EnteredUp` | com/segtree.cpp:156-192 | once both kids count the new range, the new count of their parent, in either mode, makes the whole subtree count it |
| `SegTrees.SegTree.ComputeAll` | com/segtree.cpp:297-305 | after all ranges: in the accumulate mode every node counts the ranges that meet its interval, otherwise the most ranges at one of its points |
| `SegTrees.PeakIsMaximum` | com/segtree.cpp:245-270 | the answer is the number of ranges at some point, and at least that at every point |
| `SegTrees.SegTree.QueryRecur` | com/segtree.cpp:245-270 | the answer for a range below a vertex; a single point is added to the count that comes in |
| `SegTrees.SegTree.Query` | com/segtree.cpp:273-278 | with a fresh count, the most ranges that cover one point of the interval, in both modes |
| `BigInts.BiuAdd` | com/bigint.cpp:559-612 | the exact sum, also when the result is one of the operands; one word more exactly if it is needed |
| `BigInts.BiSub` | com/bigint.cpp:619-641 | the difference modulo 2^(32n), n the longer length |
| `BigInts.BiuMul` | com/bigint.cpp:646-693 | the exact product; with the words of both factors less one, and one more exactly if it is needed |
| `BigInts.MulRow` | com/bigint.cpp:655-687 | one word times a number, shifted; one word more exactly if it is needed |
| `BigInts.Neg` | com/bigint.cpp:813-825 | the two's complement in the same number of words |
| `BigInts.NegatedTwice` | com/bigint.cpp:813-825 | negating twice gives the number back |
| `BigInts.NegatedIsMinus` | com/bigint.cpp:813-825 | negation changes the sign exactly if the number is not the least one |
| `BigInts.TopBit` | com/bigint.cpp:829-834 | the top bit of the top word is set exactly if the signed number is negative |
| `BigInts.Abs` | com/bigint.cpp:829-834 | the magnitude of the signed number |
| `BigInts.BisMul` | com/bigint.cpp:698-726 | the length of the result is exact, it is congruent to the signed product, and equal to it exactly if the product of the operands is `Representable`: it fits the words of both less one with its sign, or its magnitude needs one word more |
| `BigInts.LongProductFits` | com/bigint.cpp:698-726 | a product that needs all words of both factors leaves their top bit clear, so it is never misread |
| `BigInts.OneWordOverflows` | com/bigint.cpp:698-726 | 0x10000 times 0x8000 is not representable with one word each and reads as the least number |
| `BigInts.BigInt.IsZero` | com/bigint.cpp:92-100 | whether all significant words are zero, which is whether the number is |
| `BinAssemble.ImpureIff` | com/assemblebin.cpp:80-89 | the shift finds a set bit exactly if there is one behind the field |
| `BinAssemble.FilterImpurity` | com/assemblebin.cpp:92-99 | keeps the field and clears the rest |
| `BinAssemble.AssembleBinBuf.WriteWord` | com/assemblebin.cpp:116-148 | appends the bits of the field and leaves every later bit zero, inside a word and across two |
| `BinAssemble.AssembleBinBuf.WriteBuf` | com/assemblebin.cpp:166-195 | the same for a buffer, word by word or copied at once |
| `BinAssemble.AssembleBinBuf.constructor` | com/assemblebin.cpp:34-51 | a zeroed buffer that holds every byte touched by the fields then holds their concatenation, followed by zeros |
| `BinAssemble.InsideIff` | com/assemblebin.cpp:116-148 | a field that fits a buffer in bits is written inside its bytes exactly if it starts at a word boundary, or starts in a whole word and either ends there or has the bytes it spills into |
| `BinAssemble.WholeWordsAreEnough` | com/assemblebin.cpp:54-77 | whole words for all fields are enough, and pass the test of the source |
| `BinAssemble.BytesAreNotEnough` | com/assemblebin.cpp:54-77 | two fields of 4 bits pass the test with a buffer of one byte and are not written inside it; with 8 bytes they are |
| `BinAssemble.FieldSizes` | com/assemblebin.h:39-75 | a word holds a field of at most 64 bits, a buffer a larger one that its whole words have room for |
| `BinAssemble.FieldAt` | com/assemblebin.cpp:34-51 | every field can be read back at its offset |
| `Leb128.EncodeULEB128` | com/comf.cpp:2402-2424 | what was appended decodes to the value, whatever follows, and takes just the returned number of bytes: the larger of pad_to and the shortest length |
| `Leb128.EncodeSLEB128` | com/comf.cpp:2427-2458 | the same for signed numbers |
| `Leb128.ShortestU` | com/comf.cpp:2402-2424 | no sequence of bytes that decodes to a number is shorter than its shortest length |
| `Leb128.ShortestS` | com/comf.cpp:2427-2458 | the same for signed numbers |

## Left out

- Graphs with several entries: the branches for them in `com/sgraph.cpp` are in the model, but every theorem about dominators has one entry that reaches all vertices.
- `computeIdomForSubGraph`, `computeDom3` and the incremental dominator updates: they rest on conditions of their callers.
- A caller's own universe of vertices for `computeDom`, and lists that do not hold all vertices.
- `Scc.SCC.FindSCC`: one call on a fresh object.
- `Topo.CountTells`: on a graph with a cycle the condition is sufficient only; which repetitions happen to bring the count to the number of vertices is not characterised.
- `Mst.MST.Build`: the assertions of the source that no weight, and not the total, is 0.
- The matrix buffer is a sequence of rows and not one flat block; the numbers are exact, and the precision adjustment between the steps of rank is the identity.
- `Matrices.Matrix.Inv`: size 1 requires a non-zero element, as the source asserts.
- `Matrices.Matrix.Mul`, `Nullspace`, `Lu` and `Plu` with the result aliased to an operand; the source asserts against it for products.
- Determinants, floating-point decompositions and the other operations of `com/matt.h`.
- `Lca.BinLCA.Query`: the tree has at least one edge unless a height is given, as `LoopEndsIff` demands, and a height that is given is large enough; the tree does not change between queries; `1 << d` is a power of two without overflow.
- `LCAOfSet` in `com/lca.cpp`: it does not count the vertex it is at.
- `SegTrees.SegTree.Query`: nothing is said about intervals that leave the tree, for which the source answers without the points that its halving misses.
- Overflow of `(start + end) / 2`, of vertex numbers and of counts; switching the accumulate mode after ranges were entered.
- `BigInts.BiSub`, `BigInts.BiuMul` and `BigInts.BisMul`: the result is not an operand; the source says so for the difference.
- Signed addition, division, comparison of big integers and rational numbers.
- `BinAssemble.AssembleBinBuf.constructor`: nothing is said about fields whose bytes are not all inside the buffer, since the source then writes beyond it; a source buffer holds whole words; memory is little-endian; addresses and alignment are not modelled.
- The constructor that copies a small buffer into a word field of `AssembleBinDesc`.
- LEB128 of 64-bit numbers is stated for all integers; decoders that stop at 64 bits are not modelled.
- Memory pools, free lists, edge containers, vertex storage, dumping and all output.
