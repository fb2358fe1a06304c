/**
 * What the modularity score means: CCD is pinned between bounds set by the
 * cycles, a score without cycles is a score of a DAG, and the balanced tree
 * that NCCD divides by scores exactly one.
 */
module ModularityTheorems {
  import opened Graph
  import opened Counting
  import opened BalancedTree
  import opened Modularity

  ghost predicate Distinct<T>(nodes: seq<T>) {
    forall i, j | 0 <= i < j < |nodes| :: nodes[i] != nodes[j]
  }

  /** All edges run between the nodes. */
  ghost predicate Inside<T(!new)>(nodes: seq<T>, edges: Edges<T>) {
    edges.Keys <= SetOf(nodes) && forall n | n in edges :: edges[n] <= SetOf(nodes)
  }

  lemma {:induction false} DistinctSize<T>(nodes: seq<T>)
    requires Distinct(nodes)
    ensures |SetOf(nodes)| == |nodes|
  {
    if nodes != [] {
      var last := |nodes| - 1;
      DistinctSize(nodes[..last]);
      assert SetOf(nodes) == SetOf(nodes[..last]) + {nodes[last]};
    }
  }

  lemma ReachInside<T(!new)>(nodes: seq<T>, edges: Edges<T>, n: T)
    requires Inside(nodes, edges) && n in nodes
    ensures ReachSet(edges, n) <= SetOf(nodes)
  {
    forall b | b in ReachSet(edges, n)
      ensures b in SetOf(nodes)
    {
      ClosedKeeps(edges, SetOf(nodes), n, b);
    }
  }

  // ------------------------------------------------------- CCD counts reaching pairs

  ghost function Rows<T(!new)>(nodes: seq<T>, edges: Edges<T>): map<T, set<T>> {
    map n | n in nodes :: ReachSet(edges, n)
  }

  /** The ordered pairs of nodes of which the first reaches the second. */
  ghost function Reaching<T(!new)>(nodes: seq<T>, edges: Edges<T>): set<(T, T)> {
    Rel(SetOf(nodes), Rows(nodes, edges))
  }

  lemma {:induction false} CcdCountsRows<T(!new)>(nodes: seq<T>, all: seq<T>, edges: Edges<T>)
    requires Distinct(nodes) && SetOf(nodes) <= SetOf(all)
    ensures Ccd(nodes, edges) == |Rel(SetOf(nodes), Rows(all, edges))|
  {
    var rows := Rows(all, edges);
    if nodes == [] {
      assert Rel(SetOf(nodes), rows) == {};
    } else {
      var last := |nodes| - 1;
      assert SetOf(nodes) == SetOf(nodes[..last]) + {nodes[last]};
      CcdCountsRows(nodes[..last], all, edges);
      RowSize(SetOf(nodes[..last]), rows, nodes[last]);
    }
  }

  /** The ordered pairs that reach each other. */
  ghost function Mutual<T(!new)>(nodes: seq<T>, edges: Edges<T>): set<(T, T)> {
    Reaching(nodes, edges) * Swap(Reaching(nodes, edges))
  }

  ghost function OffDiagonals<T>(groups: seq<set<T>>): set<(T, T)> {
    if groups == [] then {}
    else OffDiagonals(groups[..|groups| - 1]) + OffDiagonal(groups[|groups| - 1])
  }

  lemma {:induction false} OffDiagonalsExact<T>(groups: seq<set<T>>, a: T, b: T)
    ensures (a, b) in OffDiagonals(groups) <==> a != b && exists g :: g in groups && a in g && b in g
  {
    if groups != [] {
      var last := |groups| - 1;
      assert groups == groups[..last] + [groups[last]];
      OffDiagonalsExact(groups[..last], a, b);
    }
  }

  lemma {:induction false} PenaltyCounts<T(!new)>(groups: seq<set<T>>)
    requires Disjoint(groups)
    ensures |OffDiagonals(groups)| == Penalty(groups)
  {
    if groups != [] {
      var last := |groups| - 1;
      var g := groups[last];
      PenaltyCounts(groups[..last]);
      OffDiagonalSize(g);
      forall a, b | (a, b) in OffDiagonals(groups[..last])
        ensures (a, b) !in OffDiagonal(g)
      {
        OffDiagonalsExact(groups[..last], a, b);
        var h :| h in groups[..last] && a in h && b in h;
        var k :| 0 <= k < last && groups[k] == h;
      }
      assert OffDiagonals(groups[..last]) !! OffDiagonal(g);
    }
  }

  lemma ReachingExact<T(!new)>(nodes: seq<T>, edges: Edges<T>, a: T, b: T)
    ensures (a, b) in Reaching(nodes, edges) <==> a in nodes && Reaches(edges, a, b)
  {
    ReachSetExact(edges, a, b);
  }

  lemma MutualExact<T(!new)>(nodes: seq<T>, edges: Edges<T>, groups: seq<set<T>>, a: T, b: T)
    requires AreCycles(nodes, edges, groups)
    ensures (a, b) in Mutual(nodes, edges) <==> (a, b) in Diagonal(SetOf(nodes)) + OffDiagonals(groups)
  {
    ReachingExact(nodes, edges, a, b);
    ReachingExact(nodes, edges, b, a);
    ReachesSelf(edges, a);
    OffDiagonalsExact(groups, a, b);
    assert (a, b) in Swap(Reaching(nodes, edges)) <==> (b, a) in Reaching(nodes, edges) by {
      if (b, a) in Reaching(nodes, edges) {
        assert ((b, a).1, (b, a).0) == (a, b);
      }
    }
    var mine := Component(nodes, edges, a);
    if a != b && a in nodes && b in mine {
      assert {a, b} <= mine;
      SubsetAtMost({a, b}, mine);
      assert mine in groups;
    }
    if g :| g in groups && a in g && b in g {
      var n :| n in nodes && g == Component(nodes, edges, n);
      ComponentSame(nodes, edges, n, a);
    }
  }

  /** There are as many mutually reaching pairs as nodes plus the cycle penalty. */
  lemma MutualSize<T(!new)>(nodes: seq<T>, edges: Edges<T>, groups: seq<set<T>>)
    requires Distinct(nodes) && AreCycles(nodes, edges, groups) && Disjoint(groups)
    ensures |Mutual(nodes, edges)| == |nodes| + Penalty(groups)
  {
    forall x: (T, T)
      ensures x in Mutual(nodes, edges) <==> x in Diagonal(SetOf(nodes)) + OffDiagonals(groups)
    {
      MutualExact(nodes, edges, groups, x.0, x.1);
    }
    assert Mutual(nodes, edges) == Diagonal(SetOf(nodes)) + OffDiagonals(groups);
    forall a, b | (a, b) in OffDiagonals(groups)
      ensures (a, b) !in Diagonal(SetOf(nodes))
    {
      OffDiagonalsExact(groups, a, b);
    }
    assert Diagonal(SetOf(nodes)) !! OffDiagonals(groups);
    DiagonalSize(SetOf(nodes));
    DistinctSize(nodes);
    PenaltyCounts(groups);
  }

  /** CCD is pinned by the cycles: n + penalty <= ccd, 2 ccd <= n(n + 1) + penalty, ccd <= n^2. */
  lemma CcdPinnedByCycles<T(!new)>(nodes: seq<T>, edges: Edges<T>, groups: seq<set<T>>)
    requires Distinct(nodes) && Inside(nodes, edges)
    requires AreCycles(nodes, edges, groups) && Disjoint(groups)
    ensures |nodes| + Penalty(groups) <= Ccd(nodes, edges)
    ensures 2 * Ccd(nodes, edges) <= |nodes| * (|nodes| + 1) + Penalty(groups)
    ensures Ccd(nodes, edges) <= |nodes| * |nodes|
  {
    var pairs := Reaching(nodes, edges);
    CcdCountsRows(nodes, nodes, edges);
    MutualSize(nodes, edges, groups);
    SubsetAtMost(Mutual(nodes, edges), pairs);
    forall a, b | (a, b) in pairs
      ensures a in nodes && b in nodes
    {
      ReachInside(nodes, edges, a);
    }
    assert pairs + Swap(pairs) <= Square(SetOf(nodes));
    SubsetAtMost(pairs, Square(SetOf(nodes)));
    BothWays(pairs, Square(SetOf(nodes)));
    SquareSize(SetOf(nodes));
    DistinctSize(nodes);
  }

  // --------------------------------------------------------- no cycles means a DAG

  /** The graph without edges from a node to itself. */
  function WithoutSelf<T>(edges: Edges<T>): Edges<T> {
    map n | n in edges :: edges[n] - {n}
  }

  /** Dropping self-edges does not change what is reached. */
  lemma WithoutSelfReaches<T(!new)>(edges: Edges<T>, a: T, b: T)
    ensures Reaches(WithoutSelf(edges), a, b) <==> Reaches(edges, a, b)
  {
    var g := WithoutSelf(edges);
    if Reaches(edges, a, b) {
      var found := ReachSet(g, a);
      ReachSetClosed(g, a);
      assert Closed(edges, found) by {
        forall x | x in found
          ensures Next(edges, x) <= found
        {
          assert Next(edges, x) <= Next(g, x) + {x};
        }
      }
      ClosedKeeps(edges, found, a, b);
    }
    if Reaches(g, a, b) {
      var found := ReachSet(edges, a);
      ReachSetClosed(edges, a);
      assert Closed(g, found) by {
        forall x | x in found
          ensures Next(g, x) <= found
        {
          assert Next(g, x) <= Next(edges, x);
        }
      }
      ClosedKeeps(g, found, a, b);
    }
  }

  lemma FirstEdge<T(!new)>(g: Edges<T>, a: T, b: T) returns (c: T)
    requires Reaches(g, a, b) && a != b
    ensures c in Next(g, a) && Reaches(g, c, b)
  {
    var p :| Joins(g, p, a, b);
    c := p[1];
    assert Joins(g, p[1..], c, b);
  }

  lemma PairInGroup<T(!new)>(nodes: seq<T>, edges: Edges<T>, groups: seq<set<T>>, a: T, b: T)
    requires AreCycles(nodes, edges, groups) && a in nodes && b in nodes && a != b
    requires Reaches(edges, a, b) && Reaches(edges, b, a)
    ensures groups != []
  {
    var mine := Component(nodes, edges, a);
    ReachesSelf(edges, a);
    assert {a, b} <= mine;
    SubsetAtMost({a, b}, mine);
    assert mine in groups;
  }

  lemma TwoMembers<T>(s: set<T>) returns (a: T, b: T)
    requires |s| > 1
    ensures a in s && b in s && a != b
  {
    a :| a in s;
    assert |s - {a}| > 0;
    b :| b in s - {a};
  }

  /** There is no cycle exactly when the graph without self-edges is a DAG, and then CD
      itself is a topological rank: it falls along every edge to another node. */
  lemma NoCyclesIffDag<T(!new)>(nodes: seq<T>, edges: Edges<T>, groups: seq<set<T>>)
    requires Inside(nodes, edges) && AreCycles(nodes, edges, groups)
    ensures groups == [] <==> Acyclic(WithoutSelf(edges))
    ensures groups == [] <==> forall a, b | b in Next(edges, a) && b != a :: |ReachSet(edges, b)| < |ReachSet(edges, a)|
  {
    var g := WithoutSelf(edges);
    if groups == [] {
      forall a, b | b in Next(g, a)
        ensures !Reaches(g, b, a)
      {
        if Reaches(g, b, a) {
          WithoutSelfReaches(edges, b, a);
          ReachesEdge(edges, a, b);
          PairInGroup(nodes, edges, groups, a, b);
        }
      }
    } else {
      assert groups[0] in groups;
      var n :| n in nodes && groups[0] == Component(nodes, edges, n);
      var a, b := TwoMembers(groups[0]);
      ComponentSame(nodes, edges, n, a);
      WithoutSelfReaches(edges, a, b);
      WithoutSelfReaches(edges, b, a);
      var c := FirstEdge(g, a, b);
      ReachesTrans(g, c, b, a);
      assert !Acyclic(g);
    }
    CdIsHeight(edges);
  }

  lemma CdIsHeight<T(!new)>(edges: Edges<T>)
    ensures Acyclic(WithoutSelf(edges)) <==>
            forall a, b | b in Next(edges, a) && b != a :: |ReachSet(edges, b)| < |ReachSet(edges, a)|
  {
    var g := WithoutSelf(edges);
    AcyclicIffRanked(g);
    forall a
      ensures ReachSet(g, a) == ReachSet(edges, a)
    {
      forall b
        ensures b in ReachSet(g, a) <==> b in ReachSet(edges, a)
      {
        WithoutSelfReaches(edges, a, b);
        ReachSetExact(g, a, b);
        ReachSetExact(edges, a, b);
      }
    }
    assert forall a, b :: b in Next(g, a) <==> b in Next(edges, a) && b != a;
    assert forall a :: Height(g)(a) == |ReachSet(edges, a)|;
  }

  // ------------------------------------------------------------ the balanced tree

  /** The heap-shaped tree over `1..n`: every node depends on its children. */
  function HeapEdges(n: nat): Edges<int> {
    map i: int | 1 <= i <= n ::
      (if 2 * i <= n then {2 * i} else {}) + if 2 * i + 1 <= n then {2 * i + 1} else {}
  }

  function HeapNodes(n: nat): seq<int> {
    seq(n, k requires 0 <= k => k + 1)
  }

  /** The nodes of the subtree of `i`. */
  ghost function Subtree(i: nat, n: nat): set<int>
    requires i >= 1
  {
    set m: int | 1 <= m <= n && Above(i, m)
  }

  lemma {:induction false} SubtreeCounts(i: nat, n: nat)
    requires i >= 1
    ensures |Subtree(i, n)| == SubtreeSize(i, n)
  {
    if n == 0 {
      assert Subtree(i, 0) == {};
    } else {
      SubtreeCounts(i, n - 1);
      SizeGrows(i, n - 1);
      assert Subtree(i, n) == Subtree(i, n - 1) + if Above(i, n) then {n} else {};
    }
  }

  lemma {:induction false} AboveReaches(i: nat, m: nat, n: nat)
    requires i >= 1 && 1 <= m <= n && Above(i, m)
    ensures Reaches(HeapEdges(n), i, m)
  {
    if i == m {
      ReachesSelf(HeapEdges(n), i);
    } else {
      AboveReaches(i, m / 2, n);
      assert m in Next(HeapEdges(n), m / 2);
      ReachesStep(HeapEdges(n), i, m / 2, m);
    }
  }

  lemma HeapReach(i: nat, n: nat)
    requires 1 <= i <= n
    ensures ReachSet(HeapEdges(n), i) == Subtree(i, n)
  {
    var g := HeapEdges(n);
    assert Closed(g, Subtree(i, n)) by {
      forall a, b | a in Subtree(i, n) && b in Next(g, a)
        ensures b in Subtree(i, n)
      {
        assert b / 2 == a;
      }
    }
    forall m
      ensures m in ReachSet(g, i) <==> m in Subtree(i, n)
    {
      ReachSetExact(g, i, m);
      if m in Subtree(i, n) {
        AboveReaches(i, m, n);
      }
      if Reaches(g, i, m) {
        ClosedKeeps(g, Subtree(i, n), i, m);
      }
    }
  }

  lemma {:induction false} HeapCcd(n: nat, upTo: nat)
    requires upTo <= n
    ensures Ccd(HeapNodes(upTo), HeapEdges(n)) == SumSizes(n, upTo)
  {
    if upTo > 0 {
      var nodes := HeapNodes(upTo);
      assert nodes[..upTo - 1] == HeapNodes(upTo - 1);
      HeapCcd(n, upTo - 1);
      HeapReach(upTo, n);
      SubtreeCounts(upTo, n);
    }
  }

  lemma SelfRatio(a: nat, b: nat)
    requires a == b > 0
    ensures a as real / b as real == 1.0
  {}

  /** The balanced tree's own CCD is the denominator, so its NCCD is exactly one. */
  lemma BalancedTreeScoresOne(n: nat)
    requires n > 0
    ensures Ccd(HeapNodes(n), HeapEdges(n)) == SumLevels(n) > 0
    ensures Ccd(HeapNodes(n), HeapEdges(n)) as real / SumLevels(n) as real == 1.0
  {
    HeapCcd(n, n);
    SizesAreLevels(n);
    LevelsPositive(n);
    SelfRatio(Ccd(HeapNodes(n), HeapEdges(n)), SumLevels(n));
  }
}
