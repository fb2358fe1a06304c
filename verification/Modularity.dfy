/**
 * The graph metrics of the modularity report (scripts/modularity.ts):
 * `closure`, `cyclesOf` and `score`.
 */
module Modularity {
  import opened Graph
  import opened BalancedTree

  function SetOf<T>(s: seq<T>): set<T> {
    set x | x in s
  }

  /** Each node maps to everything it reaches, itself included. */
  ghost predicate IsClosure<T(!new)>(closed: map<T, set<T>>, nodes: seq<T>, edges: Edges<T>) {
    && closed.Keys == SetOf(nodes)
    && forall n | n in nodes :: closed[n] == ReachSet(edges, n)
  }

  /** What one search from `start` reaches, with an explicit stack. */
  method ReachFrom<T(==,!new)>(start: T, edges: Edges<T>) returns (seen: set<T>)
    ensures seen == ReachSet(edges, start)
  {
    seen := {start};
    var stack := [start];
    ReachSetClosed(edges, start);
    while stack != []
      invariant start in seen && seen <= ReachSet(edges, start)
      invariant forall x | x in stack :: x in seen
      invariant forall x | x in seen && x !in stack :: Next(edges, x) <= seen
      decreases ReachSet(edges, start) - seen, |stack|
    {
      var cur := stack[|stack| - 1];
      ghost var seen0 := seen;
      stack := stack[..|stack| - 1];
      var todo := Next(edges, cur);
      ghost var below := stack;
      while todo != {}
        invariant todo <= Next(edges, cur) && seen0 <= seen <= ReachSet(edges, start)
        invariant Next(edges, cur) - todo <= seen
        invariant forall x | x in stack :: x in seen
        invariant forall x | x in seen && x !in stack && x != cur :: Next(edges, x) <= seen
        invariant seen == seen0 ==> stack == below
      {
        var next :| next in todo;
        todo := todo - {next};
        if next !in seen {
          seen := seen + {next};
          ghost var stack0 := stack;
          stack := stack + [next];
          assert forall x :: x in stack <==> x in stack0 || x == next;
        }
      }
    }
    forall b | b in ReachSet(edges, start)
      ensures b in seen
    {
      ClosedKeeps(edges, seen, start, b);
    }
  }

  /** The reflexive transitive closure. */
  method Closure<T(==,!new)>(nodes: seq<T>, edges: Edges<T>) returns (out: map<T, set<T>>)
    ensures IsClosure(out, nodes, edges)
  {
    out := map[];
    for i := 0 to |nodes|
      invariant out.Keys == SetOf(nodes[..i])
      invariant forall n | n in out :: out[n] == ReachSet(edges, n)
    {
      var seen := ReachFrom(nodes[i], edges);
      out := out[nodes[i] := seen];
      assert nodes[..i + 1] == nodes[..i] + [nodes[i]];
    }
    assert nodes[..|nodes|] == nodes;
  }

  // --------------------------------------------------------------------- cycles

  /** The nodes that `n` reaches and that reach `n`. */
  ghost function Component<T(!new)>(nodes: seq<T>, edges: Edges<T>, n: T): set<T> {
    set m | m in nodes && Reaches(edges, n, m) && Reaches(edges, m, n)
  }

  /** No node lies in two groups of the list, so no group stands in it twice. */
  ghost predicate Disjoint<T>(groups: seq<set<T>>) {
    forall i, j | 0 <= i < j < |groups| :: groups[i] !! groups[j]
  }

  predicate LargestFirst<T>(groups: seq<set<T>>) {
    forall i, j | 0 <= i < j < |groups| :: |groups[i]| >= |groups[j]|
  }

  /** The groups are exactly the components of two or more nodes. */
  ghost predicate AreCycles<T(!new)>(nodes: seq<T>, edges: Edges<T>, groups: seq<set<T>>) {
    && (forall g | g in groups :: IsCycle(nodes, edges, g))
    && (forall n | n in nodes && |Component(nodes, edges, n)| > 1 :: Component(nodes, edges, n) in groups)
  }

  lemma ComponentSame<T(!new)>(nodes: seq<T>, edges: Edges<T>, n: T, m: T)
    requires m in Component(nodes, edges, n)
    ensures Component(nodes, edges, m) == Component(nodes, edges, n)
  {
    forall k | k in nodes
      ensures k in Component(nodes, edges, m) <==> k in Component(nodes, edges, n)
    {
      if k in Component(nodes, edges, m) {
        ReachesTrans(edges, n, m, k);
        ReachesTrans(edges, k, m, n);
      }
      if k in Component(nodes, edges, n) {
        ReachesTrans(edges, m, n, k);
        ReachesTrans(edges, k, n, m);
      }
    }
  }

  /** Stable insertion behind the groups that are at least as large. */
  function Insert<T(!new)>(groups: seq<set<T>>, g: set<T>): (r: seq<set<T>>)
    requires LargestFirst(groups)
    ensures LargestFirst(r) && |r| == |groups| + 1
    ensures forall x :: x in r <==> x in groups || x == g
  {
    if groups == [] || |groups[|groups| - 1]| >= |g| then groups + [g]
    else
      var last := |groups| - 1;
      assert groups == groups[..last] + [groups[last]];
      var front := Insert(groups[..last], g);
      assert forall x | x in groups[..last] :: |x| >= |groups[last]|;
      assert forall i | 0 <= i < |front| :: front[i] in front;
      front + [groups[last]]
  }

  /** Where the first node of the group stands in the list, or its length. */
  ghost function FirstIn<T>(nodes: seq<T>, g: set<T>): (k: nat)
    ensures k <= |nodes| && (k < |nodes| ==> nodes[k] in g)
    ensures forall i | 0 <= i < k :: nodes[i] !in g
  {
    if nodes == [] || nodes[0] in g then 0 else 1 + FirstIn(nodes[1..], g)
  }

  /** Larger groups first; of one size, the one with the earlier first node first. */
  ghost predicate Ranked<T>(nodes: seq<T>, groups: seq<set<T>>) {
    forall i, j | 0 <= i < j < |groups| :: RanksBefore(nodes, groups[i], groups[j])
  }

  ghost predicate RanksBefore<T>(nodes: seq<T>, g: set<T>, h: set<T>) {
    |g| > |h| || (|g| == |h| && FirstIn(nodes, g) < FirstIn(nodes, h))
  }

  lemma RankedAppend<T>(nodes: seq<T>, groups: seq<set<T>>, g: set<T>)
    requires Ranked(nodes, groups) && forall x | x in groups :: RanksBefore(nodes, x, g)
    ensures Ranked(nodes, groups + [g])
  {
    assert forall i | 0 <= i < |groups| :: groups[i] in groups;
  }

  lemma {:induction false} InsertRanked<T(!new)>(nodes: seq<T>, groups: seq<set<T>>, g: set<T>)
    requires LargestFirst(groups) && Ranked(nodes, groups)
    requires forall x | x in groups :: FirstIn(nodes, x) < FirstIn(nodes, g)
    ensures Ranked(nodes, Insert(groups, g))
  {
    if groups == [] || |groups[|groups| - 1]| >= |g| {
      RankedAppend(nodes, groups, g);
    } else {
      var last := |groups| - 1;
      assert groups == groups[..last] + [groups[last]];
      InsertRanked(nodes, groups[..last], g);
      forall x | x in Insert(groups[..last], g)
        ensures RanksBefore(nodes, x, groups[last])
      {
        if x != g {
          var k :| 0 <= k < last && groups[k] == x;
          assert RanksBefore(nodes, groups[k], groups[last]);
        }
      }
      RankedAppend(nodes, Insert(groups[..last], g), groups[last]);
    }
  }

  /** Sorting keeps the order of groups of one size. */
  lemma {:induction false} SortRanked<T(!new)>(nodes: seq<T>, groups: seq<set<T>>)
    requires forall i, j | 0 <= i < j < |groups| :: FirstIn(nodes, groups[i]) < FirstIn(nodes, groups[j])
    ensures Ranked(nodes, SortBySize(groups))
  {
    if groups != [] {
      var last := |groups| - 1;
      SortRanked(nodes, groups[..last]);
      forall x | x in SortBySize(groups[..last])
        ensures FirstIn(nodes, x) < FirstIn(nodes, groups[last])
      {
        var k :| 0 <= k < last && groups[k] == x;
      }
      InsertRanked(nodes, SortBySize(groups[..last]), groups[last]);
    }
  }

  /** The groups in order of size, largest first; groups of one size keep their order. */
  function SortBySize<T(!new)>(groups: seq<set<T>>): (r: seq<set<T>>)
    ensures LargestFirst(r)
    ensures forall x :: x in r <==> x in groups
  {
    if groups == [] then []
    else
      assert groups == groups[..|groups| - 1] + [groups[|groups| - 1]];
      Insert(SortBySize(groups[..|groups| - 1]), groups[|groups| - 1])
  }

  lemma DisjointAppend<T>(groups: seq<set<T>>, g: set<T>)
    requires Disjoint(groups) && forall x | x in groups :: x !! g
    ensures Disjoint(groups + [g])
  {
    assert forall i | 0 <= i < |groups| :: groups[i] in groups;
  }

  lemma {:induction false} InsertDisjoint<T(!new)>(groups: seq<set<T>>, g: set<T>)
    requires LargestFirst(groups) && Disjoint(groups) && forall x | x in groups :: x !! g
    ensures Disjoint(Insert(groups, g))
  {
    if groups == [] || |groups[|groups| - 1]| >= |g| {
      DisjointAppend(groups, g);
    } else {
      var last := |groups| - 1;
      assert forall x | x in groups[..last] :: x in groups;
      InsertDisjoint(groups[..last], g);
      forall x | x in Insert(groups[..last], g)
        ensures x !! groups[last]
      {
        assert groups[last] in groups;
        if x != g {
          assert x in groups[..last];
          var k :| 0 <= k < last && groups[k] == x;
        }
      }
      DisjointAppend(Insert(groups[..last], g), groups[last]);
    }
  }

  lemma {:induction false} SortDisjoint<T(!new)>(groups: seq<set<T>>)
    requires Disjoint(groups)
    ensures Disjoint(SortBySize(groups)) && |SortBySize(groups)| == |groups|
  {
    if groups != [] {
      var last := |groups| - 1;
      SortDisjoint(groups[..last]);
      forall x | x in SortBySize(groups[..last])
        ensures x !! groups[last]
      {
        var k :| 0 <= k < last && groups[k] == x;
      }
      InsertDisjoint(SortBySize(groups[..last]), groups[last]);
    }
  }

  /** What `n` reaches and is reached from, read off the closure. */
  function Group<T>(closed: map<T, set<T>>, n: T): set<T> {
    if n in closed then set m | m in closed[n] && m in closed && n in closed[m] else {}
  }

  lemma GroupIsComponent<T(!new)>(nodes: seq<T>, edges: Edges<T>, closed: map<T, set<T>>, n: T)
    requires IsClosure(closed, nodes, edges) && n in nodes
    ensures Group(closed, n) == Component(nodes, edges, n) && n in Group(closed, n)
  {
    forall m
      ensures m in Group(closed, n) <==> m in Component(nodes, edges, n)
    {
      ReachSetExact(edges, n, m);
      ReachSetExact(edges, m, n);
    }
    ReachesSelf(edges, n);
  }

  /** `seen` is a union of components. */
  ghost predicate WholeComponents<T(!new)>(nodes: seq<T>, edges: Edges<T>, seen: set<T>) {
    forall x | x in seen :: x in nodes && Component(nodes, edges, x) <= seen
  }

  /** `g` is a component of two or more nodes. */
  ghost predicate IsCycle<T(!new)>(nodes: seq<T>, edges: Edges<T>, g: set<T>) {
    |g| > 1 && exists n :: n in nodes && g == Component(nodes, edges, n)
  }

  /** How far the scan has come: `out` has the components of `seen` of two or more nodes. */
  ghost predicate Scanned<T(!new)>(nodes: seq<T>, edges: Edges<T>, seen: set<T>, out: seq<set<T>>) {
    && WholeComponents(nodes, edges, seen)
    && (forall g | g in out :: g <= seen && IsCycle(nodes, edges, g))
    && (forall x | x in seen && |Component(nodes, edges, x)| > 1 :: Component(nodes, edges, x) in out)
    && Disjoint(out)
  }

  lemma GroupApart<T(!new)>(nodes: seq<T>, edges: Edges<T>, seen: set<T>, n: T)
    requires forall x | x in seen :: Component(nodes, edges, x) <= seen
    requires n in nodes && n !in seen
    ensures seen !! Component(nodes, edges, n)
    ensures forall k | k in Component(nodes, edges, n) :: Component(nodes, edges, k) == Component(nodes, edges, n)
    ensures n in Component(nodes, edges, n)
  {
    ReachesSelf(edges, n);
    forall k | k in Component(nodes, edges, n)
      ensures Component(nodes, edges, k) == Component(nodes, edges, n)
    {
      ComponentSame(nodes, edges, n, k);
    }
  }

  lemma ScanCycles<T(!new)>(nodes: seq<T>, edges: Edges<T>, seen: set<T>, out: seq<set<T>>, group: set<T>)
    requires forall g | g in out :: g <= seen && IsCycle(nodes, edges, g)
    requires Disjoint(out) && seen !! group && IsCycle(nodes, edges, group)
    ensures forall g | g in out + [group] :: g <= seen + group && IsCycle(nodes, edges, g)
    ensures Disjoint(out + [group])
  {
    assert forall g | g in out + [group] :: g in out || g == group;
    DisjointAppend(out, group);
  }

  lemma ScanComplete<T(!new)>(nodes: seq<T>, edges: Edges<T>, seen: set<T>, out: seq<set<T>>, more: seq<set<T>>,
                              group: set<T>)
    requires forall x | x in seen && |Component(nodes, edges, x)| > 1 :: Component(nodes, edges, x) in out
    requires forall x | x in group :: Component(nodes, edges, x) == group
    requires |group| > 1 ==> group in more
    ensures forall x | x in seen + group && |Component(nodes, edges, x)| > 1 :: Component(nodes, edges, x) in out + more
  {}

  lemma ScanOne<T(!new)>(nodes: seq<T>, edges: Edges<T>, seen: set<T>, out: seq<set<T>>, n: T, group: set<T>)
    requires Scanned(nodes, edges, seen, out) && n in nodes && n !in seen && group == Component(nodes, edges, n)
    ensures Scanned(nodes, edges, seen + group, if |group| > 1 then out + [group] else out)
  {
    GroupApart(nodes, edges, seen, n);
    assert WholeComponents(nodes, edges, seen + group);
    if |group| > 1 {
      assert IsCycle(nodes, edges, group);
      ScanCycles(nodes, edges, seen, out, group);
      ScanComplete(nodes, edges, seen, out, [group], group);
    } else {
      ScanComplete(nodes, edges, seen, out, [], group);
      assert out + [] == out;
    }
  }

  lemma ScannedAll<T(!new)>(nodes: seq<T>, edges: Edges<T>, seen: set<T>, out: seq<set<T>>)
    requires Scanned(nodes, edges, seen, out) && SetOf(nodes) <= seen
    ensures AreCycles(nodes, edges, SortBySize(out)) && Disjoint(SortBySize(out))
  {
    SortDisjoint(out);
  }

  /** The groups found by node `i` come in the order of their first nodes. */
  ghost predicate FoundInOrder<T>(nodes: seq<T>, out: seq<set<T>>, i: nat) {
    && (forall g | g in out :: FirstIn(nodes, g) < i)
    && (forall k, l | 0 <= k < l < |out| :: FirstIn(nodes, out[k]) < FirstIn(nodes, out[l]))
  }

  lemma FoundNext<T(!new)>(nodes: seq<T>, edges: Edges<T>, seen: set<T>, out: seq<set<T>>, i: nat, group: set<T>)
    requires i < |nodes| && nodes[i] !in seen && SetOf(nodes[..i]) <= seen && Scanned(nodes, edges, seen, out)
    requires group == Component(nodes, edges, nodes[i]) && FoundInOrder(nodes, out, i)
    ensures FoundInOrder(nodes, out + [group], i + 1)
  {
    GroupApart(nodes, edges, seen, nodes[i]);
    assert forall k | 0 <= k < i :: nodes[k] == nodes[..i][k] && nodes[..i][k] in SetOf(nodes[..i]);
    assert FirstIn(nodes, group) == i;
    assert forall g | g in out + [group] :: g in out || g == group;
    assert forall k | 0 <= k < |out| :: out[k] in out;
  }

  /** Every strongly connected component of two or more nodes, exactly once, largest first and
      otherwise in the order of their first nodes. */
  method CyclesOf<T(==,!new)>(nodes: seq<T>, closed: map<T, set<T>>, ghost edges: Edges<T>)
    returns (out: seq<set<T>>)
    requires IsClosure(closed, nodes, edges)
    ensures AreCycles(nodes, edges, out) && Disjoint(out) && Ranked(nodes, out)
  {
    var seen: set<T> := {};
    out := [];
    for i := 0 to |nodes|
      invariant SetOf(nodes[..i]) <= seen && Scanned(nodes, edges, seen, out)
      invariant FoundInOrder(nodes, out, i)
    {
      var n := nodes[i];
      assert SetOf(nodes[..i + 1]) == SetOf(nodes[..i]) + {n};
      if n !in seen {
        GroupIsComponent(nodes, edges, closed, n);
        var group := Group(closed, n);
        ScanOne(nodes, edges, seen, out, n, group);
        FoundNext(nodes, edges, seen, out, i, group);
        seen := seen + group;
        if |group| > 1 {
          out := out + [group];
        }
      }
    }
    assert nodes[..|nodes|] == nodes;
    ScannedAll(nodes, edges, seen, out);
    SortRanked(nodes, out);
    out := SortBySize(out);
  }

  // ---------------------------------------------------------------------- score

  /** CD is the size of a node's reachable set, CCD their sum, ACD their mean, NCCD that of a
      balanced tree's, and the propagation cost the mean share of the system reached. */
  datatype Scored<T> = Scored(nodes: seq<T>, ccd: nat, acd: real, nccd: real, propagationCost: real,
                              cd: map<T, nat>, cycles: seq<set<T>>, cyclePenalty: nat)

  ghost function Ccd<T(!new)>(nodes: seq<T>, edges: Edges<T>): nat {
    if nodes == [] then 0
    else Ccd(nodes[..|nodes| - 1], edges) + |ReachSet(edges, nodes[|nodes| - 1])|
  }

  function Penalty<T>(groups: seq<set<T>>): nat {
    if groups == [] then 0
    else
      var g := groups[|groups| - 1];
      SquareAtLeast(|g|);
      Penalty(groups[..|groups| - 1]) + (|g| * |g| - |g|)
  }

  lemma SquareAtLeast(n: nat)
    ensures n * n >= n
  {
    if n > 0 {
      assert n * n == (n - 1) * n + n;
    }
  }

  function Squared(n: nat): nat {
    SquareAtLeast(n);
    n * n
  }

  /** `x || 1` for a count. */
  function OrOne(x: nat): (r: nat)
    ensures r > 0
  {
    if x == 0 then 1 else x
  }

  function Ratio(a: nat, b: nat): real
    requires b > 0
  {
    a as real / b as real
  }

  lemma CcdOne<T(!new)>(nodes: seq<T>, n: T, edges: Edges<T>)
    ensures Ccd(nodes + [n], edges) == Ccd(nodes, edges) + |ReachSet(edges, n)|
    ensures SetOf(nodes + [n]) == SetOf(nodes) + {n}
  {
    assert (nodes + [n])[..|nodes|] == nodes;
  }

  /** The loop of `score` over the closure. */
  method CountReached<T(==,!new)>(nodes: seq<T>, closed: map<T, set<T>>, ghost edges: Edges<T>)
    returns (cd: map<T, nat>, ccd: nat)
    requires IsClosure(closed, nodes, edges)
    ensures cd.Keys == SetOf(nodes) && forall n | n in nodes :: cd[n] == |ReachSet(edges, n)|
    ensures ccd == Ccd(nodes, edges)
  {
    cd, ccd := map[], 0;
    for i := 0 to |nodes|
      invariant cd.Keys == SetOf(nodes[..i])
      invariant forall n | n in cd :: cd[n] == |ReachSet(edges, n)|
      invariant ccd == Ccd(nodes[..i], edges)
    {
      var n := nodes[i];
      var size := if n in closed then |closed[n]| else 1;
      cd := cd[n := size];
      ccd := ccd + size;
      CcdOne(nodes[..i], n, edges);
      assert nodes[..i + 1] == nodes[..i] + [n];
    }
    assert nodes[..|nodes|] == nodes;
  }

  /** Adds up the ordered pairs of different members over the groups. */
  method SumPenalty<T(==)>(cycles: seq<set<T>>) returns (sum: nat)
    ensures sum == Penalty(cycles)
  {
    sum := 0;
    for i := 0 to |cycles|
      invariant sum == Penalty(cycles[..i])
    {
      var g := cycles[i];
      SquareAtLeast(|g|);
      sum := sum + (|g| * |g| - |g|);
      assert cycles[..i + 1] == cycles[..i] + [g];
    }
    assert cycles[..|cycles|] == cycles;
  }

  /** Of `n` nodes the ACD is the CCD over `n`, the NCCD that over the balanced tree's, and the
      propagation cost that over `n * n`; without nodes all are zero. */
  ghost predicate Means<T>(r: Scored<T>, n: nat) {
    if n == 0 then r.acd == r.nccd == r.propagationCost == 0.0
    else
      SumLevels(n) > 0 && n * n > 0
      && r.acd == r.ccd as real / n as real
      && r.nccd == r.ccd as real / SumLevels(n) as real
      && r.propagationCost == r.ccd as real / (n * n) as real
  }

  lemma RatiosAreMeans<T>(r: Scored<T>, n: nat)
    requires n == 0 ==> r.ccd == 0
    requires r.acd == Ratio(r.ccd, OrOne(n)) && r.nccd == Ratio(r.ccd, OrOne(SumLevels(n)))
    requires r.propagationCost == Ratio(r.ccd, OrOne(Squared(n)))
    ensures Means(r, n)
  {
    SquareAtLeast(n);
    if n > 0 {
      LevelsPositive(n);
    }
  }

  method Score<T(==,!new)>(nodes: seq<T>, edges: Edges<T>) returns (r: Scored<T>)
    ensures r.nodes == nodes
    ensures r.cd.Keys == SetOf(nodes) && forall n | n in nodes :: r.cd[n] == |ReachSet(edges, n)|
    ensures r.ccd == Ccd(nodes, edges)
    ensures AreCycles(nodes, edges, r.cycles) && Disjoint(r.cycles) && Ranked(nodes, r.cycles)
    ensures r.cyclePenalty == Penalty(r.cycles)
    ensures Means(r, |nodes|)
  {
    var closed := Closure(nodes, edges);
    var cd, ccd := CountReached(nodes, closed, edges);
    var cycles := CyclesOf(nodes, closed, edges);
    var penalty := SumPenalty(cycles);
    var balanced := BalancedTreeCcd(|nodes|);
    assert balanced == OrOne(SumLevels(|nodes|));
    assert nodes == [] ==> ccd == 0;
    r := Scored(nodes, ccd, Ratio(ccd, OrOne(|nodes|)), Ratio(ccd, balanced),
                Ratio(ccd, OrOne(Squared(|nodes|))), cd, cycles, penalty);
    RatiosAreMeans(r, |nodes|);
  }
}
