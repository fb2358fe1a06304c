/**
 * Finite directed graphs as adjacency maps, and reachability along paths.
 * A node without an entry has no outgoing edges.
 */
module Graph {
  type Edges<T> = map<T, set<T>>

  function Next<T>(g: Edges<T>, n: T): set<T> {
    if n in g then g[n] else {}
  }

  ghost predicate IsPath<T>(g: Edges<T>, p: seq<T>) {
    |p| > 0 && forall i | 0 <= i < |p| - 1 :: p[i + 1] in Next(g, p[i])
  }

  ghost predicate Joins<T>(g: Edges<T>, p: seq<T>, a: T, b: T) {
    IsPath(g, p) && p[0] == a && p[|p| - 1] == b
  }

  /** `b` can be reached from `a` along zero or more edges. */
  ghost predicate Reaches<T(!new)>(g: Edges<T>, a: T, b: T) {
    exists p :: Joins(g, p, a, b)
  }

  ghost predicate Closed<T(!new)>(g: Edges<T>, s: set<T>) {
    forall a | a in s :: Next(g, a) <= s
  }

  /** No edge lies on a cycle; self-edges count as cycles. */
  ghost predicate Acyclic<T(!new)>(g: Edges<T>) {
    forall a, b | b in Next(g, a) :: !Reaches(g, b, a)
  }

  /** Every node that is the source or the target of an edge. */
  ghost function Nodes<T(!new)>(g: Edges<T>): set<T> {
    g.Keys + set a, b | a in g && b in g[a] :: b
  }

  lemma NextInNodes<T(!new)>(g: Edges<T>, a: T)
    ensures Next(g, a) <= Nodes(g)
  {
    forall b | b in Next(g, a)
      ensures b in Nodes(g)
    {}
  }

  /** What `a` reaches, `a` itself included. */
  ghost function ReachSet<T(!new)>(g: Edges<T>, a: T): set<T> {
    set b | b in Nodes(g) + {a} && Reaches(g, a, b)
  }

  lemma ReachesSelf<T(!new)>(g: Edges<T>, a: T)
    ensures Reaches(g, a, a)
  {
    assert Joins(g, [a], a, a);
  }

  lemma ReachesEdge<T(!new)>(g: Edges<T>, a: T, b: T)
    requires b in Next(g, a)
    ensures Reaches(g, a, b)
  {
    assert Joins(g, [a, b], a, b);
  }

  lemma ReachesTrans<T(!new)>(g: Edges<T>, a: T, b: T, c: T)
    requires Reaches(g, a, b) && Reaches(g, b, c)
    ensures Reaches(g, a, c)
  {
    var p :| Joins(g, p, a, b);
    var q :| Joins(g, q, b, c);
    var r := p + q[1..];
    forall i | 0 <= i < |r| - 1
      ensures r[i + 1] in Next(g, r[i])
    {
      if i >= |p| - 1 {
        assert r[i] == q[i - |p| + 1] && r[i + 1] == q[i - |p| + 2];
      }
    }
    assert Joins(g, r, a, c);
  }

  lemma ReachesStep<T(!new)>(g: Edges<T>, a: T, b: T, c: T)
    requires Reaches(g, a, b) && c in Next(g, b)
    ensures Reaches(g, a, c)
  {
    ReachesEdge(g, b, c);
    ReachesTrans(g, a, b, c);
  }

  /** A closed set keeps every path that starts in it. */
  lemma {:induction false} ClosedKeepsPath<T(!new)>(g: Edges<T>, s: set<T>, p: seq<T>)
    requires Closed(g, s) && IsPath(g, p) && p[0] in s
    ensures p[|p| - 1] in s
  {
    if |p| > 1 {
      assert p[1] in Next(g, p[0]);
      ClosedKeepsPath(g, s, p[1..]);
    }
  }

  lemma ClosedKeeps<T(!new)>(g: Edges<T>, s: set<T>, a: T, b: T)
    requires Closed(g, s) && a in s && Reaches(g, a, b)
    ensures b in s
  {
    var p :| Joins(g, p, a, b);
    ClosedKeepsPath(g, s, p);
  }

  lemma ReachSetExact<T(!new)>(g: Edges<T>, a: T, b: T)
    ensures b in ReachSet(g, a) <==> Reaches(g, a, b)
  {
    if Reaches(g, a, b) {
      var p :| Joins(g, p, a, b);
      if |p| > 1 {
        assert p[|p| - 1] in Next(g, p[|p| - 2]);
      }
    }
  }

  lemma ReachSetClosed<T(!new)>(g: Edges<T>, a: T)
    ensures a in ReachSet(g, a) && Closed(g, ReachSet(g, a))
  {
    ReachesSelf(g, a);
    forall b, c | b in ReachSet(g, a) && c in Next(g, b)
      ensures c in ReachSet(g, a)
    {
      ReachesStep(g, a, b, c);
      ReachSetExact(g, a, c);
    }
  }

  /** A subset is no larger, and smaller when it is proper. */
  lemma SubsetAtMost<T>(s: set<T>, t: set<T>)
    requires s <= t
    ensures |s| <= |t| && (s != t ==> |s| < |t|)
  {
    assert t == s + (t - s);
  }

  /** Along an edge that lies on no cycle the reachable set strictly shrinks. */
  lemma ReachShrinks<T(!new)>(g: Edges<T>, a: T, b: T)
    requires b in Next(g, a) && !Reaches(g, b, a)
    ensures ReachSet(g, b) < ReachSet(g, a) && |ReachSet(g, b)| < |ReachSet(g, a)|
  {
    ReachesEdge(g, a, b);
    forall c | c in ReachSet(g, b)
      ensures c in ReachSet(g, a)
    {
      ReachesTrans(g, a, b, c);
      ReachSetExact(g, a, c);
    }
    ReachSetClosed(g, a);
    SubsetAtMost(ReachSet(g, b), ReachSet(g, a));
  }

  /** `rank` is a topological rank: it strictly falls along every edge. */
  ghost predicate Falls<T(!new)>(g: Edges<T>, rank: T -> nat) {
    forall a, b | b in Next(g, a) :: rank(b) < rank(a)
  }

  ghost function Height<T(!new)>(g: Edges<T>): T -> nat {
    a => |ReachSet(g, a)|
  }

  lemma {:induction false} RankFallsAlongPath<T(!new)>(g: Edges<T>, rank: T -> nat, p: seq<T>)
    requires Falls(g, rank) && IsPath(g, p)
    ensures rank(p[|p| - 1]) <= rank(p[0])
  {
    if |p| > 1 {
      assert p[1] in Next(g, p[0]);
      RankFallsAlongPath(g, rank, p[1..]);
    }
  }

  /** A graph is acyclic exactly when it has a topological rank. */
  lemma AcyclicIffRanked<T(!new)>(g: Edges<T>)
    ensures Acyclic(g) <==> exists rank :: Falls(g, rank)
    ensures Acyclic(g) <==> Falls(g, Height(g))
  {
    if Acyclic(g) {
      forall a, b | b in Next(g, a)
        ensures Height(g)(b) < Height(g)(a)
      {
        ReachShrinks(g, a, b);
      }
      assert Falls(g, Height(g));
    }
    forall rank | Falls(g, rank)
      ensures Acyclic(g)
    {
      forall a, b | b in Next(g, a)
        ensures !Reaches(g, b, a)
      {
        if Reaches(g, b, a) {
          var p :| Joins(g, p, b, a);
          RankFallsAlongPath(g, rank, p);
        }
      }
    }
  }
}
