/**
 * The placement worklist ends on every stratified lockfile, in particular on
 * acyclic ones and on those with one version of each package.
 */
module PlacementEnds {
  import opened Graph
  import opened Lockfile
  import opened NodeModules
  import opened Placement
  import opened PlacementProofs
  import opened PlacementTheorems
  import opened PlacementTermination

  lemma {:induction false} PlaceAllShallow(lock: Lock, roots: seq<Dep>, st: State, rank: string -> nat, top: nat,
                                           loc: Loc, cs: seq<Dep>)
    requires WellNamed(lock, roots) && Stratified(lock, rank) && RanksBelow(roots, rank, top)
    requires Tidy(lock, roots, st) && Fresh(st, loc) && AllNecessary(st.tree) && Rooted(lock, roots, st.tree)
    requires Shallow(st.tree, rank, top, AllNames(lock, roots))
    requires forall c | c in cs :: c in st.placed[loc]
    ensures var p := PlaceAll(lock, st, loc, cs); p.Going? ==> Shallow(p.st.tree, rank, top, AllNames(lock, roots))
  {
    if cs != [] {
      var before := cs[..|cs| - 1];
      PlaceAllShallow(lock, roots, st, rank, top, loc, before);
      var p := PlaceAll(lock, st, loc, before);
      if p.Going? {
        PlaceAllKeeps(lock, roots, st, loc, before);
        PlaceAllRooted(lock, roots, st, loc, before);
        PlaceShallowTidy(lock, roots, p.st, rank, top, loc, cs[|cs| - 1]);
      }
    }
  }

  lemma PlaceShallowTidy(lock: Lock, roots: seq<Dep>, st: State, rank: string -> nat, top: nat, loc: Loc, d: Dep)
    requires WellNamed(lock, roots) && Stratified(lock, rank) && RanksBelow(roots, rank, top)
    requires Tidy(lock, roots, st) && Rooted(lock, roots, st.tree)
    requires Shallow(st.tree, rank, top, AllNames(lock, roots))
    requires loc in st.placed && d in st.placed[loc]
    ensures var p := Place(lock, st, loc, d); p.Going? ==> Shallow(p.st.tree, rank, top, AllNames(lock, roots))
  {
    assert NestedInParent(lock, st.tree) by { TidyNests(lock, roots, st); }
    assert DepOf(lock, roots, st.tree, loc, d) by { PlacedIsDepOf(lock, roots, st, loc, d); }
    ShallowPlace(lock, roots, st, rank, top, loc, d);
  }

  /** What every state of a run keeps (`NestingIsNeverGratuitous`, `RunIsRooted`). */
  ghost predicate Kept(lock: Lock, roots: seq<Dep>, st: State) {
    Tidy(lock, roots, st) && AllNecessary(st.tree) && Rooted(lock, roots, st.tree)
  }

  lemma RunIsKept(lock: Lock, roots: seq<Dep>, n: nat)
    requires WellNamed(lock, roots)
    ensures Run(lock, roots, n).Going? ==> Kept(lock, roots, Run(lock, roots, n).st)
  {
    NestingIsNeverGratuitous(lock, roots, n);
    RunIsRooted(lock, roots, n);
  }

  /** A turn from a kept state keeps `p`. */
  ghost predicate TurnKeeps(lock: Lock, roots: seq<Dep>, p: State -> bool, st: State) {
    Kept(lock, roots, st) && st.queue != [] && p(st) && Step(lock, st).Going? ==> p(Step(lock, st).st)
  }

  ghost predicate HoldsIfGoing(p: State -> bool, r: Progress) {
    r.Going? ==> p(r.st)
  }

  lemma NextTurnKeeps(lock: Lock, roots: seq<Dep>, p: State -> bool, n: nat)
    requires WellNamed(lock, roots) && HoldsIfGoing(p, Run(lock, roots, n))
    requires forall st :: TurnKeeps(lock, roots, p, st)
    ensures HoldsIfGoing(p, Run(lock, roots, n + 1))
  {
    var r := Run(lock, roots, n);
    if r.Going? && r.st.queue != [] {
      assert Kept(lock, roots, r.st) by { RunIsKept(lock, roots, n); }
      assert Run(lock, roots, n + 1) == Step(lock, r.st);
      assert TurnKeeps(lock, roots, p, r.st);
    }
  }

  /** What holds at the start and is kept by every turn holds throughout. */
  lemma {:induction false} RunInduction(lock: Lock, roots: seq<Dep>, p: State -> bool, n: nat)
    requires WellNamed(lock, roots) && p(Init(roots))
    requires forall st :: TurnKeeps(lock, roots, p, st)
    ensures HoldsIfGoing(p, Run(lock, roots, n))
  {
    if n > 0 {
      RunInduction(lock, roots, p, n - 1);
      NextTurnKeeps(lock, roots, p, n - 1);
    }
  }

  lemma StepIsShallow(lock: Lock, roots: seq<Dep>, rank: string -> nat, top: nat, st: State)
    requires WellNamed(lock, roots) && Stratified(lock, rank) && RanksBelow(roots, rank, top)
    requires Kept(lock, roots, st) && st.queue != []
    requires Shallow(st.tree, rank, top, AllNames(lock, roots))
    ensures var p := Step(lock, st); p.Going? ==> Shallow(p.st.tree, rank, top, AllNames(lock, roots))
  {
    TidyDequeue(lock, roots, st);
    FreshDequeue(lock, roots, st);
    PlaceAllShallow(lock, roots, Dequeue(st), rank, top, st.queue[0].loc, st.queue[0].children);
  }

  lemma RunIsShallow(lock: Lock, roots: seq<Dep>, rank: string -> nat, top: nat, n: nat)
    requires WellNamed(lock, roots) && Stratified(lock, rank) && RanksBelow(roots, rank, top)
    ensures var p := Run(lock, roots, n); p.Going? ==> Shallow(p.st.tree, rank, top, AllNames(lock, roots))
  {
    var names := AllNames(lock, roots);
    var shallow := (st: State) => Shallow(st.tree, rank, top, names);
    forall st
      ensures TurnKeeps(lock, roots, shallow, st)
    {
      if Kept(lock, roots, st) && st.queue != [] && shallow(st) {
        StepIsShallow(lock, roots, rank, top, st);
      }
    }
    RunInduction(lock, roots, shallow, n);
  }

  // -------------------------------------------------------------- counting turns

  lemma TurnPlaces(lock: Lock, roots: seq<Dep>, n: nat, st: State)
    requires Run(lock, roots, n) == Going(st) && st.queue != []
    ensures var p := Step(lock, st); p.Going? ==> |p.st.placed.Keys| == |st.placed.Keys| + 1
  {
    var loc := st.queue[0].loc;
    NestingIsNeverGratuitous(lock, roots, n);
    TidyDequeue(lock, roots, st);
    FreshDequeue(lock, roots, st);
    PlaceAllKeeps(lock, roots, Dequeue(st), loc, st.queue[0].children);
    assert Dequeue(st).placed.Keys == st.placed.Keys + {loc};
  }

  /** Every turn places one more location. */
  lemma {:induction false} TurnsArePlacements(lock: Lock, roots: seq<Dep>, n: nat)
    requires n > 0 ==> !Ended(Run(lock, roots, n - 1))
    ensures var p := Run(lock, roots, n); p.Going? ==> |p.st.placed.Keys| == n
  {
    if n > 0 {
      TurnsArePlacements(lock, roots, n - 1);
      TurnPlaces(lock, roots, n - 1, Run(lock, roots, n - 1).st);
    }
  }

  /** The locations of depth at most `k` over `names`. */
  function Locs(names: set<string>, k: nat): set<Loc> {
    if k == 0 then {Root}
    else
      var up := Locs(names, k - 1);
      up + (set p, x | p in up && x in names :: In(p, x)) + set x | x in names :: Slashed(x)
  }

  lemma {:induction false} LocsGrow(names: set<string>, k: nat, m: nat)
    requires k <= m
    ensures Locs(names, k) <= Locs(names, m)
    decreases m
  {
    if k < m {
      LocsGrow(names, k, m - 1);
    }
  }

  lemma DeeperLocs(names: set<string>, k: nat, p: Loc, x: string)
    requires x in names
    ensures p in Locs(names, k) ==> In(p, x) in Locs(names, k + 1)
    ensures Slashed(x) in Locs(names, k + 1)
  {}

  /** All names along the location are among `names`. */
  predicate Spelled(names: set<string>, l: Loc) {
    match l
    case Root => true
    case In(p, x) => x in names && Spelled(names, p)
    case Slashed(x) => x in names
  }

  lemma {:induction false} SpelledInLocs(names: set<string>, l: Loc)
    requires Spelled(names, l)
    ensures l in Locs(names, Depth(l))
  {
    if l.In? {
      SpelledInLocs(names, l.parent);
      DeeperLocs(names, Depth(l.parent), l.parent, l.name);
    } else if l.Slashed? {
      DeeperLocs(names, 0, Root, l.name);
    }
  }

  /** All entries carry one of the names. */
  ghost predicate Named(tree: Tree, names: set<string>) {
    forall l | l in tree :: tree[l].name in names
  }

  ghost predicate NoDeeper(tree: Tree, deepest: nat) {
    forall l | l in tree :: Depth(l) <= deepest
  }

  lemma {:induction false} EntryIsSpelled(lock: Lock, tree: Tree, names: set<string>, l: Loc)
    requires NestedInParent(lock, tree) && Named(tree, names)
    requires l == Root || l in tree
    ensures Spelled(names, l)
    decreases l
  {
    if l != Root {
      assert NestsAt(lock, tree, l);
      if l.In? {
        EntryIsSpelled(lock, tree, names, l.parent);
      }
    }
  }

  function MaxDepth(top: nat, names: nat): nat {
    Bound(top, 0, names) + names
  }

  lemma FitsDepth(tree: Tree, rank: string -> nat, top: nat, names: set<string>, l: Loc)
    requires l in tree && Fits(tree, rank, top, names, l)
    ensures Depth(l) <= MaxDepth(top, |names|)
  {
    var r := rank(tree[l].snapshot);
    SubsetAtMost(Streak(tree, rank, l), names);
    if r > 0 {
      BoundDrops(top, r, 0, |names|);
    }
  }

  lemma ShallowIsBounded(tree: Tree, rank: string -> nat, top: nat, names: set<string>)
    requires Shallow(tree, rank, top, names)
    ensures Named(tree, names) && NoDeeper(tree, MaxDepth(top, |names|))
  {
    forall l | l in tree
      ensures tree[l].name in names && Depth(l) <= MaxDepth(top, |names|)
    {
      FitsDepth(tree, rank, top, names, l);
    }
  }

  lemma KnownInLocs(lock: Lock, tree: Tree, names: set<string>, deepest: nat, l: Loc)
    requires NestedInParent(lock, tree) && Named(tree, names) && NoDeeper(tree, deepest)
    requires l == Root || l in tree
    ensures l in Locs(names, deepest)
  {
    EntryIsSpelled(lock, tree, names, l);
    SpelledInLocs(names, l);
    LocsGrow(names, Depth(l), deepest);
  }

  /** How many turns a stratified run can take. */
  function TurnLimit(lock: Lock, roots: seq<Dep>, top: nat): nat {
    |Locs(AllNames(lock, roots), MaxDepth(top, |AllNames(lock, roots)|))|
  }

  lemma KnownAreFew(lock: Lock, tree: Tree, names: set<string>, deepest: nat, known: set<Loc>)
    requires NestedInParent(lock, tree) && Named(tree, names) && NoDeeper(tree, deepest)
    requires forall l | l in known :: l == Root || l in tree
    ensures |known| <= |Locs(names, deepest)|
  {
    forall l | l in known
      ensures l in Locs(names, deepest)
    {
      KnownInLocs(lock, tree, names, deepest, l);
    }
    SubsetAtMost(known, Locs(names, deepest));
  }

  lemma KnownWhenTidy(lock: Lock, roots: seq<Dep>, st: State)
    requires Tidy(lock, roots, st) && st.queue != []
    ensures st.queue[0].loc !in st.placed
    ensures forall l | l in st.placed.Keys + {st.queue[0].loc} :: l == Root || l in st.tree
  {
    assert Own(lock, roots, st.tree, st.queue[0].loc).Some?;
    assert forall l | l in st.placed :: Own(lock, roots, st.tree, l).Some?;
  }

  /** While the queue is not empty, fewer locations are placed than there are to place. */
  lemma PlacedInLocs(lock: Lock, roots: seq<Dep>, st: State, names: set<string>, deepest: nat)
    requires WellNamed(lock, roots) && Tidy(lock, roots, st) && Rooted(lock, roots, st.tree)
    requires Named(st.tree, names) && NoDeeper(st.tree, deepest) && st.queue != []
    ensures |st.placed.Keys| < |Locs(names, deepest)|
  {
    var known := st.placed.Keys + {st.queue[0].loc};
    KnownWhenTidy(lock, roots, st);
    assert NestedInParent(lock, st.tree) by { TidyNests(lock, roots, st); }
    KnownAreFew(lock, st.tree, names, deepest, known);
    assert |known| == |st.placed.Keys| + 1;
  }

  /** A stratified run ends, within a number of turns fixed by its names and ranks. */
  lemma StratifiedEnds(lock: Lock, roots: seq<Dep>, rank: string -> nat, top: nat)
    requires WellNamed(lock, roots) && Stratified(lock, rank) && RanksBelow(roots, rank, top)
    ensures Ended(Run(lock, roots, TurnLimit(lock, roots, top)))
  {
    var n := TurnLimit(lock, roots, top);
    var p := Run(lock, roots, n);
    if !Ended(p) {
      var names := AllNames(lock, roots);
      TurnsArePlacements(lock, roots, n);
      RunIsKept(lock, roots, n);
      RunIsShallow(lock, roots, rank, top, n);
      ShallowIsBounded(p.st.tree, rank, top, names);
      PlacedInLocs(lock, roots, p.st, names, MaxDepth(top, |names|));
    }
  }

  lemma {:induction false} HighestRank(roots: seq<Dep>, rank: string -> nat) returns (top: nat)
    ensures RanksBelow(roots, rank, top)
  {
    if roots == [] {
      top := 0;
    } else {
      top := HighestRank(roots[1..], rank);
      if top < rank(roots[0].snapshot) {
        top := rank(roots[0].snapshot);
      }
    }
  }

  /** An acyclic snapshot graph always lets the loop end. */
  lemma AcyclicEnds(lock: Lock, roots: seq<Dep>)
    requires WellNamed(lock, roots) && Acyclic(SnapshotEdges(lock))
    ensures exists n :: Ended(Run(lock, roots, n))
  {
    var g := SnapshotEdges(lock);
    var rank := Height(g);
    AcyclicIffRanked(g);
    forall s, d | d in Children(lock, s)
      ensures rank(d.snapshot) < rank(s)
    {
      assert d.snapshot in Next(g, s);
    }
    assert forall s :: NeverRises(lock, rank, s);
    assert forall s, t :: Agree(lock, rank, s, t);
    var top := HighestRank(roots, rank);
    StratifiedEnds(lock, roots, rank, top);
  }

  lemma HeightAtMostNodes(g: Edges<string>, a: string)
    requires a in g
    ensures 1 <= Height(g)(a) <= |Nodes(g)|
  {
    ReachSetClosed(g, a);
    SubsetAtMost({a}, ReachSet(g, a));
    SubsetAtMost(ReachSet(g, a), Nodes(g));
  }

  /** The entry of every location queued or placed is in the lockfile. */
  lemma EntriesAreLocked(lock: Lock, roots: seq<Dep>, st: State, l: Loc)
    requires Tidy(lock, roots, st) && l in st.tree
    ensures st.tree[l].snapshot in lock.snapshots
  {
    if l !in st.placed {
      var i :| 0 <= i < |st.queue| && st.queue[i].loc == l;
    }
    assert Own(lock, roots, st.tree, l).Some?;
  }

  lemma {:induction false} DepthFalls(lock: Lock, roots: seq<Dep>, st: State, l: Loc)
    requires Acyclic(SnapshotEdges(lock)) && NestedInParent(lock, st.tree) && Tidy(lock, roots, st) && l in st.tree
    ensures Depth(l) + Height(SnapshotEdges(lock))(st.tree[l].snapshot) <= 1 + |Nodes(SnapshotEdges(lock))|
    decreases l
  {
    var g := SnapshotEdges(lock);
    EntriesAreLocked(lock, roots, st, l);
    assert NestsAt(lock, st.tree, l);
    if l.In? && l.parent != Root {
      DepthFalls(lock, roots, st, l.parent);
      assert st.tree[l].snapshot in Next(g, st.tree[l.parent].snapshot);
      AcyclicIffRanked(g);
    } else {
      HeightAtMostNodes(g, st.tree[l].snapshot);
    }
  }

  /** On an acyclic snapshot graph nothing nests deeper than there are snapshots. */
  lemma AcyclicNestsShallow(lock: Lock, roots: seq<Dep>, n: nat, l: Loc)
    requires WellNamed(lock, roots) && Acyclic(SnapshotEdges(lock))
    requires Run(lock, roots, n).Going? && l in Run(lock, roots, n).st.tree
    ensures Depth(l) <= |Nodes(SnapshotEdges(lock))|
  {
    var st := Run(lock, roots, n).st;
    assert Kept(lock, roots, st) by { RunIsKept(lock, roots, n); }
    TidyNests(lock, roots, st);
    EntriesAreLocked(lock, roots, st, l);
    DepthFalls(lock, roots, st, l);
    HeightAtMostNodes(SnapshotEdges(lock), st.tree[l].snapshot);
  }

  // ------------------------------------------------------ one version of each name

  ghost predicate Mentioned(lock: Lock, roots: seq<Dep>, d: Dep) {
    d in roots || exists s :: d in Children(lock, s)
  }

  /** Every name stands for one snapshot throughout the lockfile. */
  ghost predicate OneVersionEach(lock: Lock, roots: seq<Dep>) {
    forall c, d | Mentioned(lock, roots, c) && Mentioned(lock, roots, d) && c.name == d.name ::
      c.snapshot == d.snapshot
  }

  /** All entries stand at the top level. */
  ghost predicate Flat(lock: Lock, roots: seq<Dep>, tree: Tree) {
    forall l | l in tree :: l == In(Root, tree[l].name) && Mentioned(lock, roots, tree[l])
  }

  lemma FlatPlace(lock: Lock, roots: seq<Dep>, st: State, loc: Loc, d: Dep)
    requires OneVersionEach(lock, roots) && Flat(lock, roots, st.tree) && Mentioned(lock, roots, d)
    ensures var p := Place(lock, st, loc, d); p.Going? ==> Flat(lock, roots, p.st.tree)
  {
    FindShape(st.tree, loc, d.name);
    PlaceShape(lock, st, loc, d);
  }

  lemma {:induction false} PlaceAllFlat(lock: Lock, roots: seq<Dep>, st: State, loc: Loc, cs: seq<Dep>)
    requires OneVersionEach(lock, roots) && Flat(lock, roots, st.tree)
    requires forall c | c in cs :: Mentioned(lock, roots, c)
    ensures var p := PlaceAll(lock, st, loc, cs); p.Going? ==> Flat(lock, roots, p.st.tree)
  {
    if cs != [] {
      PlaceAllFlat(lock, roots, st, loc, cs[..|cs| - 1]);
      var p := PlaceAll(lock, st, loc, cs[..|cs| - 1]);
      if p.Going? {
        FlatPlace(lock, roots, p.st, loc, cs[|cs| - 1]);
      }
    }
  }

  lemma ItemMentioned(lock: Lock, roots: seq<Dep>, n: nat, st: State)
    requires WellNamed(lock, roots) && Run(lock, roots, n) == Going(st) && st.queue != []
    ensures forall c | c in st.queue[0].children :: Mentioned(lock, roots, c)
  {
    var loc := st.queue[0].loc;
    NestingIsNeverGratuitous(lock, roots, n);
    RunIsRooted(lock, roots, n);
    if loc != Root {
      DepsCoherent(lock, roots, st.tree[loc]);
    }
  }

  ghost predicate FlatSoFar(lock: Lock, roots: seq<Dep>, p: Progress) {
    p.Going? ==> Flat(lock, roots, p.st.tree)
  }

  lemma TurnIsFlat(lock: Lock, roots: seq<Dep>, n: nat)
    requires WellNamed(lock, roots) && OneVersionEach(lock, roots) && FlatSoFar(lock, roots, Run(lock, roots, n))
    ensures FlatSoFar(lock, roots, Run(lock, roots, n + 1))
  {
    var p := Run(lock, roots, n);
    if p.Going? && p.st.queue != [] {
      ItemMentioned(lock, roots, n, p.st);
      PlaceAllFlat(lock, roots, Dequeue(p.st), p.st.queue[0].loc, p.st.queue[0].children);
      assert Run(lock, roots, n + 1) == Step(lock, p.st);
    }
  }

  lemma {:induction false} RunIsFlat(lock: Lock, roots: seq<Dep>, n: nat)
    requires WellNamed(lock, roots) && OneVersionEach(lock, roots)
    ensures FlatSoFar(lock, roots, Run(lock, roots, n))
  {
    if n > 0 {
      RunIsFlat(lock, roots, n - 1);
      TurnIsFlat(lock, roots, n - 1);
    }
  }

  /** With one version of each name the loop ends with a flat tree, cycles or not. */
  lemma OneVersionEndsFlat(lock: Lock, roots: seq<Dep>)
    requires WellNamed(lock, roots) && OneVersionEach(lock, roots)
    ensures exists n :: Ended(Run(lock, roots, n))
                        && (Run(lock, roots, n).Going? ==> Flat(lock, roots, Run(lock, roots, n).st.tree))
  {
    var rank: string -> nat := _ => 0;
    forall s, t
      ensures Agree(lock, rank, s, t)
    {
      assert forall d | d in Children(lock, s) :: Mentioned(lock, roots, d);
      assert forall e | e in Children(lock, t) :: Mentioned(lock, roots, e);
    }
    var n := TurnLimit(lock, roots, 0);
    StratifiedEnds(lock, roots, rank, 0);
    RunIsFlat(lock, roots, n);
  }
}
