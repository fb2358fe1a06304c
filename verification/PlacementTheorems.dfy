/**
 * What holds after every turn of the placement worklist, and exactly when a
 * layout succeeds.
 */
module PlacementTheorems {
  import opened Graph
  import opened Lockfile
  import opened NodeModules
  import opened Placement
  import opened PlacementProofs

  lemma {:induction false} PlaceAllKeeps(lock: Lock, roots: seq<Dep>, st: State, loc: Loc, cs: seq<Dep>)
    requires Tidy(lock, roots, st) && Fresh(st, loc) && AllNecessary(st.tree)
    requires forall c | c in cs :: c in st.placed[loc]
    ensures match PlaceAll(lock, st, loc, cs)
            case Failed(_) => true
            case Going(st1) => Tidy(lock, roots, st1) && AllNecessary(st1.tree) && st1.placed == st.placed
  {
    if cs != [] {
      PlaceAllKeeps(lock, roots, st, loc, cs[..|cs| - 1]);
      var p := PlaceAll(lock, st, loc, cs[..|cs| - 1]);
      if p.Going? {
        TidyPlace(lock, roots, p.st, loc, cs[|cs| - 1]);
        NecessaryPlace(lock, roots, p.st, loc, cs[|cs| - 1]);
      }
    }
  }

  /** Every run keeps its collections tidy and nests only where it must. */
  lemma {:induction false} NestingIsNeverGratuitous(lock: Lock, roots: seq<Dep>, n: nat)
    ensures match Run(lock, roots, n)
            case Failed(_) => true
            case Going(st) => Tidy(lock, roots, st) && AllNecessary(st.tree)
  {
    if n > 0 {
      NestingIsNeverGratuitous(lock, roots, n - 1);
      var p := Run(lock, roots, n - 1);
      if p.Going? && p.st.queue != [] {
        TidyDequeue(lock, roots, p.st);
        FreshDequeue(lock, roots, p.st);
        PlaceAllKeeps(lock, roots, Dequeue(p.st), p.st.queue[0].loc, p.st.queue[0].children);
      }
    }
  }

  /** With the nested entry `l` removed, its dependent finds what `Necessary` speaks of. */
  lemma WithoutEntry(tree: Tree, l: Loc)
    requires l in tree && l.In? && l.parent != Root && Necessary(tree, l)
    ensures Find(tree - {l}, l.parent, l.name) == Find(tree, Parent(l.parent), l.name)
  {
    var up := Parent(l.parent);
    assert Depth(up) < Depth(l.parent);
    FindShape(tree, up, l.name);
    EnclosesIsHigher(Find(tree, up, l.name).value.parent, up);
    FindInRemainder(tree, tree - {l}, up, l.name);
  }

  /** Without a nested entry its dependent would find a different snapshot. */
  lemma NestedEntryIsNeeded(lock: Lock, roots: seq<Dep>, n: nat, l: Loc)
    requires Run(lock, roots, n).Going?
    requires var tree := Run(lock, roots, n).st.tree; l in tree && l.In? && l.parent != Root
    ensures var tree := Run(lock, roots, n).st.tree; var f := Find(tree - {l}, l.parent, l.name);
            f.Some? && f.value in tree - {l} && tree[f.value].snapshot != tree[l].snapshot
  {
    var tree := Run(lock, roots, n).st.tree;
    assert Necessary(tree, l) by { NestingIsNeverGratuitous(lock, roots, n); }
    WithoutEntry(tree, l);
    FindShape(tree - {l}, l.parent, l.name);
  }

  // --------------------------------------------------------------- tree contents

  lemma {:induction false} PlaceAllRooted(lock: Lock, roots: seq<Dep>, st: State, loc: Loc, cs: seq<Dep>)
    requires WellNamed(lock, roots) && Rooted(lock, roots, st.tree)
    requires Tidy(lock, roots, st) && Fresh(st, loc) && AllNecessary(st.tree)
    requires forall c | c in cs :: c in st.placed[loc]
    ensures match PlaceAll(lock, st, loc, cs)
            case Failed(e) => e.MissingSnapshot? ==> Wanted(lock, roots, e.snapshot) && e.snapshot !in lock.snapshots
            case Going(st1) => Rooted(lock, roots, st1.tree)
  {
    if cs != [] {
      PlaceAllRooted(lock, roots, st, loc, cs[..|cs| - 1]);
      PlaceAllKeeps(lock, roots, st, loc, cs[..|cs| - 1]);
      var p := PlaceAll(lock, st, loc, cs[..|cs| - 1]);
      if p.Going? {
        RootedPlace(lock, roots, p.st, loc, cs[|cs| - 1]);
      }
    }
  }

  /** The tree holds only what the roots reach, or an error names what is reached and missing. */
  ghost predicate RootedSoFar(lock: Lock, roots: seq<Dep>, p: Progress) {
    match p
    case Failed(e) => e.MissingSnapshot? ==> Wanted(lock, roots, e.snapshot) && e.snapshot !in lock.snapshots
    case Going(st) => Rooted(lock, roots, st.tree)
  }

  lemma TurnIsRooted(lock: Lock, roots: seq<Dep>, n: nat)
    requires WellNamed(lock, roots) && RootedSoFar(lock, roots, Run(lock, roots, n))
    ensures RootedSoFar(lock, roots, Run(lock, roots, n + 1))
  {
    var p := Run(lock, roots, n);
    if p.Going? && p.st.queue != [] {
      var st := p.st;
      assert Tidy(lock, roots, st) && AllNecessary(st.tree) by { NestingIsNeverGratuitous(lock, roots, n); }
      assert Run(lock, roots, n + 1) == Step(lock, st);
      TidyDequeue(lock, roots, st);
      FreshDequeue(lock, roots, st);
      PlaceAllRooted(lock, roots, Dequeue(st), st.queue[0].loc, st.queue[0].children);
    }
  }

  lemma {:induction false} RunIsRooted(lock: Lock, roots: seq<Dep>, n: nat)
    requires WellNamed(lock, roots)
    ensures RootedSoFar(lock, roots, Run(lock, roots, n))
  {
    if n > 0 {
      RunIsRooted(lock, roots, n - 1);
      TurnIsRooted(lock, roots, n - 1);
    }
  }

  // ------------------------------------------------------ nothing gets shadowed

  /** Neither the root nor any snapshot it wants lists one name at two snapshots. */
  ghost predicate AllConsistent(lock: Lock, roots: seq<Dep>) {
    Consistent(roots) && forall s | Wanted(lock, roots, s) :: Consistent(Children(lock, s))
  }

  /** The lockfile has every snapshot the root wants. */
  ghost predicate Complete(lock: Lock, roots: seq<Dep>) {
    forall s | Wanted(lock, roots, s) :: s in lock.snapshots
  }

  ghost predicate AllSatisfied(st: State) {
    forall l | l in st.placed :: Satisfied(st.tree, l, st.placed[l])
  }

  lemma PlaceNextSatisfies(lock: Lock, roots: seq<Dep>, st: State, loc: Loc, own: seq<Dep>, done: seq<Dep>, c: Dep,
                           all: seq<Dep>)
    requires Tidy(lock, roots, st) && Fresh(st, loc) && st.placed[loc] == own && Consistent(own)
    requires all == done + [c] && forall d | d in all :: d in own
    requires SatisfiedSoFar(st, loc, done)
    ensures match Place(lock, st, loc, c)
            case Failed(e) => e.MissingSnapshot?
            case Going(st1) => SatisfiedSoFar(st1, loc, all)
  {
    assert c in all && forall d | d in done :: d in all;
    SatisfiedPlace(lock, roots, st, loc, done, c);
  }

  lemma {:induction false} PlaceAllSatisfies(lock: Lock, roots: seq<Dep>, st: State, loc: Loc, cs: seq<Dep>)
    requires Tidy(lock, roots, st) && Fresh(st, loc) && AllNecessary(st.tree)
    requires Consistent(st.placed[loc]) && forall c | c in cs :: c in st.placed[loc]
    requires SatisfiedSoFar(st, loc, [])
    ensures match PlaceAll(lock, st, loc, cs)
            case Failed(e) => e.MissingSnapshot?
            case Going(st1) => SatisfiedSoFar(st1, loc, cs)
  {
    if cs != [] {
      var before := cs[..|cs| - 1];
      assert cs == before + [cs[|cs| - 1]];
      PlaceAllSatisfies(lock, roots, st, loc, before);
      var p := PlaceAll(lock, st, loc, before);
      if p.Going? {
        assert Tidy(lock, roots, p.st) && p.st.placed == st.placed by { PlaceAllKeeps(lock, roots, st, loc, before); }
        PlaceNextSatisfies(lock, roots, p.st, loc, st.placed[loc], before, cs[|cs| - 1], cs);
      }
    }
  }

  lemma ItemConsistent(lock: Lock, roots: seq<Dep>, tree: Tree, loc: Loc)
    requires WellNamed(lock, roots) && AllConsistent(lock, roots) && Rooted(lock, roots, tree)
    requires Own(lock, roots, tree, loc).Some?
    ensures Consistent(Own(lock, roots, tree, loc).value)
  {
    if loc != Root {
      DepsCoherent(lock, roots, tree[loc]);
    }
  }

  lemma DequeueSatisfies(lock: Lock, roots: seq<Dep>, st: State)
    requires Tidy(lock, roots, st) && AllSatisfied(st) && st.queue != []
    ensures SatisfiedSoFar(Dequeue(st), st.queue[0].loc, [])
  {
    var st1 := Dequeue(st);
    var loc := st.queue[0].loc;
    assert forall x :: In(loc, x) !in st.tree;
    forall l | l in st1.placed && l != loc
      ensures Satisfied(st1.tree, l, st1.placed[l])
    {
      assert st1.placed[l] == st.placed[l];
    }
  }

  lemma StepSatisfies(lock: Lock, roots: seq<Dep>, st: State)
    requires Tidy(lock, roots, st) && AllNecessary(st.tree) && AllSatisfied(st) && st.queue != []
    requires Consistent(st.queue[0].children)
    ensures match Step(lock, st)
            case Failed(e) => e.MissingSnapshot?
            case Going(st1) => AllSatisfied(st1)
  {
    var st0 := Dequeue(st);
    var Item(loc, cs) := st.queue[0];
    TidyDequeue(lock, roots, st);
    FreshDequeue(lock, roots, st);
    DequeueSatisfies(lock, roots, st);
    PlaceAllSatisfies(lock, roots, st0, loc, cs);
    PlaceAllKeeps(lock, roots, st0, loc, cs);
  }

  ghost predicate ShadowFree(lock: Lock, roots: seq<Dep>, p: Progress) {
    match p
    case Failed(e) => e.MissingSnapshot? && Wanted(lock, roots, e.snapshot) && e.snapshot !in lock.snapshots
    case Going(st) => AllSatisfied(st)
  }

  lemma TurnSatisfies(lock: Lock, roots: seq<Dep>, n: nat)
    requires WellNamed(lock, roots) && AllConsistent(lock, roots) && ShadowFree(lock, roots, Run(lock, roots, n))
    ensures ShadowFree(lock, roots, Run(lock, roots, n + 1))
  {
    var p := Run(lock, roots, n);
    if p.Going? && p.st.queue != [] {
      var st := p.st;
      assert Tidy(lock, roots, st) && AllNecessary(st.tree) by { NestingIsNeverGratuitous(lock, roots, n); }
      assert Consistent(st.queue[0].children) by {
        RunIsRooted(lock, roots, n);
        ItemConsistent(lock, roots, st.tree, st.queue[0].loc);
      }
      assert Run(lock, roots, n + 1) == Step(lock, st);
      StepSatisfies(lock, roots, st);
      RunIsRooted(lock, roots, n + 1);
    }
  }

  lemma {:induction false} RunIsShadowFree(lock: Lock, roots: seq<Dep>, n: nat)
    requires WellNamed(lock, roots) && AllConsistent(lock, roots)
    ensures ShadowFree(lock, roots, Run(lock, roots, n))
  {
    if n > 0 {
      RunIsShadowFree(lock, roots, n - 1);
      TurnSatisfies(lock, roots, n - 1);
    }
  }

  /** When no list names one package at two snapshots, then after every turn each placed
      location finds each of its dependencies, nearest first, at exactly the wanted
      snapshot; the only error left is a snapshot the lockfile lacks. */
  lemma PlacementNeverShadows(lock: Lock, roots: seq<Dep>, n: nat)
    requires WellNamed(lock, roots) && AllConsistent(lock, roots)
    ensures match Run(lock, roots, n)
            case Failed(e) => e.MissingSnapshot? && Wanted(lock, roots, e.snapshot) && e.snapshot !in lock.snapshots
            case Going(st) => AllSatisfied(st)
  {
    RunIsShadowFree(lock, roots, n);
  }

  // ---------------------------------------------------- exactly when it succeeds

  /** The loop has ended without an error and the final check passes. */
  ghost predicate Lays(p: Progress) {
    p.Going? && p.st.queue == [] && AllSatisfied(p.st)
  }

  /** Which snapshots stand somewhere in the tree. */
  function Installed(tree: Tree): set<string> {
    set l | l in tree :: tree[l].snapshot
  }

  lemma PlacedIsChildren(lock: Lock, roots: seq<Dep>, st: State, l: Loc)
    requires WellNamed(lock, roots) && Tidy(lock, roots, st) && Rooted(lock, roots, st.tree)
    requires st.queue == [] && l in st.tree
    ensures l in st.placed && st.placed[l] == Children(lock, st.tree[l].snapshot)
    ensures st.tree[l].snapshot in lock.snapshots
  {
    DepsCoherent(lock, roots, st.tree[l]);
  }

  lemma InstalledIsClosed(lock: Lock, roots: seq<Dep>, st: State)
    requires WellNamed(lock, roots) && Tidy(lock, roots, st) && Rooted(lock, roots, st.tree)
    requires st.queue == [] && AllSatisfied(st)
    ensures Closed(SnapshotEdges(lock), Installed(st.tree))
  {
    forall s, t | s in Installed(st.tree) && t in Next(SnapshotEdges(lock), s)
      ensures t in Installed(st.tree)
    {
      var l :| l in st.tree && st.tree[l].snapshot == s;
      PlacedIsChildren(lock, roots, st, l);
      var d :| d in Children(lock, s) && d.snapshot == t;
      assert Satisfied(st.tree, l, st.placed[l]);
      assert Sees(st.tree, l, d);
    }
  }

  lemma InstalledIsWanted(lock: Lock, roots: seq<Dep>, st: State)
    requires WellNamed(lock, roots) && Tidy(lock, roots, st) && Rooted(lock, roots, st.tree)
    requires st.queue == [] && AllSatisfied(st)
    ensures forall s :: s in Installed(st.tree) <==> Wanted(lock, roots, s)
  {
    InstalledIsClosed(lock, roots, st);
    forall s | Wanted(lock, roots, s)
      ensures s in Installed(st.tree)
    {
      var r :| r in roots && Reaches(SnapshotEdges(lock), r.snapshot, s);
      assert Satisfied(st.tree, Root, st.placed[Root]);
      assert Sees(st.tree, Root, r);
      ClosedKeeps(SnapshotEdges(lock), Installed(st.tree), r.snapshot, s);
    }
  }

  lemma PlacedIsEntries(lock: Lock, roots: seq<Dep>, st: State)
    requires Tidy(lock, roots, st) && st.queue == []
    ensures st.placed.Keys == st.tree.Keys + {Root} && st.placed[Root] == roots
  {
    assert forall l | l in st.tree :: l in st.placed;
    assert forall l | l in st.placed :: l == Root || l in st.tree;
  }

  /** A finished tree holds exactly what the roots reach, under the dependency's own
      name, and records each entry's full dependency list. */
  lemma TreeContentsAreExact(lock: Lock, roots: seq<Dep>, n: nat)
    requires WellNamed(lock, roots) && Lays(Run(lock, roots, n))
    ensures var st := Run(lock, roots, n).st;
            && (forall s :: s in Installed(st.tree) <==> Wanted(lock, roots, s))
            && (forall l | l in st.tree :: l != Root && st.tree[l].name == l.name)
            && st.placed.Keys == st.tree.Keys + {Root}
            && st.placed[Root] == roots
            && (forall l | l in st.tree :: st.placed[l] == Children(lock, st.tree[l].snapshot))
  {
    var st := Run(lock, roots, n).st;
    NestingIsNeverGratuitous(lock, roots, n);
    RunIsRooted(lock, roots, n);
    forall l | l in st.tree
      ensures l in st.placed && st.placed[l] == Children(lock, st.tree[l].snapshot)
    {
      PlacedIsChildren(lock, roots, st, l);
    }
    InstalledIsWanted(lock, roots, st);
    PlacedIsEntries(lock, roots, st);
  }

  lemma SatisfiedMeansConsistent(tree: Tree, loc: Loc, deps: seq<Dep>)
    requires Satisfied(tree, loc, deps)
    ensures Consistent(deps)
  {
    forall c, d | c in deps && d in deps && c.name == d.name
      ensures c.snapshot == d.snapshot
    {
      assert Sees(tree, loc, c) && Sees(tree, loc, d);
    }
  }

  /** Once the loop ends, the layout succeeds if and only if the lockfile has every
      wanted snapshot and no list names one package at two snapshots. */
  lemma LayoutSucceedsIff(lock: Lock, roots: seq<Dep>, n: nat)
    requires WellNamed(lock, roots) && Ended(Run(lock, roots, n))
    ensures Lays(Run(lock, roots, n)) <==> Complete(lock, roots) && AllConsistent(lock, roots)
  {
    if Complete(lock, roots) && AllConsistent(lock, roots) {
      PlacementNeverShadows(lock, roots, n);
    }
    if Lays(Run(lock, roots, n)) {
      var st := Run(lock, roots, n).st;
      TreeContentsAreExact(lock, roots, n);
      NestingIsNeverGratuitous(lock, roots, n);
      SatisfiedMeansConsistent(st.tree, Root, roots);
      forall s | Wanted(lock, roots, s)
        ensures s in lock.snapshots && Consistent(Children(lock, s))
      {
        var l :| l in st.tree && st.tree[l].snapshot == s;
        assert l in st.placed && Deps(lock, st.tree[l]).Some?;
        SatisfiedMeansConsistent(st.tree, l, st.placed[l]);
      }
    }
  }
}
