/**
 * Invariants of the placement worklist over all runs: nesting is never
 * gratuitous, entries are exactly what the roots reach, and no placement
 * shadows an earlier lookup.
 */
module PlacementProofs {
  import opened Text
  import opened Graph
  import opened Lockfile
  import opened NodeModules
  import opened Placement

  // ------------------------------------------------------------ nesting is needed

  lemma {:induction false} EnclosesIsHigher(a: Loc, l: Loc)
    requires Encloses(a, l)
    ensures a == l || Depth(a) < Depth(l)
  {
    if a != l && l.In? {
      EnclosesIsHigher(a, l.parent);
    }
  }

  lemma NecessaryNew(lock: Lock, st: State, loc: Loc, dep: Dep)
    requires loc != Root && !Sees(st.tree, loc, dep)
    requires In(loc, dep.name) !in st.tree && Find(st.tree, loc, dep.name).Some?
    ensures Necessary(st.tree[In(loc, dep.name) := dep], In(loc, dep.name))
  {
    var at := In(loc, dep.name);
    FindShape(st.tree, loc, dep.name);
    assert Find(st.tree, Parent(loc), dep.name) == Find(st.tree, loc, dep.name);
    if Encloses(loc, Parent(loc)) {
      EnclosesIsHigher(loc, Parent(loc));
    }
    FindKept(st.tree, at, dep, Parent(loc), dep.name);
  }

  lemma NecessaryOld(lock: Lock, roots: seq<Dep>, st: State, loc: Loc, dep: Dep, l: Loc)
    requires Tidy(lock, roots, st) && Fresh(st, loc)
    requires l in st.tree && l.In? && l.parent != Root && Necessary(st.tree, l)
    requires !Sees(st.tree, loc, dep) && Target(st.tree, loc, dep.name) !in st.tree
    ensures Necessary(st.tree[Target(st.tree, loc, dep.name) := dep], l)
  {
    var at := Target(st.tree, loc, dep.name);
    var up := Parent(l.parent);
    if at.In? && at.parent != Root && Encloses(loc, up) {
      assert Encloses(up, l.parent) by { RootEncloses(l.parent); }
      EnclosesTrans(loc, up, l.parent);
      NothingPlacedInside(lock, roots, st, loc, l.parent);
      EnclosesIsHigher(loc, up);
    }
    FindKept(st.tree, at, dep, up, l.name);
  }

  lemma NecessaryPlace(lock: Lock, roots: seq<Dep>, st: State, loc: Loc, dep: Dep)
    requires Tidy(lock, roots, st) && Fresh(st, loc) && AllNecessary(st.tree)
    ensures var p := Place(lock, st, loc, dep); p.Going? ==> AllNecessary(p.st.tree)
  {
    var p := Place(lock, st, loc, dep);
    if p.Going? && !Sees(st.tree, loc, dep) {
      var at := Target(st.tree, loc, dep.name);
      forall l | l in p.st.tree && l.In? && l.parent != Root
        ensures Necessary(p.st.tree, l)
      {
        if l == at {
          NecessaryNew(lock, st, loc, dep);
        } else {
          NecessaryOld(lock, roots, st, loc, dep, l);
        }
      }
    }
  }

  // -------------------------------------------------------------- what is placed

  /** A snapshot the root depends on, directly or not. */
  ghost predicate Wanted(lock: Lock, roots: seq<Dep>, s: string) {
    exists r | r in roots :: Reaches(SnapshotEdges(lock), r.snapshot, s)
  }

  /** The tree holds only what the roots reach. */
  ghost predicate Rooted(lock: Lock, roots: seq<Dep>, tree: Tree) {
    forall l | l in tree :: Coherent(tree[l]) && Wanted(lock, roots, tree[l].snapshot)
  }

  lemma WantedChild(lock: Lock, roots: seq<Dep>, s: string, d: Dep)
    requires Wanted(lock, roots, s) && d in Children(lock, s)
    ensures Wanted(lock, roots, d.snapshot)
  {
    var r :| r in roots && Reaches(SnapshotEdges(lock), r.snapshot, s);
    ReachesStep(SnapshotEdges(lock), r.snapshot, s, d.snapshot);
  }

  lemma OwnWanted(lock: Lock, roots: seq<Dep>, tree: Tree, loc: Loc, dep: Dep)
    requires WellNamed(lock, roots) && Rooted(lock, roots, tree)
    requires Own(lock, roots, tree, loc).Some? && dep in Own(lock, roots, tree, loc).value
    ensures Coherent(dep) && Wanted(lock, roots, dep.snapshot)
    ensures loc != Root ==> Own(lock, roots, tree, loc).value == Children(lock, tree[loc].snapshot)
  {
    if loc == Root {
      ReachesSelf(SnapshotEdges(lock), dep.snapshot);
    } else {
      DepsCoherent(lock, roots, tree[loc]);
      WantedChild(lock, roots, tree[loc].snapshot, dep);
    }
  }

  lemma RootedPlace(lock: Lock, roots: seq<Dep>, st: State, loc: Loc, dep: Dep)
    requires WellNamed(lock, roots) && Rooted(lock, roots, st.tree)
    requires loc in st.placed && Own(lock, roots, st.tree, loc) == Some(st.placed[loc]) && dep in st.placed[loc]
    ensures var p := Place(lock, st, loc, dep); p.Going? ==> Rooted(lock, roots, p.st.tree)
    ensures var p := Place(lock, st, loc, dep);
            p.Failed? && p.error.MissingSnapshot? ==>
              Wanted(lock, roots, p.error.snapshot) && p.error.snapshot !in lock.snapshots
  {
    OwnWanted(lock, roots, st.tree, loc, dep);
    DepsCoherent(lock, roots, dep);
    PlaceShape(lock, st, loc, dep);
  }

  // ------------------------------------------------------- nothing gets shadowed

  /** No name stands for two snapshots. */
  predicate Consistent(deps: seq<Dep>) {
    forall c | c in deps :: AgreesWithAll(deps, c)
  }

  predicate AgreesWithAll(deps: seq<Dep>, c: Dep) {
    forall d | d in deps && d.name == c.name :: d.snapshot == c.snapshot
  }

  predicate Satisfied(tree: Tree, loc: Loc, deps: seq<Dep>) {
    forall d | d in deps :: Sees(tree, loc, d)
  }

  /** Every placed location but `loc` sees its dependencies, and `loc` those in `done`. */
  ghost predicate SatisfiedSoFar(st: State, loc: Loc, done: seq<Dep>) {
    && (forall l | l in st.placed && l != loc :: Satisfied(st.tree, l, st.placed[l]))
    && Satisfied(st.tree, loc, done)
    && (forall x | In(loc, x) in st.tree :: st.tree[In(loc, x)] in done)
  }

  /** Two dependencies of one name at the current item never meet in `Place`. */
  lemma NoClash(st: State, loc: Loc, done: seq<Dep>, dep: Dep)
    requires loc in st.placed && dep in st.placed[loc] && Consistent(st.placed[loc])
    requires forall d | d in done :: d in st.placed[loc]
    requires SatisfiedSoFar(st, loc, done)
    requires forall l | l in st.tree :: l != Root && st.tree[l].name == l.name
    requires !Sees(st.tree, loc, dep)
    ensures In(loc, dep.name) !in st.tree
    ensures forall d | d in done :: d.name != dep.name
    ensures loc == Root ==> Find(st.tree, loc, dep.name) == None
    ensures Target(st.tree, loc, dep.name) !in st.tree
  {
    if Find(st.tree, loc, dep.name) == None && In(Root, dep.name) in st.tree {
      NoneMeansNoTop(st.tree, loc, dep.name);
    }
  }

  lemma {:induction false} NoneMeansNoTop(tree: Tree, loc: Loc, name: string)
    requires Find(tree, loc, name) == None
    ensures In(Root, name) !in tree
  {
    if loc.In? {
      NoneMeansNoTop(tree, loc.parent, name);
    }
  }

  lemma SeesKept(lock: Lock, roots: seq<Dep>, st: State, loc: Loc, dep: Dep, l: Loc, c: Dep)
    requires Tidy(lock, roots, st) && Fresh(st, loc)
    requires l in st.placed && Sees(st.tree, l, c)
    requires var at := Target(st.tree, loc, dep.name); at !in st.tree
    requires l == loc ==> c.name != dep.name
    ensures Sees(st.tree[Target(st.tree, loc, dep.name) := dep], l, c)
  {
    var at := Target(st.tree, loc, dep.name);
    if at.In? && at.parent != Root && Encloses(loc, l) {
      NothingPlacedInside(lock, roots, st, loc, l);
    }
    FindKept(st.tree, at, dep, l, c.name);
  }

  lemma SatisfiedPlace(lock: Lock, roots: seq<Dep>, st: State, loc: Loc, done: seq<Dep>, dep: Dep)
    requires Tidy(lock, roots, st) && Fresh(st, loc)
    requires dep in st.placed[loc] && Consistent(st.placed[loc])
    requires forall d | d in done :: d in st.placed[loc]
    requires SatisfiedSoFar(st, loc, done)
    ensures match Place(lock, st, loc, dep)
            case Failed(e) => e == MissingSnapshot(dep.snapshot)
            case Going(st1) => SatisfiedSoFar(st1, loc, done + [dep])
  {
    var p := Place(lock, st, loc, dep);
    if !Sees(st.tree, loc, dep) {
      NoClash(st, loc, done, dep);
      if p.Going? {
        var at := Target(st.tree, loc, dep.name);
        forall l, c | l in st.placed && Sees(st.tree, l, c) && (l == loc ==> c.name != dep.name)
          ensures Sees(p.st.tree, l, c)
        {
          SeesKept(lock, roots, st, loc, dep, l, c);
        }
        if Find(st.tree, loc, dep.name) == None {
          FindTop(st.tree, dep, loc, dep.name);
        }
        assert Sees(p.st.tree, loc, dep);
      }
    }
  }
}
