/**
 * When the placement worklist ends. A nested location is a path of
 * dependencies, so what has to be ruled out is a cycle of the snapshot graph
 * along which the same names keep being looked up at other versions.
 */
module PlacementTermination {
  import opened Text
  import opened Graph
  import opened Lockfile
  import opened NodeModules
  import opened Placement
  import opened PlacementProofs

  /** A rank of the snapshots that never rises along a dependency, and under which any two
      dependents of one rank agree on a name as soon as one of them keeps its rank. */
  ghost predicate Stratified(lock: Lock, rank: string -> nat) {
    && (forall s :: NeverRises(lock, rank, s))
    && (forall s, t :: Agree(lock, rank, s, t))
  }

  ghost predicate NeverRises(lock: Lock, rank: string -> nat, s: string) {
    forall d | d in Children(lock, s) :: rank(d.snapshot) <= rank(s)
  }

  ghost predicate Agree(lock: Lock, rank: string -> nat, s: string, t: string) {
    rank(s) == rank(t) ==>
      forall d, e | d in Children(lock, s) && e in Children(lock, t) && d.name == e.name ::
        rank(d.snapshot) == rank(s) ==> d.snapshot == e.snapshot
  }

  ghost predicate RanksBelow(roots: seq<Dep>, rank: string -> nat, top: nat) {
    forall r | r in roots :: rank(r.snapshot) <= top
  }

  function Names(deps: seq<Dep>): set<string> {
    set d | d in deps :: d.name
  }

  /** Every name the root or a snapshot of the lockfile depends on. */
  function AllNames(lock: Lock, roots: seq<Dep>): set<string> {
    Names(roots) + set s, x | s in lock.snapshots && x in Names(Children(lock, s)) :: x
  }

  /** The names nested along `l` since the rank last changed. */
  ghost function Streak(tree: Tree, rank: string -> nat, l: Loc): set<string> {
    match l
    case In(p, x) =>
      if p in tree && l in tree && rank(tree[p].snapshot) == rank(tree[l].snapshot)
      then Streak(tree, rank, p) + {x}
      else {}
    case _ => {}
  }

  /** `names + 1` levels for every rank below the top. */
  function Bound(top: nat, rank: nat, names: nat): (r: nat)
    ensures r >= 1
    decreases top - rank
  {
    if rank >= top then 1 else Bound(top, rank + 1, names) + names + 1
  }

  /** A nested entry is a dependency of the snapshot around it. */
  ghost predicate NestedInParent(lock: Lock, tree: Tree) {
    && Root !in tree
    && (forall k | k in tree :: NestsAt(lock, tree, k))
  }

  ghost predicate NestsAt(lock: Lock, tree: Tree, k: Loc)
    requires k in tree
  {
    && k != Root && tree[k].name == k.name
    && (k.In? && k.parent != Root ==> k.parent in tree && tree[k] in Children(lock, tree[k.parent].snapshot))
  }

  lemma TidyNests(lock: Lock, roots: seq<Dep>, st: State)
    requires WellNamed(lock, roots) && Tidy(lock, roots, st) && Rooted(lock, roots, st.tree)
    ensures NestedInParent(lock, st.tree)
  {
    forall k | k in st.tree
      ensures NestsAt(lock, st.tree, k)
    {
      if k.In? && k.parent != Root {
        assert Own(lock, roots, st.tree, k.parent) == Some(st.placed[k.parent]);
        DepsCoherent(lock, roots, st.tree[k.parent]);
      }
    }
  }

  lemma {:induction false} StreakKept(lock: Lock, tree: Tree, rank: string -> nat, at: Loc, d: Dep, l: Loc)
    requires NestedInParent(lock, tree) && at !in tree && at != Root && l in tree
    ensures Streak(tree[at := d], rank, l) == Streak(tree, rank, l)
  {
    assert NestsAt(lock, tree, l);
    if l.In? && l.parent in tree {
      StreakKept(lock, tree, rank, at, d, l.parent);
    }
  }

  /** A name of the current streak is found at the snapshot the streak gave it. */
  lemma {:induction false} StreakIsSeen(lock: Lock, tree: Tree, rank: string -> nat, s: string, l: Loc, d: Dep)
    requires Stratified(lock, rank) && NestedInParent(lock, tree)
    requires l in tree && rank(tree[l].snapshot) == rank(s)
    requires d in Children(lock, s) && rank(d.snapshot) == rank(s)
    requires d.name in Streak(tree, rank, l)
    ensures Sees(tree, l, d)
    decreases l
  {
    var here := In(l, d.name);
    if here in tree {
      assert NestsAt(lock, tree, here) && Agree(lock, rank, s, tree[l].snapshot);
    } else {
      var p := l.parent;
      assert Find(tree, l, d.name) == Find(tree, p, d.name);
      if d.name == l.name {
        assert Find(tree, p, d.name) == Some(l);
        assert NestsAt(lock, tree, l) && Agree(lock, rank, s, tree[p].snapshot);
      } else {
        StreakIsSeen(lock, tree, rank, s, p, d);
      }
    }
  }

  lemma {:induction false} BoundDrops(top: nat, r: nat, lower: nat, names: nat)
    requires lower < r <= top
    ensures Bound(top, r, names) + names + 1 <= Bound(top, lower, names)
    decreases r - lower
  {
    if lower + 1 < r {
      BoundDrops(top, r, lower + 1, names);
    }
  }

  /** `d` is a dependency of what stands at `loc`. */
  predicate DepOf(lock: Lock, roots: seq<Dep>, tree: Tree, loc: Loc, d: Dep) {
    if loc == Root then d in roots else loc in tree && d in Children(lock, tree[loc].snapshot)
  }

  lemma PlacedIsDepOf(lock: Lock, roots: seq<Dep>, st: State, loc: Loc, d: Dep)
    requires WellNamed(lock, roots) && Tidy(lock, roots, st) && Rooted(lock, roots, st.tree)
    requires loc in st.placed && d in st.placed[loc]
    ensures DepOf(lock, roots, st.tree, loc, d)
  {
    assert Own(lock, roots, st.tree, loc) == Some(st.placed[loc]);
    if loc != Root {
      DepsCoherent(lock, roots, st.tree[loc]);
    }
  }

  lemma DepOfNamed(lock: Lock, roots: seq<Dep>, tree: Tree, loc: Loc, d: Dep)
    requires DepOf(lock, roots, tree, loc, d)
    ensures d.name in AllNames(lock, roots)
  {
    if loc == Root {
      assert d.name in Names(roots);
    } else {
      var s := tree[loc].snapshot;
      assert s in lock.snapshots && d.name in Names(Children(lock, s));
    }
  }

  lemma DepOfRanked(lock: Lock, roots: seq<Dep>, tree: Tree, rank: string -> nat, top: nat, loc: Loc, d: Dep)
    requires Stratified(lock, rank) && RanksBelow(roots, rank, top) && DepOf(lock, roots, tree, loc, d)
    requires loc != Root ==> rank(tree[loc].snapshot) <= top
    ensures rank(d.snapshot) <= top
    ensures loc != Root ==> rank(d.snapshot) <= rank(tree[loc].snapshot)
  {
    if loc != Root {
      assert NeverRises(lock, rank, tree[loc].snapshot);
    }
  }

  /** Nesting below an entry of the same rank lengthens its streak by a new name. */
  lemma NewStreak(lock: Lock, tree: Tree, rank: string -> nat, loc: Loc, d: Dep)
    requires NestedInParent(lock, tree) && Stratified(lock, rank)
    requires loc in tree && d in Children(lock, tree[loc].snapshot) && !Sees(tree, loc, d)
    requires In(loc, d.name) !in tree && rank(d.snapshot) == rank(tree[loc].snapshot)
    ensures d.name !in Streak(tree, rank, loc)
    ensures Streak(tree[In(loc, d.name) := d], rank, In(loc, d.name)) == Streak(tree, rank, loc) + {d.name}
  {
    StreakKept(lock, tree, rank, In(loc, d.name), d, loc);
    if d.name in Streak(tree, rank, loc) {
      StreakIsSeen(lock, tree, rank, tree[loc].snapshot, loc, d);
    }
  }

  ghost predicate Fits(tree: Tree, rank: string -> nat, top: nat, names: set<string>, l: Loc)
    requires l in tree
  {
    var r := rank(tree[l].snapshot);
    && r <= top
    && tree[l].name in names
    && Streak(tree, rank, l) <= names
    && Depth(l) <= Bound(top, r, |names|) + |Streak(tree, rank, l)|
  }

  /** Each entry lies no deeper than its rank and its streak allow. */
  ghost predicate Shallow(tree: Tree, rank: string -> nat, top: nat, names: set<string>) {
    forall l | l in tree :: Fits(tree, rank, top, names, l)
  }

  lemma TopFits(tree: Tree, rank: string -> nat, top: nat, names: set<string>, at: Loc, d: Dep)
    requires Root !in tree && at !in tree
    requires at == In(Root, d.name) || at == Slashed(d.name)
    requires rank(d.snapshot) <= top && d.name in names
    ensures Fits(tree[at := d], rank, top, names, at)
  {
  }

  lemma NestedFits(lock: Lock, tree: Tree, rank: string -> nat, top: nat, names: set<string>, loc: Loc, d: Dep)
    requires NestedInParent(lock, tree) && Stratified(lock, rank)
    requires loc in tree && d in Children(lock, tree[loc].snapshot) && !Sees(tree, loc, d)
    requires In(loc, d.name) !in tree && Fits(tree, rank, top, names, loc)
    requires rank(d.snapshot) <= rank(tree[loc].snapshot) && d.name in names
    ensures Fits(tree[In(loc, d.name) := d], rank, top, names, In(loc, d.name))
  {
    var r := rank(tree[loc].snapshot);
    var streak := Streak(tree, rank, loc);
    if rank(d.snapshot) == r {
      NewStreak(lock, tree, rank, loc, d);
      assert |streak + {d.name}| == |streak| + 1;
    } else {
      BoundDrops(top, r, rank(d.snapshot), |names|);
      SubsetAtMost(streak, names);
    }
  }

  lemma NewFits(lock: Lock, roots: seq<Dep>, tree: Tree, rank: string -> nat, top: nat, loc: Loc, d: Dep)
    requires NestedInParent(lock, tree) && Stratified(lock, rank) && RanksBelow(roots, rank, top)
    requires DepOf(lock, roots, tree, loc, d) && !Sees(tree, loc, d)
    requires loc != Root ==> Fits(tree, rank, top, AllNames(lock, roots), loc)
    requires Target(tree, loc, d.name) !in tree
    ensures var at := Target(tree, loc, d.name); Fits(tree[at := d], rank, top, AllNames(lock, roots), at)
  {
    var at := Target(tree, loc, d.name);
    DepOfNamed(lock, roots, tree, loc, d);
    DepOfRanked(lock, roots, tree, rank, top, loc, d);
    if at == In(loc, d.name) && loc != Root {
      NestedFits(lock, tree, rank, top, AllNames(lock, roots), loc, d);
    } else {
      TopFits(tree, rank, top, AllNames(lock, roots), at, d);
    }
  }

  lemma ShallowPlace(lock: Lock, roots: seq<Dep>, st: State, rank: string -> nat, top: nat, loc: Loc, d: Dep)
    requires NestedInParent(lock, st.tree) && Stratified(lock, rank) && RanksBelow(roots, rank, top)
    requires DepOf(lock, roots, st.tree, loc, d) && Shallow(st.tree, rank, top, AllNames(lock, roots))
    ensures var p := Place(lock, st, loc, d); p.Going? ==> Shallow(p.st.tree, rank, top, AllNames(lock, roots))
  {
    var p := Place(lock, st, loc, d);
    PlaceShape(lock, st, loc, d);
    if p.Going? && !Sees(st.tree, loc, d) {
      var at := Target(st.tree, loc, d.name);
      var names := AllNames(lock, roots);
      NewFits(lock, roots, st.tree, rank, top, loc, d);
      forall l | l in st.tree
        ensures Fits(p.st.tree, rank, top, names, l)
      {
        StreakKept(lock, st.tree, rank, at, d, l);
        assert Fits(st.tree, rank, top, names, l);
      }
    }
  }
}
