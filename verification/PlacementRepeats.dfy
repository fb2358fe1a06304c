/**
 * Exactly when the placement worklist ends: an entry nested inside another
 * one of the same snapshot, with the same entries visible around both, goes
 * on nesting for ever, and without such a repeat the tree is too shallow to
 * go on.
 */
module PlacementRepeats {
  import opened Text
  import opened Graph
  import opened Lockfile
  import opened NodeModules
  import opened Placement
  import opened PlacementProofs
  import opened PlacementTheorems
  import opened PlacementTermination
  import opened PlacementEnds
  import opened PlacementFairness

  /** The snapshot of the nearest entry `x` visible from `p` that is not at the top level. */
  function Inner(tree: Tree, p: Loc, x: string): Option<string>
    decreases Depth(p)
  {
    if p == Root then None
    else if In(p, x) in tree then Some(tree[In(p, x)].snapshot)
    else Inner(tree, Parent(p), x)
  }

  /** The same nested entries are visible from both directories. */
  ghost predicate SameView(tree: Tree, p: Loc, q: Loc) {
    forall x :: Inner(tree, p, x) == Inner(tree, q, x)
  }

  /** `l` is nested inside `k` and stands in all that placement looks at where `k` stands. */
  ghost predicate RepeatsAt(tree: Tree, k: Loc, l: Loc) {
    && k in tree && l in tree && k != l && Encloses(k, l)
    && tree[k].snapshot == tree[l].snapshot
    && SameView(tree, Parent(k), Parent(l))
  }

  ghost predicate Repeats(tree: Tree) {
    exists k, l :: RepeatsAt(tree, k, l)
  }

  // ------------------------------------------------ a finished layout never repeats

  /** The snapshot a dependent at `p` sees under `x`. */
  function Seen(tree: Tree, p: Loc, x: string): Option<string> {
    var f := Find(tree, p, x);
    if f.Some? && f.value in tree then Some(tree[f.value].snapshot) else None
  }

  /** What is seen is the nearest nested entry, or else the top-level one. */
  lemma {:induction false} SeenIsInner(tree: Tree, p: Loc, x: string)
    ensures Seen(tree, p, x) == if Inner(tree, p, x).Some? then Inner(tree, p, x) else Seen(tree, Root, x)
    decreases p
  {
    if p.In? && In(p, x) !in tree {
      SeenIsInner(tree, p.parent, x);
    }
  }

  /** A finished layout: bookkeeping in order, nesting needed, every dependency seen. */
  ghost predicate Finished(lock: Lock, roots: seq<Dep>, st: State) {
    Kept(lock, roots, st) && st.queue == [] && AllSatisfied(st)
  }

  /** A nested entry is a dependency that would not be seen without it. */
  lemma NestedIsUnseen(lock: Lock, roots: seq<Dep>, st: State, k: Loc, x: string)
    requires WellNamed(lock, roots) && Finished(lock, roots, st)
    requires k in st.tree && In(k, x) in st.tree
    ensures var d := st.tree[In(k, x)];
            && d.name == x && d in Children(lock, st.tree[k].snapshot)
            && Seen(st.tree, Parent(k), x) != Some(d.snapshot) && Seen(st.tree, Parent(k), x).Some?
  {
    var at := In(k, x);
    assert k in st.placed && st.tree[at] in st.placed[k] && Necessary(st.tree, at);
    PlacedIsChildren(lock, roots, st, k);
  }

  /** A dependency that is not seen around the entry stands inside it. */
  lemma UnseenIsNested(lock: Lock, roots: seq<Dep>, st: State, l: Loc, d: Dep)
    requires WellNamed(lock, roots) && Finished(lock, roots, st)
    requires l in st.tree && d in Children(lock, st.tree[l].snapshot)
    requires Seen(st.tree, Parent(l), d.name) != Some(d.snapshot)
    ensures In(l, d.name) in st.tree && st.tree[In(l, d.name)].snapshot == d.snapshot
  {
    assert Sees(st.tree, l, d) by {
      PlacedIsChildren(lock, roots, st, l);
      assert Satisfied(st.tree, l, st.placed[l]);
    }
    assert l != Root;
    assert In(l, d.name) !in st.tree ==> Find(st.tree, l, d.name) == Find(st.tree, Parent(l), d.name);
  }

  /** What stands directly inside `k` is decided by its snapshot and what is seen around it. */
  lemma InsideDecides(lock: Lock, roots: seq<Dep>, st: State, k: Loc, l: Loc, x: string)
    requires WellNamed(lock, roots) && Finished(lock, roots, st)
    requires k in st.tree && l in st.tree && st.tree[k].snapshot == st.tree[l].snapshot
    requires Inner(st.tree, Parent(k), x) == Inner(st.tree, Parent(l), x)
    requires In(k, x) in st.tree
    ensures In(l, x) in st.tree && st.tree[In(l, x)].snapshot == st.tree[In(k, x)].snapshot
  {
    NestedIsUnseen(lock, roots, st, k, x);
    assert Seen(st.tree, Parent(k), x) == Seen(st.tree, Parent(l), x) by {
      SeenIsInner(st.tree, Parent(k), x);
      SeenIsInner(st.tree, Parent(l), x);
    }
    UnseenIsNested(lock, roots, st, l, st.tree[In(k, x)]);
  }

  /** Entries of one snapshot with the same view have the same view inside them. */
  lemma SameInside(lock: Lock, roots: seq<Dep>, st: State, k: Loc, l: Loc)
    requires WellNamed(lock, roots) && Finished(lock, roots, st)
    requires k in st.tree && l in st.tree && st.tree[k].snapshot == st.tree[l].snapshot
    requires SameView(st.tree, Parent(k), Parent(l))
    ensures SameView(st.tree, k, l)
  {
    forall x
      ensures Inner(st.tree, k, x) == Inner(st.tree, l, x)
    {
      assert Inner(st.tree, Parent(k), x) == Inner(st.tree, Parent(l), x);
      if In(k, x) in st.tree {
        InsideDecides(lock, roots, st, k, l, x);
      } else if In(l, x) in st.tree {
        InsideDecides(lock, roots, st, l, k, x);
      }
    }
  }

  /** The step from `k` towards `l`. */
  function Toward(k: Loc, l: Loc): (c: Loc)
    requires Encloses(k, l) && k != l && k != Root
    ensures c.In? && c.parent == k && Encloses(c, l)
    decreases l
  {
    if l.parent == k then l else Toward(k, l.parent)
  }

  /** Directories around an entry are entries. */
  lemma {:induction false} AroundIsEntry(lock: Lock, tree: Tree, c: Loc, l: Loc)
    requires NestedInParent(lock, tree) && l in tree && Encloses(c, l) && c != Root
    ensures c in tree
    decreases l
  {
    if c != l {
      assert NestsAt(lock, tree, l);
      AroundIsEntry(lock, tree, c, l.parent);
    }
  }

  /** A repeat brings about the next one, a level deeper. */
  lemma RepeatsDeeper(lock: Lock, roots: seq<Dep>, st: State, k: Loc, l: Loc) returns (c: Loc, d: Loc)
    requires WellNamed(lock, roots) && Finished(lock, roots, st) && RepeatsAt(st.tree, k, l)
    ensures RepeatsAt(st.tree, c, d) && Depth(d) == Depth(l) + 1
  {
    TidyNests(lock, roots, st);
    c := Toward(k, l);
    d := In(l, c.name);
    AroundIsEntry(lock, st.tree, c, l);
    InsideDecides(lock, roots, st, k, l, c.name);
    SameInside(lock, roots, st, k, l);
    EnclosesTrans(c, l, d);
    EnclosesIsHigher(c, l);
  }

  /** Repeats get deeper and deeper, so a finished layout, being finite, has none. */
  lemma {:induction false} FinishedNeverRepeats(lock: Lock, roots: seq<Dep>, st: State, k: Loc, l: Loc, deepest: nat)
    requires WellNamed(lock, roots) && Finished(lock, roots, st) && NoDeeper(st.tree, deepest)
    ensures !RepeatsAt(st.tree, k, l)
    decreases deepest - Depth(l)
  {
    if RepeatsAt(st.tree, k, l) {
      var c, d := RepeatsDeeper(lock, roots, st, k, l);
      FinishedNeverRepeats(lock, roots, st, c, d, deepest);
    }
  }

  lemma {:induction false} Deepest(locs: set<Loc>) returns (deepest: nat)
    ensures forall e | e in locs :: Depth(e) <= deepest
    decreases |locs|
  {
    if locs == {} {
      deepest := 0;
    } else {
      var l :| l in locs;
      deepest := Deepest(locs - {l});
      if deepest < Depth(l) {
        deepest := Depth(l);
      }
    }
  }

  // ---------------------------------------------------------------- repeats remain

  /** An entry not inside a directory around `p` changes no view from `p`. */
  lemma {:induction false} InnerKept(tree: Tree, at: Loc, d: Dep, p: Loc, x: string)
    requires at.In? && at.parent != Root ==> !Encloses(at.parent, p)
    ensures Inner(tree[at := d], p, x) == Inner(tree, p, x)
    decreases p
  {
    if p.In? {
      InnerKept(tree, at, d, p.parent, x);
    }
  }

  /** Every entry of `t` stands in `u`, and the view from `p` is the same. */
  ghost predicate Extends(t: Tree, u: Tree, p: Loc) {
    && (forall l | l in t :: l in u && u[l] == t[l])
    && (forall x :: Inner(u, p, x) == Inner(t, p, x))
  }

  lemma PlaceExtends(lock: Lock, roots: seq<Dep>, st: State, loc: Loc, dep: Dep, p: Loc)
    requires Tidy(lock, roots, st) && Fresh(st, loc) && (p == Root || (p in st.placed && p != loc))
    ensures var r := Place(lock, st, loc, dep); r.Going? ==> Extends(st.tree, r.st.tree, p)
  {
    PlaceShape(lock, st, loc, dep);
    var at := Target(st.tree, loc, dep.name);
    if at.In? && at.parent != Root && Encloses(loc, p) {
      NothingPlacedInside(lock, roots, st, loc, p);
    }
    forall x
      ensures Inner(st.tree[at := dep], p, x) == Inner(st.tree, p, x)
    {
      InnerKept(st.tree, at, dep, p, x);
    }
  }

  lemma {:induction false} PlaceAllExtends(lock: Lock, roots: seq<Dep>, st: State, loc: Loc, cs: seq<Dep>, p: Loc)
    requires Tidy(lock, roots, st) && Fresh(st, loc) && AllNecessary(st.tree)
    requires forall c | c in cs :: c in st.placed[loc]
    requires p == Root || (p in st.placed && p != loc)
    ensures var r := PlaceAll(lock, st, loc, cs); r.Going? ==> Extends(st.tree, r.st.tree, p)
  {
    if cs != [] {
      var before := cs[..|cs| - 1];
      PlaceAllExtends(lock, roots, st, loc, before, p);
      var r := PlaceAll(lock, st, loc, before);
      if r.Going? {
        assert Tidy(lock, roots, r.st) && r.st.placed == st.placed by { PlaceAllKeeps(lock, roots, st, loc, before); }
        PlaceExtends(lock, roots, r.st, loc, cs[|cs| - 1], p);
      }
    }
  }

  /** A turn keeps every entry and the view from the directory it stands in. */
  lemma StepExtends(lock: Lock, roots: seq<Dep>, st: State, l: Loc)
    requires Tidy(lock, roots, st) && AllNecessary(st.tree) && st.queue != [] && l in st.tree
    ensures var r := Step(lock, st); r.Going? ==> Extends(st.tree, r.st.tree, Parent(l))
  {
    TidyDequeue(lock, roots, st);
    FreshDequeue(lock, roots, st);
    PlaceAllExtends(lock, roots, Dequeue(st), st.queue[0].loc, st.queue[0].children, Parent(l));
  }

  lemma StepRepeats(lock: Lock, roots: seq<Dep>, st: State)
    requires Tidy(lock, roots, st) && AllNecessary(st.tree) && st.queue != [] && Repeats(st.tree)
    ensures var r := Step(lock, st); r.Going? ==> Repeats(r.st.tree)
  {
    var k, l :| RepeatsAt(st.tree, k, l);
    StepExtends(lock, roots, st, k);
    StepExtends(lock, roots, st, l);
    var r := Step(lock, st);
    if r.Going? {
      assert RepeatsAt(r.st.tree, k, l);
    }
  }

  ghost predicate RepeatsIfGoing(r: Progress) {
    r.Going? ==> Repeats(r.st.tree)
  }

  lemma TurnRepeats(lock: Lock, roots: seq<Dep>, n: nat)
    requires RepeatsIfGoing(Run(lock, roots, n))
    ensures RepeatsIfGoing(Run(lock, roots, n + 1))
  {
    var r := Run(lock, roots, n);
    if r.Going? && r.st.queue != [] {
      assert Tidy(lock, roots, r.st) && AllNecessary(r.st.tree) by { NestingIsNeverGratuitous(lock, roots, n); }
      assert Run(lock, roots, n + 1) == Step(lock, r.st);
      StepRepeats(lock, roots, r.st);
    }
  }

  /** A repeat stays for the rest of the run. */
  lemma {:induction false} RunRepeats(lock: Lock, roots: seq<Dep>, n: nat, m: nat)
    requires n <= m && RepeatsIfGoing(Run(lock, roots, n))
    ensures RepeatsIfGoing(Run(lock, roots, m))
    decreases m
  {
    if n < m {
      RunRepeats(lock, roots, n, m - 1);
      TurnRepeats(lock, roots, m - 1);
    }
  }

  /** A repeat in any run rules out that the layout ever succeeds. */
  lemma RepeatNeverLays(lock: Lock, roots: seq<Dep>, n: nat, m: nat)
    requires WellNamed(lock, roots) && Run(lock, roots, n).Going? && Repeats(Run(lock, roots, n).st.tree)
    ensures !Lays(Run(lock, roots, m))
  {
    if Lays(Run(lock, roots, m)) {
      var last := if n < m then m else n;
      RunStays(lock, roots, m, last);
      RunRepeats(lock, roots, n, last);
      var st := Run(lock, roots, m).st;
      RunIsKept(lock, roots, m);
      var k, l :| RepeatsAt(st.tree, k, l);
      var deepest := Deepest(st.tree.Keys);
      FinishedNeverRepeats(lock, roots, st, k, l, deepest);
    }
  }

  // ------------------------------------------------- without a repeat nothing is deep

  /** What placement looks at where an entry stands. */
  type Situation = (string, map<string, string>)

  /** The nested snapshots visible from `p` under `names`. */
  function View(tree: Tree, p: Loc, names: set<string>): map<string, string> {
    map x | x in names && Inner(tree, p, x).Some? :: Inner(tree, p, x).value
  }

  /** The maps from some of `names` to `values`. */
  ghost function Views(names: set<string>, values: set<string>): set<map<string, string>>
    decreases |names|
  {
    if names == {} then {map[]}
    else
      var x :| x in names;
      var rest := Views(names - {x}, values);
      rest + set v, s | v in rest && s in values :: v[x := s]
  }

  lemma {:induction false} ViewsExact(names: set<string>, values: set<string>, v: map<string, string>)
    requires v.Keys <= names && v.Values <= values
    ensures v in Views(names, values)
    decreases |names|
  {
    if names != {} {
      var x :| x in names && Views(names, values) ==
        Views(names - {x}, values) + set u, s | u in Views(names - {x}, values) && s in values :: u[x := s];
      var w := v - {x};
      ViewsExact(names - {x}, values, w);
      if x in v {
        assert v == w[x := v[x]] && v[x] in v.Values;
      } else {
        assert v == w;
      }
    } else {
      assert v == map[];
    }
  }

  ghost function Situations(lock: Lock, roots: seq<Dep>): set<Situation> {
    set s, v | s in lock.snapshots && v in Views(AllNames(lock, roots), lock.snapshots.Keys) :: (s, v)
  }

  /** Every entry has a known name and a snapshot of the lockfile. */
  ghost predicate Known(tree: Tree, names: set<string>, snapshots: set<string>) {
    forall l | l in tree :: l != Root && tree[l].name == l.name && l.name in names && tree[l].snapshot in snapshots
  }

  ghost function SituationOf(tree: Tree, names: set<string>, l: Loc): Situation
    requires l in tree
  {
    (tree[l].snapshot, View(tree, Parent(l), names))
  }

  lemma {:induction false} InnerKnown(tree: Tree, names: set<string>, snapshots: set<string>, p: Loc, x: string)
    requires Known(tree, names, snapshots) && Inner(tree, p, x).Some?
    ensures x in names && Inner(tree, p, x).value in snapshots
    decreases Depth(p)
  {
    if In(p, x) in tree {
      assert In(p, x).name == x;
    } else {
      InnerKnown(tree, names, snapshots, Parent(p), x);
    }
  }

  lemma SituationKnown(lock: Lock, roots: seq<Dep>, tree: Tree, l: Loc)
    requires Known(tree, AllNames(lock, roots), lock.snapshots.Keys) && l in tree
    ensures SituationOf(tree, AllNames(lock, roots), l) in Situations(lock, roots)
  {
    var names := AllNames(lock, roots);
    var v := View(tree, Parent(l), names);
    forall x | x in v
      ensures v[x] in lock.snapshots
    {
      InnerKnown(tree, names, lock.snapshots.Keys, Parent(l), x);
    }
    ViewsExact(names, lock.snapshots.Keys, v);
  }

  lemma InnerIsView(tree: Tree, names: set<string>, snapshots: set<string>, p: Loc, x: string)
    requires Known(tree, names, snapshots)
    ensures var v := View(tree, p, names); Inner(tree, p, x) == if x in v then Some(v[x]) else None
  {
    if Inner(tree, p, x).Some? {
      InnerKnown(tree, names, snapshots, p, x);
    }
  }

  lemma SameSituationRepeats(tree: Tree, names: set<string>, snapshots: set<string>, k: Loc, l: Loc)
    requires Known(tree, names, snapshots) && k in tree && l in tree && k != l && Encloses(k, l)
    requires SituationOf(tree, names, k) == SituationOf(tree, names, l)
    ensures RepeatsAt(tree, k, l)
  {
    forall x
      ensures Inner(tree, Parent(k), x) == Inner(tree, Parent(l), x)
    {
      InnerIsView(tree, names, snapshots, Parent(k), x);
      InnerIsView(tree, names, snapshots, Parent(l), x);
    }
  }

  /** The situations of `l` and of the entries around it. */
  ghost function Along(tree: Tree, names: set<string>, l: Loc): set<Situation> {
    if l == Root || l !in tree then {}
    else if l.In? then Along(tree, names, l.parent) + {SituationOf(tree, names, l)}
    else {SituationOf(tree, names, l)}
  }

  lemma {:induction false} AlongIsAround(tree: Tree, names: set<string>, l: Loc, c: Situation)
    requires c in Along(tree, names, l)
    ensures exists k :: k in tree && Encloses(k, l) && SituationOf(tree, names, k) == c
  {
    if c == SituationOf(tree, names, l) {
      assert l in tree && Encloses(l, l);
    } else {
      AlongIsAround(tree, names, l.parent, c);
      var k :| k in tree && Encloses(k, l.parent) && SituationOf(tree, names, k) == c;
      assert Encloses(k, l);
    }
  }

  lemma NewSituation(tree: Tree, names: set<string>, snapshots: set<string>, l: Loc)
    requires Known(tree, names, snapshots) && !Repeats(tree) && l in tree && l.In?
    ensures SituationOf(tree, names, l) !in Along(tree, names, l.parent)
  {
    var c := SituationOf(tree, names, l);
    if c in Along(tree, names, l.parent) {
      AlongIsAround(tree, names, l.parent, c);
      var k :| k in tree && Encloses(k, l.parent) && SituationOf(tree, names, k) == c;
      EnclosesIsHigher(k, l.parent);
      SameSituationRepeats(tree, names, snapshots, k, l);
    }
  }

  /** Without a repeat the entries around an entry are all in different situations. */
  lemma {:induction false} DepthIsSituations(lock: Lock, tree: Tree, names: set<string>, snapshots: set<string>,
                                             l: Loc)
    requires Known(tree, names, snapshots) && NestedInParent(lock, tree)
    requires !Repeats(tree) && (l == Root || l in tree)
    ensures |Along(tree, names, l)| == Depth(l)
    decreases l
  {
    if l != Root && l.In? {
      assert l.parent == Root || l.parent in tree by { assert NestsAt(lock, tree, l); }
      DepthIsSituations(lock, tree, names, snapshots, l.parent);
      var outer := Along(tree, names, l.parent);
      assert SituationOf(tree, names, l) !in outer by { NewSituation(tree, names, snapshots, l); }
      assert Along(tree, names, l) == outer + {SituationOf(tree, names, l)};
    }
  }

  lemma AlongIsKnown(lock: Lock, roots: seq<Dep>, tree: Tree, l: Loc)
    requires Known(tree, AllNames(lock, roots), lock.snapshots.Keys)
    ensures Along(tree, AllNames(lock, roots), l) <= Situations(lock, roots)
  {
    forall c | c in Along(tree, AllNames(lock, roots), l)
      ensures c in Situations(lock, roots)
    {
      AlongIsAround(tree, AllNames(lock, roots), l, c);
      var k :| k in tree && SituationOf(tree, AllNames(lock, roots), k) == c;
      SituationKnown(lock, roots, tree, k);
    }
  }

  lemma {:induction false} PlaceAllNamed(lock: Lock, st: State, loc: Loc, cs: seq<Dep>, names: set<string>)
    requires Named(st.tree, names) && Names(cs) <= names
    ensures var r := PlaceAll(lock, st, loc, cs); r.Going? ==> Named(r.st.tree, names)
  {
    if cs != [] {
      var before := cs[..|cs| - 1];
      var last := cs[|cs| - 1];
      assert last.name in Names(cs) && Names(before) <= Names(cs);
      PlaceAllNamed(lock, st, loc, before, names);
      var r := PlaceAll(lock, st, loc, before);
      if r.Going? {
        PlaceShape(lock, r.st, loc, last);
      }
    }
  }

  lemma StepNamed(lock: Lock, roots: seq<Dep>, st: State)
    requires WellNamed(lock, roots) && Kept(lock, roots, st) && st.queue != []
    requires Named(st.tree, AllNames(lock, roots))
    ensures var r := Step(lock, st); r.Going? ==> Named(r.st.tree, AllNames(lock, roots))
  {
    var Item(loc, cs) := st.queue[0];
    forall c | c in cs
      ensures c.name in AllNames(lock, roots)
    {
      OwnWanted(lock, roots, st.tree, loc, c);
      DepOfNamed(lock, roots, st.tree, loc, c);
    }
    PlaceAllNamed(lock, Dequeue(st), loc, cs, AllNames(lock, roots));
  }

  lemma RunIsKnown(lock: Lock, roots: seq<Dep>, n: nat)
    requires WellNamed(lock, roots) && Run(lock, roots, n).Going?
    ensures Known(Run(lock, roots, n).st.tree, AllNames(lock, roots), lock.snapshots.Keys)
  {
    var names := AllNames(lock, roots);
    var named := (st: State) => Named(st.tree, names);
    forall st
      ensures TurnKeeps(lock, roots, named, st)
    {
      if Kept(lock, roots, st) && st.queue != [] && named(st) {
        StepNamed(lock, roots, st);
      }
    }
    RunInduction(lock, roots, named, n);
    RunIsKept(lock, roots, n);
    var st := Run(lock, roots, n).st;
    forall l | l in st.tree
      ensures st.tree[l].snapshot in lock.snapshots
    {
      EntriesAreLocked(lock, roots, st, l);
    }
  }

  lemma NoRepeatNotDeep(lock: Lock, roots: seq<Dep>, tree: Tree)
    requires Known(tree, AllNames(lock, roots), lock.snapshots.Keys) && NestedInParent(lock, tree) && !Repeats(tree)
    ensures NoDeeper(tree, |Situations(lock, roots)|)
  {
    forall l | l in tree
      ensures Depth(l) <= |Situations(lock, roots)|
    {
      DepthIsSituations(lock, tree, AllNames(lock, roots), lock.snapshots.Keys, l);
      AlongIsKnown(lock, roots, tree, l);
      SubsetAtMost(Along(tree, AllNames(lock, roots), l), Situations(lock, roots));
    }
  }

  // ------------------------------------------------------------ exactly when it ends

  /** By this turn the loop has ended or repeated. */
  ghost function Horizon(lock: Lock, roots: seq<Dep>): nat {
    |Locs(AllNames(lock, roots), |Situations(lock, roots)|)|
  }

  /** A loop that has not ended by the horizon has repeated by then. */
  lemma EndsOrRepeats(lock: Lock, roots: seq<Dep>)
    requires WellNamed(lock, roots)
    ensures var r := Run(lock, roots, Horizon(lock, roots)); Ended(r) || Repeats(r.st.tree)
  {
    var n := Horizon(lock, roots);
    var r := Run(lock, roots, n);
    if !Ended(r) && !Repeats(r.st.tree) {
      TurnsArePlacements(lock, roots, n);
      RunIsKept(lock, roots, n);
      RunIsKnown(lock, roots, n);
      TidyNests(lock, roots, r.st);
      NoRepeatNotDeep(lock, roots, r.st.tree);
      PlacedInLocs(lock, roots, r.st, AllNames(lock, roots), |Situations(lock, roots)|);
    }
  }

  ghost predicate EverRepeats(lock: Lock, roots: seq<Dep>) {
    exists n :: Run(lock, roots, n).Going? && Repeats(Run(lock, roots, n).st.tree)
  }

  lemma CompleteEndsIff(lock: Lock, roots: seq<Dep>)
    requires WellNamed(lock, roots) && AllConsistent(lock, roots) && Complete(lock, roots)
    ensures (exists n :: Ended(Run(lock, roots, n))) <==> !EverRepeats(lock, roots)
    ensures (exists n :: Ended(Run(lock, roots, n))) <==> Ended(Run(lock, roots, Horizon(lock, roots)))
  {
    EndsOrRepeats(lock, roots);
    forall n, m | Ended(Run(lock, roots, m)) && Run(lock, roots, n).Going?
      ensures !Repeats(Run(lock, roots, n).st.tree)
    {
      if Repeats(Run(lock, roots, n).st.tree) {
        LayoutSucceedsIff(lock, roots, m);
        RepeatNeverLays(lock, roots, n, m);
      }
    }
  }

  /** On a consistent lockfile the loop ends if and only if a wanted snapshot is missing or
      no entry is ever nested inside another of its snapshot with the same entries visible
      around both; on a complete one, whether it does shows by the horizon. */
  lemma EndsIffNothingRepeats(lock: Lock, roots: seq<Dep>)
    requires WellNamed(lock, roots) && AllConsistent(lock, roots)
    ensures (exists n :: Ended(Run(lock, roots, n))) <==> !Complete(lock, roots) || !EverRepeats(lock, roots)
    ensures Complete(lock, roots) ==>
              ((exists n :: Ended(Run(lock, roots, n))) <==> Ended(Run(lock, roots, Horizon(lock, roots))))
  {
    if Complete(lock, roots) {
      CompleteEndsIff(lock, roots);
    } else {
      if Endless(lock, roots) {
        EndlessIsComplete(lock, roots);
      }
      assert exists n :: Ended(Run(lock, roots, n));
    }
  }

  /** Some layout succeeds if and only if the lockfile has every wanted snapshot, no list
      names one package at two snapshots, and nothing ever repeats. */
  lemma LaysIff(lock: Lock, roots: seq<Dep>)
    requires WellNamed(lock, roots)
    ensures (exists n :: Lays(Run(lock, roots, n))) <==>
              Complete(lock, roots) && AllConsistent(lock, roots) && !EverRepeats(lock, roots)
  {
    forall n | Lays(Run(lock, roots, n))
      ensures Complete(lock, roots) && AllConsistent(lock, roots) && !EverRepeats(lock, roots)
    {
      LayoutSucceedsIff(lock, roots, n);
      EndsIffNothingRepeats(lock, roots);
    }
    if Complete(lock, roots) && AllConsistent(lock, roots) && !EverRepeats(lock, roots) {
      EndsIffNothingRepeats(lock, roots);
      LayoutSucceedsIff(lock, roots, Horizon(lock, roots));
    }
  }
}
