/**
 * The placement worklist of `npmPackages` (scripts/write-dist-manifest.ts) as a
 * state machine: one step is one turn of the queue loop. `Run` is defined for
 * every number of turns, so what holds of all runs also holds of those that
 * never end.
 */
module Placement {
  import opened Text
  import opened Lockfile
  import opened NodeModules

  datatype Item = Item(loc: Loc, children: seq<Dep>)

  datatype State = State(tree: Tree, placed: map<Loc, seq<Dep>>, queue: seq<Item>, seen: set<Loc>)

  datatype Error =
    | MissingSnapshot(snapshot: string)
    | TwoVersions(name: string, at: Loc)
    | DoesNotSee(loc: Loc, id: string)
    | NoIntegrity(id: string)

  datatype Progress = Going(st: State) | Failed(error: Error)

  function Init(roots: seq<Dep>): State {
    State(map[], map[], [Item(Root, roots)], {})
  }

  /** The location `${loc}/node_modules/${name}`. */
  function Beneath(loc: Loc, name: string): Loc {
    if loc == Root then Slashed(name) else In(loc, name)
  }

  /** Queue the entry at `at` unless that location was queued before. */
  function Enqueue(lock: Lock, st: State, at: Loc, dep: Dep): Progress {
    if at in st.seen then Going(st)
    else match Deps(lock, dep)
      case None => Failed(MissingSnapshot(dep.snapshot))
      case Some(cs) => Going(st.(seen := st.seen + {at}, queue := st.queue + [Item(at, cs)]))
  }

  predicate Sees(tree: Tree, loc: Loc, dep: Dep) {
    var f := Find(tree, loc, dep.name);
    f.Some? && f.value in tree && tree[f.value].snapshot == dep.snapshot
  }

  /** Where a dependency that `loc` does not see yet goes: the top level, or beneath
      the dependent when another snapshot is visible. */
  function Target(tree: Tree, loc: Loc, name: string): Loc {
    if Find(tree, loc, name).Some? then Beneath(loc, name) else In(Root, name)
  }

  /** One turn of the inner loop. */
  function Place(lock: Lock, st: State, loc: Loc, dep: Dep): Progress {
    if Sees(st.tree, loc, dep) then
      Enqueue(lock, st, Find(st.tree, loc, dep.name).value, dep)
    else
      var at := Target(st.tree, loc, dep.name);
      if at in st.tree then Failed(TwoVersions(dep.name, at))
      else Enqueue(lock, st.(tree := st.tree[at := dep]), at, dep)
  }

  lemma PlaceShape(lock: Lock, st: State, loc: Loc, dep: Dep)
    ensures match Place(lock, st, loc, dep)
            case Going(st1) =>
              st1.tree == if Sees(st.tree, loc, dep) then st.tree else st.tree[Target(st.tree, loc, dep.name) := dep]
            case Failed(e) =>
              || (e == MissingSnapshot(dep.snapshot) && Deps(lock, dep) == None)
              || e == TwoVersions(dep.name, Target(st.tree, loc, dep.name))
  {}

  function PlaceAll(lock: Lock, st: State, loc: Loc, children: seq<Dep>): Progress {
    if children == [] then Going(st)
    else match PlaceAll(lock, st, loc, children[..|children| - 1])
      case Failed(e) => Failed(e)
      case Going(st1) => Place(lock, st1, loc, children[|children| - 1])
  }

  /** Take the first item off the queue and record its children as placed. */
  function Dequeue(st: State): State
    requires st.queue != []
  {
    var Item(loc, children) := st.queue[0];
    var before := if loc in st.placed then st.placed[loc] else [];
    st.(queue := st.queue[1..], placed := st.placed[loc := before + children])
  }

  /** One turn of the queue loop. */
  function Step(lock: Lock, st: State): Progress
    requires st.queue != []
  {
    PlaceAll(lock, Dequeue(st), st.queue[0].loc, st.queue[0].children)
  }

  /** The worklist after at most `n` turns. */
  function Run(lock: Lock, roots: seq<Dep>, n: nat): Progress {
    if n == 0 then Going(Init(roots))
    else match Run(lock, roots, n - 1)
      case Failed(e) => Failed(e)
      case Going(st) => if st.queue == [] then Going(st) else Step(lock, st)
  }

  predicate Ended(p: Progress) {
    p.Failed? || p.st.queue == []
  }

  /** Once the loop has ended, further turns change nothing. */
  lemma {:induction false} RunStays(lock: Lock, roots: seq<Dep>, n: nat, m: nat)
    requires n <= m && Ended(Run(lock, roots, n))
    ensures Run(lock, roots, m) == Run(lock, roots, n)
    decreases m
  {
    if n < m {
      RunStays(lock, roots, n, m - 1);
    }
  }

  // -------------------------------------------------------- what every turn keeps

  /** What stands at `loc`: the root's dependencies or the entry's. */
  function Own(lock: Lock, roots: seq<Dep>, tree: Tree, loc: Loc): Option<seq<Dep>> {
    if loc == Root then Some(roots) else if loc in tree then Deps(lock, tree[loc]) else None
  }

  predicate Queued(st: State, loc: Loc) {
    exists i | 0 <= i < |st.queue| :: st.queue[i].loc == loc
  }

  /** The bookkeeping of the four collections. Every location the tree gains is queued
      once and then placed once, with exactly its entry's dependencies; a nested entry is
      a dependency of the entry around it. */
  ghost predicate Tidy(lock: Lock, roots: seq<Dep>, st: State) {
    && st.seen == st.tree.Keys
    && (forall i, j | 0 <= i < j < |st.queue| :: st.queue[i].loc != st.queue[j].loc)
    && (forall i | 0 <= i < |st.queue| ::
          && st.queue[i].loc !in st.placed
          && Own(lock, roots, st.tree, st.queue[i].loc) == Some(st.queue[i].children))
    && (forall l | l in st.placed :: Own(lock, roots, st.tree, l) == Some(st.placed[l]))
    && (Root in st.placed || st == Init(roots))
    && (forall l | l in st.tree :: l in st.placed || Queued(st, l))
    && (forall l | l in st.tree :: l != Root && st.tree[l].name == l.name)
    && (forall l | l in st.tree && l.In? && l.parent != Root ::
          l.parent in st.placed && st.tree[l] in st.placed[l.parent])
  }

  /** No nested entry is gratuitous: without it, its dependent would find another snapshot. */
  ghost predicate Necessary(tree: Tree, l: Loc)
    requires l in tree && l.In?
  {
    var f := Find(tree, Parent(l.parent), l.name);
    f.Some? && f.value in tree && tree[f.value].snapshot != tree[l].snapshot
  }

  ghost predicate AllNecessary(tree: Tree) {
    forall l | l in tree && l.In? && l.parent != Root :: Necessary(tree, l)
  }

  /** Nothing directly inside `loc` has been placed yet: `loc` is the current item. */
  ghost predicate Fresh(st: State, loc: Loc) {
    loc in st.placed && forall x :: In(loc, x) !in st.placed
  }

  /** A placed location around which `loc` stands is `loc` itself. */
  lemma {:induction false} NothingPlacedInside(lock: Lock, roots: seq<Dep>, st: State, loc: Loc, l: Loc)
    requires Tidy(lock, roots, st) && Fresh(st, loc) && loc != Root
    requires l in st.placed && Encloses(loc, l)
    ensures l == loc
    decreases l
  {
    if l.In? && l != loc && l.parent != Root {
      assert l in st.tree;
      NothingPlacedInside(lock, roots, st, loc, l.parent);
    }
  }

  /** `st` with the new entry `dep` at `at`, queued with its dependencies `cs`. */
  function Appended(st: State, dep: Dep, at: Loc, cs: seq<Dep>): State {
    State(st.tree[at := dep], st.placed, st.queue + [Item(at, cs)], st.seen + {at})
  }

  lemma OwnKept(lock: Lock, roots: seq<Dep>, tree: Tree, at: Loc, dep: Dep, l: Loc)
    requires at !in tree && at != Root && Own(lock, roots, tree, l).Some?
    ensures Own(lock, roots, tree[at := dep], l) == Own(lock, roots, tree, l) && l != at
  {}

  lemma AppendedOwn(lock: Lock, roots: seq<Dep>, st: State, dep: Dep, at: Loc, cs: seq<Dep>)
    requires Tidy(lock, roots, st) && at !in st.tree && at != Root && Deps(lock, dep) == Some(cs)
    ensures var st1 := Appended(st, dep, at, cs);
            && (forall i, j | 0 <= i < j < |st1.queue| :: st1.queue[i].loc != st1.queue[j].loc)
            && (forall i | 0 <= i < |st1.queue| ::
                  && st1.queue[i].loc !in st1.placed
                  && Own(lock, roots, st1.tree, st1.queue[i].loc) == Some(st1.queue[i].children))
            && (forall l | l in st1.placed :: Own(lock, roots, st1.tree, l) == Some(st1.placed[l]))
  {
    forall l | Own(lock, roots, st.tree, l).Some?
      ensures Own(lock, roots, st.tree[at := dep], l) == Own(lock, roots, st.tree, l) && l != at
    {
      OwnKept(lock, roots, st.tree, at, dep, l);
    }
  }

  lemma AppendedQueued(lock: Lock, roots: seq<Dep>, st: State, dep: Dep, at: Loc, cs: seq<Dep>, l: Loc)
    requires Tidy(lock, roots, st) && (l == at || l in st.tree)
    ensures l in st.placed || Queued(Appended(st, dep, at, cs), l)
  {
    var st1 := Appended(st, dep, at, cs);
    if l == at {
      assert st1.queue[|st.queue|].loc == l;
    } else if l !in st.placed {
      var i :| 0 <= i < |st.queue| && st.queue[i].loc == l;
      assert st1.queue[i].loc == l;
    }
  }

  lemma AppendedNested(lock: Lock, roots: seq<Dep>, st: State, loc: Loc, dep: Dep, at: Loc, cs: seq<Dep>)
    requires Tidy(lock, roots, st) && loc in st.placed && dep in st.placed[loc]
    requires at !in st.tree && at != Root && at.name == dep.name
    requires at.In? && at.parent != Root ==> at.parent == loc
    ensures var st1 := Appended(st, dep, at, cs);
            && (forall l | l in st1.tree :: l != Root && st1.tree[l].name == l.name)
            && (forall l | l in st1.tree && l.In? && l.parent != Root ::
                  l.parent in st1.placed && st1.tree[l] in st1.placed[l.parent])
  {}

  /** A new entry that is a dependency of a placed location, queued with its own ones. */
  lemma TidyAppend(lock: Lock, roots: seq<Dep>, st: State, loc: Loc, dep: Dep, at: Loc, cs: seq<Dep>)
    requires Tidy(lock, roots, st) && loc in st.placed && dep in st.placed[loc]
    requires at !in st.tree && at != Root && at.name == dep.name && Deps(lock, dep) == Some(cs)
    requires at.In? && at.parent != Root ==> at.parent == loc
    ensures Tidy(lock, roots, Appended(st, dep, at, cs))
  {
    AppendedOwn(lock, roots, st, dep, at, cs);
    AppendedNested(lock, roots, st, loc, dep, at, cs);
    forall l | l == at || l in st.tree
      ensures l in st.placed || Queued(Appended(st, dep, at, cs), l)
    {
      AppendedQueued(lock, roots, st, dep, at, cs, l);
    }
  }

  lemma TidyNewEntry(lock: Lock, roots: seq<Dep>, st: State, loc: Loc, dep: Dep)
    requires Tidy(lock, roots, st) && loc in st.placed && dep in st.placed[loc]
    requires !Sees(st.tree, loc, dep)
    ensures match Place(lock, st, loc, dep)
            case Failed(_) => true
            case Going(st1) => Tidy(lock, roots, st1) && st1.placed == st.placed
  {
    if Place(lock, st, loc, dep).Going? {
      TidyAppend(lock, roots, st, loc, dep, Target(st.tree, loc, dep.name), Deps(lock, dep).value);
    }
  }

  lemma TidyPlace(lock: Lock, roots: seq<Dep>, st: State, loc: Loc, dep: Dep)
    requires Tidy(lock, roots, st) && loc in st.placed && dep in st.placed[loc]
    ensures match Place(lock, st, loc, dep)
            case Failed(_) => true
            case Going(st1) => Tidy(lock, roots, st1) && st1.placed == st.placed
  {
    if Sees(st.tree, loc, dep) {
    } else {
      TidyNewEntry(lock, roots, st, loc, dep);
    }
  }

  lemma FreshDequeue(lock: Lock, roots: seq<Dep>, st: State)
    requires Tidy(lock, roots, st) && st.queue != []
    ensures Fresh(Dequeue(st), st.queue[0].loc)
  {
    var loc := st.queue[0].loc;
    assert forall l | l in st.placed :: l == Root || l in st.tree;
  }

  lemma TidyDequeue(lock: Lock, roots: seq<Dep>, st: State)
    requires Tidy(lock, roots, st) && st.queue != []
    ensures var st1 := Dequeue(st);
            Tidy(lock, roots, st1) && st1.placed[st.queue[0].loc] == st.queue[0].children
  {
    var st1 := Dequeue(st);
    var loc := st.queue[0].loc;
    assert loc !in st.placed;
    assert st1.placed[loc] == st.queue[0].children;
    assert forall i | 0 <= i < |st1.queue| :: st1.queue[i] == st.queue[i + 1];
    forall l | l in st.tree
      ensures l in st1.placed || Queued(st1, l)
    {
      if l !in st.placed && l != loc {
        var i :| 0 <= i < |st.queue| && st.queue[i].loc == l;
        assert st1.queue[i - 1].loc == l;
      }
    }
  }
}
