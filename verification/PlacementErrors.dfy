/**
 * What the errors of the placement worklist say: "two versions" is thrown only
 * where one list names a package at two snapshots, and names that package and
 * the place it would have had.
 */
module PlacementErrors {
  import opened Text
  import opened NodeModules
  import opened Lockfile
  import opened Placement
  import opened PlacementProofs
  import opened PlacementTheorems
  import opened PlacementOrder

  ghost predicate NamesTwice(deps: seq<Dep>, x: string) {
    exists c, d :: c in deps && d in deps && c.name == d.name == x && c.snapshot != d.snapshot
  }

  /** The error is about a package that the list of `loc` names twice. */
  ghost predicate Clashes(e: Error, loc: Loc, deps: seq<Dep>) {
    e.TwoVersions? ==> NamesTwice(deps, e.name) && e.at == Beneath(loc, e.name)
  }

  /** In the root's turn everything was asked for by the root. */
  ghost predicate RootAlone(loc: Loc, history: seq<Request>) {
    loc == Root ==> forall i | 0 <= i < |history| :: history[i].from == Root
  }

  lemma NestedClash(lock: Lock, roots: seq<Dep>, st: State, loc: Loc, dep: Dep)
    requires Tidy(lock, roots, st) && loc in st.placed && loc != Root && dep in st.placed[loc]
    requires !Sees(st.tree, loc, dep) && In(loc, dep.name) in st.tree
    ensures NamesTwice(st.placed[loc], dep.name)
  {
    var c := st.tree[In(loc, dep.name)];
    assert c in st.placed[loc] && c.name == dep.name;
    assert Find(st.tree, loc, dep.name) == Some(In(loc, dep.name));
  }

  lemma RootClash(st: State, log: seq<Loc>, history: seq<Request>, done: seq<Dep>, deps: seq<Dep>, dep: Dep)
    requires Underway(st, log, history, Root, done) && RootAlone(Root, history)
    requires dep in deps && forall d | d in done :: d in deps
    requires !Sees(st.tree, Root, dep) && Find(st.tree, Root, dep.name).Some?
    requires forall l | l in st.tree && l != Root :: st.tree[l].name == l.name
    ensures NamesTwice(deps, dep.name)
  {
    var top := In(Root, dep.name);
    assert FirstServed(st.tree, history, top);
    assert st.tree[top] in done;
  }

  lemma PlaceClash(lock: Lock, roots: seq<Dep>, st: State, log: seq<Loc>, history: seq<Request>, loc: Loc,
                   done: seq<Dep>, dep: Dep)
    requires Tidy(lock, roots, st) && Underway(st, log, history, loc, done) && RootAlone(loc, history)
    requires loc in st.placed && dep in st.placed[loc] && forall d | d in done :: d in st.placed[loc]
    ensures var p := Place(lock, st, loc, dep); p.Failed? ==> Clashes(p.error, loc, st.placed[loc])
  {
    var p := Place(lock, st, loc, dep);
    PlaceShape(lock, st, loc, dep);
    if p.Failed? && p.error.TwoVersions? {
      if Find(st.tree, loc, dep.name) == None {
        NoneMeansNoTop(st.tree, loc, dep.name);
      } else if loc == Root {
        RootClash(st, log, history, done, st.placed[loc], dep);
      } else {
        NestedClash(lock, roots, st, loc, dep);
      }
    }
  }

  lemma {:induction false} PlaceAllClash(lock: Lock, roots: seq<Dep>, st: State, log: seq<Loc>,
                                         history: seq<Request>, loc: Loc, cs: seq<Dep>)
    requires Tidy(lock, roots, st) && Fresh(st, loc) && AllNecessary(st.tree) && RootAlone(loc, history)
    requires forall c | c in cs :: c in st.placed[loc]
    requires Underway(st, log, history, loc, [])
    ensures var p := PlaceAll(lock, st, loc, cs); p.Failed? ==> Clashes(p.error, loc, st.placed[loc])
  {
    if cs != [] {
      var before, last := cs[..|cs| - 1], cs[|cs| - 1];
      PlaceAllClash(lock, roots, st, log, history, loc, before);
      PlaceAllServes(lock, roots, st, log, history, loc, before);
      var p := PlaceAll(lock, st, loc, before);
      if p.Going? {
        assert Tidy(lock, roots, p.st) && p.st.placed == st.placed by {
          PlaceAllKeeps(lock, roots, st, loc, before);
        }
        PlaceClash(lock, roots, p.st, log, history + Requests(loc, before), loc, before, last);
      }
    }
  }

  lemma TurnClash(lock: Lock, roots: seq<Dep>, n: nat)
    requires Run(lock, roots, n).Going? && Run(lock, roots, n).st.queue != [] && Run(lock, roots, n + 1).Failed?
    ensures var Item(loc, cs) := Run(lock, roots, n).st.queue[0]; Clashes(Run(lock, roots, n + 1).error, loc, cs)
  {
    var st, log := Run(lock, roots, n).st, Log(lock, roots, n);
    var Item(loc, cs) := st.queue[0];
    var st0 := Dequeue(st);
    assert Tidy(lock, roots, st) && AllNecessary(st.tree) by { NestingIsNeverGratuitous(lock, roots, n); }
    assert Told(st, log) by { RunTells(lock, roots, n); }
    TurnBegins(lock, roots, st, log);
    assert Tidy(lock, roots, st0) && st0.placed[loc] == cs by { TidyDequeue(lock, roots, st); }
    FreshDequeue(lock, roots, st);
    assert RootAlone(loc, History(st.placed, log)) by {
      RunLogs(lock, roots, n);
      HistoryFrom(st.placed, log);
    }
    PlaceAllClash(lock, roots, st0, log + [loc], History(st.placed, log), loc, cs);
    assert Run(lock, roots, n + 1) == Step(lock, st);
  }

  /** A list of the root's or of a wanted snapshot's dependencies. */
  ghost predicate WantedList(lock: Lock, roots: seq<Dep>, loc: Loc, deps: seq<Dep>) {
    if loc == Root then deps == roots else exists s :: Wanted(lock, roots, s) && deps == Children(lock, s)
  }

  lemma ItemIsWanted(lock: Lock, roots: seq<Dep>, n: nat, st: State)
    requires WellNamed(lock, roots) && Run(lock, roots, n) == Going(st) && st.queue != []
    ensures WantedList(lock, roots, st.queue[0].loc, st.queue[0].children)
  {
    var Item(loc, cs) := st.queue[0];
    assert Own(lock, roots, st.tree, loc) == Some(cs) by { NestingIsNeverGratuitous(lock, roots, n); }
    if loc != Root {
      assert Coherent(st.tree[loc]) && Wanted(lock, roots, st.tree[loc].snapshot) by {
        RunIsRooted(lock, roots, n);
      }
      DepsCoherent(lock, roots, st.tree[loc]);
    }
  }

  /** The place and the package that an error of "two versions" names. */
  ghost predicate Blames(lock: Lock, roots: seq<Dep>, e: Error) {
    e.TwoVersions? ==>
      exists loc, deps ::
        WantedList(lock, roots, loc, deps) && NamesTwice(deps, e.name) && e.at == Beneath(loc, e.name)
  }

  ghost predicate BlamesIfFailed(lock: Lock, roots: seq<Dep>, p: Progress) {
    p.Failed? ==> Blames(lock, roots, p.error)
  }

  lemma TurnBlames(lock: Lock, roots: seq<Dep>, n: nat)
    requires WellNamed(lock, roots) && BlamesIfFailed(lock, roots, Run(lock, roots, n))
    ensures BlamesIfFailed(lock, roots, Run(lock, roots, n + 1))
  {
    var p := Run(lock, roots, n);
    if p.Going? && p.st.queue != [] && Run(lock, roots, n + 1).Failed? {
      TurnClash(lock, roots, n);
      ItemIsWanted(lock, roots, n, p.st);
    }
  }

  /** "Two versions" of a package at a place: some list of the root or of a wanted snapshot
      names that package at two snapshots, and its dependent stands around the place. */
  lemma {:induction false} TwoVersionsNamed(lock: Lock, roots: seq<Dep>, n: nat)
    requires WellNamed(lock, roots)
    ensures BlamesIfFailed(lock, roots, Run(lock, roots, n))
  {
    if n > 0 {
      TwoVersionsNamed(lock, roots, n - 1);
      TurnBlames(lock, roots, n - 1);
    }
  }

  lemma AddedAtTop(lock: Lock, st: State, c: Dep)
    requires st.seen == st.tree.Keys && Find(st.tree, Root, c.name) == None && Deps(lock, c).Some?
    ensures var at := In(Root, c.name);
            Place(lock, st, Root, c) ==
            Going(State(st.tree[at := c], st.placed, st.queue + [Item(at, Deps(lock, c).value)], st.seen + {at}))
  {}

  /** A second version that the root itself asks for does not throw at once: it goes to the
      path `/node_modules/<name>`, where no lookup of the root finds it. */
  lemma RootAsksTwice(lock: Lock, c: Dep, d: Dep)
    requires c.name == d.name && c.snapshot != d.snapshot && Deps(lock, c).Some? && Deps(lock, d).Some?
    ensures var p := Run(lock, [c, d], 1);
            && p.Going?
            && p.st.tree == map[In(Root, c.name) := c, Slashed(c.name) := d]
            && !Sees(p.st.tree, Root, d)
  {
    var cs := [c, d];
    var st0 := Dequeue(Init(cs));
    assert Run(lock, cs, 0) == Going(Init(cs));
    assert Run(lock, cs, 1) == PlaceAll(lock, st0, Root, cs);
    assert cs[..1] == [c] && cs[..1][..0] == [];
    AddedAtTop(lock, st0, c);
    var st1 := Place(lock, st0, Root, c).st;
    assert PlaceAll(lock, st0, Root, [c]) == Going(st1);
    assert Find(st1.tree, Root, d.name) == Some(In(Root, c.name));
    assert PlaceAll(lock, st0, Root, cs) == Place(lock, st1, Root, d);
  }
}
