/**
 * A complete and consistent lockfile on which the placement worklist never
 * ends: two versions each of `a` and `b`, depending on each other in a ring.
 * Every lookup finds the wrong version just above, so every turn nests deeper.
 */
module PlacementDiverges {
  import opened Text
  import opened Graph
  import opened Lockfile
  import opened NodeModules
  import opened Placement
  import opened PlacementProofs
  import opened PlacementTheorems

  function Ring(): Lock {
    Lock(map["a@1" := Snapshot([("b", "1")], []),
             "b@1" := Snapshot([("a", "2")], []),
             "a@2" := Snapshot([("b", "2")], []),
             "b@2" := Snapshot([("a", "1")], [])],
         map[])
  }

  const A1 := Dep("a", "a@1", "a@1", false)
  const B1 := Dep("b", "b@1", "b@1", false)
  const A2 := Dep("a", "a@2", "a@2", false)
  const B2 := Dep("b", "b@2", "b@2", false)

  predicate OnRing(d: Dep) {
    d == A1 || d == B1 || d == A2 || d == B2
  }

  function After(d: Dep): Dep {
    if d == A1 then B1 else if d == B1 then A2 else if d == A2 then B2 else A1
  }

  lemma ParsePlain(name: string, ref: string)
    requires |ref| == 1 && ref[0] != '(' && ref[0] != '@'
    ensures ParseDep(name, ref, false) == Dep(name, name + "@" + ref, name + "@" + ref, false)
  {
    assert StripPeersFrom(ref, 1) == ref;
  }

  lemma RingDeps(d: Dep)
    requires OnRing(d)
    ensures Deps(Ring(), d) == Some([After(d)])
  {
    var r := if d == A1 || d == B2 then "1" else "2";
    ParsePlain("a", "1");
    ParsePlain("a", "2");
    ParsePlain("b", "1");
    ParsePlain("b", "2");
    assert "a" + "@" + "1" == "a@1" && "a" + "@" + "2" == "a@2";
    assert "b" + "@" + "1" == "b@1" && "b" + "@" + "2" == "b@2";
    var e := Ring().snapshots[d.snapshot].dependencies;
    assert e[1..] == [];
    assert Regular(e) == [ParseDep(e[0].0, e[0].1, false)];
  }

  /** One entry is waiting, its dependent's dependent is the other version of what it wants. */
  ghost predicate Chasing(st: State) {
    && |st.queue| == 1
    && var l := st.queue[0].loc;
    && l.In? && l.parent.In? && l in st.tree && l.parent in st.tree
    && var below, above := st.tree[l], st.tree[l.parent];
    && OnRing(above) && below == After(above) && st.queue[0].children == [After(below)]
    && l.name == below.name && l.parent.name == above.name
    && (forall x :: In(l, x) !in st.tree)
    && (forall x | x != l.name :: In(l.parent, x) !in st.tree)
  }

  /** A turn on a queue of one item with one dependency, which `l` does not see yet. */
  lemma LoneTurn(lock: Lock, st: State, l: Loc, c: Dep, next: Dep)
    requires st.queue == [Item(l, [c])] && l !in st.placed && st.seen == st.tree.Keys
    requires !Sees(st.tree, l, c) && Target(st.tree, l, c.name) !in st.tree
    requires Deps(lock, c) == Some([next])
    ensures var at := Target(st.tree, l, c.name);
            Step(lock, st) ==
              Going(State(st.tree[at := c], st.placed[l := [c]], [Item(at, [next])], st.seen + {at}))
  {
    var st0 := Dequeue(st);
    assert [] + [c] == [c] && st.queue[1..] == [];
    assert st0 == State(st.tree, st.placed[l := [c]], [], st.seen);
    assert [c][..0] == [];
    assert PlaceAll(lock, st0, l, []) == Going(st0);
    assert PlaceAll(lock, st0, l, [c]) == Place(lock, st0, l, c);
  }

  lemma ChaseFinds(tree: Tree, l: Loc, c: Dep)
    requires l.In? && l.parent.In? && l in tree && l.parent in tree
    requires In(l, c.name) !in tree && In(l.parent, c.name) !in tree && c.name == l.parent.name
    ensures Find(tree, l, c.name) == Some(l.parent)
  {
    assert Find(tree, l, c.name) == Find(tree, l.parent, c.name) == Find(tree, l.parent.parent, c.name);
  }

  lemma NothingInside(lock: Lock, roots: seq<Dep>, st: State, at: Loc)
    requires Tidy(lock, roots, st) && at != Root && at !in st.tree
    ensures forall x :: In(at, x) !in st.tree
  {
    assert at in st.placed ==> Own(lock, roots, st.tree, at).Some?;
  }

  lemma ChaseGoesOn(roots: seq<Dep>, st: State)
    requires Tidy(Ring(), roots, st) && Chasing(st)
    ensures Step(Ring(), st).Going? && Chasing(Step(Ring(), st).st)
  {
    var l := st.queue[0].loc;
    var c := After(st.tree[l]);
    var at := In(l, c.name);
    RingDeps(c);
    ChaseFinds(st.tree, l, c);
    NothingInside(Ring(), roots, st, at);
    assert st.queue == [Item(l, [c])];
    LoneTurn(Ring(), st, l, c, After(c));
  }

  const TOP_A := In(Root, "a")
  const TOP_B := In(Root, "b")
  const INNER_A := In(TOP_B, "a")

  function FirstState(): State {
    State(map[TOP_A := A1], map[Root := [A1]], [Item(TOP_A, [B1])], {TOP_A})
  }

  function SecondState(): State {
    State(map[TOP_A := A1, TOP_B := B1], map[Root := [A1], TOP_A := [B1]], [Item(TOP_B, [A2])], {TOP_A, TOP_B})
  }

  function ThirdState(): State {
    State(map[TOP_A := A1, TOP_B := B1, INNER_A := A2], map[Root := [A1], TOP_A := [B1], TOP_B := [A2]],
          [Item(INNER_A, [B2])], {TOP_A, TOP_B, INNER_A})
  }

  lemma FirstTurn()
    ensures Run(Ring(), [A1], 1) == Going(FirstState())
  {
    RingDeps(A1);
    LoneTurn(Ring(), Init([A1]), Root, A1, B1);
    assert Run(Ring(), [A1], 0) == Going(Init([A1]));
  }

  lemma SecondTurn()
    ensures Step(Ring(), FirstState()) == Going(SecondState())
  {
    RingDeps(B1);
    LoneTurn(Ring(), FirstState(), TOP_A, B1, A2);
  }

  lemma ThirdTurn()
    ensures Step(Ring(), SecondState()) == Going(ThirdState())
  {
    RingDeps(A2);
    var tree := SecondState().tree;
    assert Find(tree, TOP_B, "a") == Find(tree, Root, "a") == Some(TOP_A);
    LoneTurn(Ring(), SecondState(), TOP_B, A2, B2);
  }

  lemma ThirdChases()
    ensures Chasing(ThirdState())
  {}

  lemma FirstTurns()
    ensures Run(Ring(), [A1], 3) == Going(ThirdState())
  {
    FirstTurn();
    SecondTurn();
    assert Run(Ring(), [A1], 2) == Step(Ring(), FirstState());
    ThirdTurn();
    assert Run(Ring(), [A1], 3) == Step(Ring(), SecondState());
  }

  lemma {:induction false} ChasesForever(n: nat)
    requires n >= 3
    ensures var p := Run(Ring(), [A1], n); p.Going? && Chasing(p.st)
  {
    if n == 3 {
      FirstTurns();
      ThirdChases();
    } else {
      ChasesForever(n - 1);
      NestingIsNeverGratuitous(Ring(), [A1], n - 1);
      ChaseGoesOn([A1], Run(Ring(), [A1], n - 1).st);
    }
  }

  /** No number of turns ends the loop on this lockfile. */
  lemma RingNeverEnds(n: nat)
    ensures !Ended(Run(Ring(), [A1], n))
  {
    if n < 3 && Ended(Run(Ring(), [A1], n)) {
      RunStays(Ring(), [A1], n, 3);
    }
    ChasesForever(if n < 3 then 3 else n);
  }

  lemma RingChildren(s: string)
    requires s in Ring().snapshots
    ensures exists d :: OnRing(d) && s == d.snapshot && Children(Ring(), s) == [After(d)]
  {
    var d := if s == "a@1" then A1 else if s == "b@1" then B1 else if s == "a@2" then A2 else B2;
    RingDeps(d);
  }

  lemma RingIsClosed()
    ensures Closed(SnapshotEdges(Ring()), Ring().snapshots.Keys)
  {
    forall s | s in Ring().snapshots
      ensures Next(SnapshotEdges(Ring()), s) <= Ring().snapshots.Keys
    {
      RingChildren(s);
    }
  }

  lemma RingIsWellNamed()
    ensures WellNamed(Ring(), [A1])
  {
    ParsePlain("a", "1");
    ParseDepCoherent("a", "1", false);
    assert "a" + "@" + "1" == "a@1";
  }

  lemma RingWants(s: string)
    requires Wanted(Ring(), [A1], s)
    ensures s in Ring().snapshots && Consistent(Children(Ring(), s))
  {
    RingIsClosed();
    ClosedKeeps(SnapshotEdges(Ring()), Ring().snapshots.Keys, "a@1", s);
    RingChildren(s);
  }

  /** Nothing is wrong with the lockfile: it is well named, complete and consistent. */
  lemma RingIsSound()
    ensures WellNamed(Ring(), [A1]) && Complete(Ring(), [A1]) && AllConsistent(Ring(), [A1])
  {
    RingIsWellNamed();
    forall s | Wanted(Ring(), [A1], s)
      ensures s in Ring().snapshots && Consistent(Children(Ring(), s))
    {
      RingWants(s);
    }
  }
}
