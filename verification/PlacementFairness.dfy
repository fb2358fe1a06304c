/**
 * The queue of the placement worklist is fair: every queued location gets its
 * turn. A loop that never ends therefore comes across everything the roots
 * want, and would have failed had the lockfile lacked any of it.
 */
module PlacementFairness {
  import opened Text
  import opened Graph
  import opened Lockfile
  import opened NodeModules
  import opened Placement
  import opened PlacementProofs
  import opened PlacementTheorems
  import opened PlacementEnds

  /** Every entry of `t` stands in `u`. */
  ghost predicate Remains(t: Tree, u: Tree) {
    forall l | l in t :: l in u && u[l] == t[l]
  }

  /** Nothing of `st` is lost in `st1` but the first `taken` items of the queue. */
  ghost predicate GoesOn(st: State, st1: State, taken: nat) {
    && taken <= |st.queue| && st.queue[taken..] <= st1.queue
    && st.placed.Keys <= st1.placed.Keys
    && Remains(st.tree, st1.tree)
  }

  lemma PlaceGoesOn(lock: Lock, st: State, loc: Loc, dep: Dep)
    ensures var r := Place(lock, st, loc, dep); r.Going? ==> GoesOn(st, r.st, 0)
  {}

  lemma {:induction false} PlaceAllGoesOn(lock: Lock, st: State, loc: Loc, cs: seq<Dep>)
    ensures var r := PlaceAll(lock, st, loc, cs); r.Going? ==> GoesOn(st, r.st, 0)
  {
    if cs != [] {
      var before := cs[..|cs| - 1];
      PlaceAllGoesOn(lock, st, loc, before);
      var r := PlaceAll(lock, st, loc, before);
      if r.Going? {
        PlaceGoesOn(lock, r.st, loc, cs[|cs| - 1]);
      }
    }
  }

  /** A turn takes the first item and places its location. */
  lemma StepGoesOn(lock: Lock, st: State)
    requires st.queue != []
    ensures var r := Step(lock, st); r.Going? ==> GoesOn(st, r.st, 1) && st.queue[0].loc in r.st.placed
  {
    PlaceAllGoesOn(lock, Dequeue(st), st.queue[0].loc, st.queue[0].children);
  }

  /** One turn: the head of the queue is placed and the rest goes on. */
  ghost predicate Turn(trace: nat -> State, n: nat) {
    var st, st1 := trace(n), trace(n + 1);
    st.queue != [] && GoesOn(st, st1, 1) && st.queue[0].loc in st1.placed
  }

  /** After a turn the item at position `k` is one closer to the front. */
  lemma OneCloser(trace: nat -> State, n: nat, k: nat)
    requires Turn(trace, n) && 0 < k < |trace(n).queue|
    ensures k - 1 < |trace(n + 1).queue| && trace(n + 1).queue[k - 1] == trace(n).queue[k]
  {
    assert trace(n).queue[k] == trace(n).queue[1..][k - 1];
  }

  /** The item at position `k` has its turn `k` turns later. */
  lemma {:induction false} QueueIsFair(trace: nat -> State, n: nat, k: nat, m: nat)
    requires (forall i :: Turn(trace, i)) && k < |trace(n).queue| && m == n + k + 1
    ensures trace(n).queue[k].loc in trace(m).placed && Remains(trace(n).tree, trace(m).tree)
    decreases k
  {
    assert Turn(trace, n);
    if k > 0 {
      OneCloser(trace, n, k);
      QueueIsFair(trace, n + 1, k - 1, m);
    }
  }

  ghost predicate Endless(lock: Lock, roots: seq<Dep>) {
    forall n :: !Ended(Run(lock, roots, n))
  }

  /** The state after `n` turns of a loop that never ends. */
  ghost function After(lock: Lock, roots: seq<Dep>, n: nat): State
    requires Endless(lock, roots)
  {
    assert !Ended(Run(lock, roots, n));
    Run(lock, roots, n).st
  }

  ghost function Trace(lock: Lock, roots: seq<Dep>): nat -> State
    requires Endless(lock, roots)
  {
    (n: nat) => After(lock, roots, n)
  }

  lemma EndlessTurns(lock: Lock, roots: seq<Dep>, n: nat)
    requires Endless(lock, roots)
    ensures Turn(Trace(lock, roots), n)
  {
    assert !Ended(Run(lock, roots, n)) && !Ended(Run(lock, roots, n + 1));
    StepGoesOn(lock, After(lock, roots, n));
  }

  /** Every entry is placed in the end. */
  lemma EntryIsPlaced(lock: Lock, roots: seq<Dep>, n: nat, l: Loc) returns (m: nat)
    requires Endless(lock, roots) && l in After(lock, roots, n).tree
    ensures var st := After(lock, roots, m);
            l in st.placed && l in st.tree && st.tree[l] == After(lock, roots, n).tree[l]
  {
    var st := After(lock, roots, n);
    assert l in st.placed || Queued(st, l) by { NestingIsNeverGratuitous(lock, roots, n); }
    if l in st.placed {
      m := n;
    } else {
      var k :| 0 <= k < |st.queue| && st.queue[k].loc == l;
      m := n + k + 1;
      forall i
        ensures Turn(Trace(lock, roots), i)
      {
        EndlessTurns(lock, roots, i);
      }
      QueueIsFair(Trace(lock, roots), n, k, m);
    }
  }

  /** Some turn of the endless loop has placed `s`. */
  ghost predicate Comes(lock: Lock, roots: seq<Dep>, s: string)
    requires Endless(lock, roots)
  {
    exists n :: s in Installed(After(lock, roots, n).tree)
  }

  lemma SeenComes(lock: Lock, roots: seq<Dep>, n: nat, l: Loc, d: Dep)
    requires WellNamed(lock, roots) && AllConsistent(lock, roots) && Endless(lock, roots)
    requires var st := After(lock, roots, n); l in st.placed && d in st.placed[l]
    ensures Comes(lock, roots, d.snapshot)
  {
    var st := After(lock, roots, n);
    PlacementNeverShadows(lock, roots, n);
    assert Satisfied(st.tree, l, st.placed[l]) && Sees(st.tree, l, d);
    assert d.snapshot in Installed(st.tree);
  }

  lemma DependencyComes(lock: Lock, roots: seq<Dep>, s: string, d: Dep)
    requires WellNamed(lock, roots) && AllConsistent(lock, roots) && Endless(lock, roots)
    requires Comes(lock, roots, s) && d in Children(lock, s)
    ensures Comes(lock, roots, d.snapshot)
  {
    var n :| s in Installed(After(lock, roots, n).tree);
    var l :| l in After(lock, roots, n).tree && After(lock, roots, n).tree[l].snapshot == s;
    var m := EntryIsPlaced(lock, roots, n, l);
    var st := After(lock, roots, m);
    assert st.placed[l] == Children(lock, s) by {
      RunIsKept(lock, roots, m);
      assert Own(lock, roots, st.tree, l) == Some(st.placed[l]);
      DepsCoherent(lock, roots, st.tree[l]);
    }
    SeenComes(lock, roots, m, l, d);
  }

  lemma RootComes(lock: Lock, roots: seq<Dep>, r: Dep)
    requires WellNamed(lock, roots) && AllConsistent(lock, roots) && Endless(lock, roots) && r in roots
    ensures Comes(lock, roots, r.snapshot)
  {
    var st := After(lock, roots, 1);
    EndlessTurns(lock, roots, 0);
    assert After(lock, roots, 0) == Init(roots);
    assert Root in st.placed && st.placed[Root] == roots by { NestingIsNeverGratuitous(lock, roots, 1); }
    SeenComes(lock, roots, 1, Root, r);
  }

  lemma ComesIsLocked(lock: Lock, roots: seq<Dep>, s: string)
    requires WellNamed(lock, roots) && Endless(lock, roots) && Comes(lock, roots, s)
    ensures s in lock.snapshots
  {
    var n :| s in Installed(After(lock, roots, n).tree);
    var l :| l in After(lock, roots, n).tree && After(lock, roots, n).tree[l].snapshot == s;
    RunIsKept(lock, roots, n);
    EntriesAreLocked(lock, roots, After(lock, roots, n), l);
  }

  /** A loop that never ends comes across every wanted snapshot, so the lockfile has them all. */
  lemma EndlessIsComplete(lock: Lock, roots: seq<Dep>)
    requires WellNamed(lock, roots) && AllConsistent(lock, roots) && Endless(lock, roots)
    ensures forall s | Wanted(lock, roots, s) :: Comes(lock, roots, s)
    ensures Complete(lock, roots)
  {
    var coming := set s | s in lock.snapshots && Comes(lock, roots, s);
    forall s, t | s in coming && t in Next(SnapshotEdges(lock), s)
      ensures t in coming
    {
      var d :| d in Children(lock, s) && d.snapshot == t;
      DependencyComes(lock, roots, s, d);
      ComesIsLocked(lock, roots, t);
    }
    forall s | Wanted(lock, roots, s)
      ensures s in coming
    {
      var r :| r in roots && Reaches(SnapshotEdges(lock), r.snapshot, s);
      RootComes(lock, roots, r);
      ComesIsLocked(lock, roots, r.snapshot);
      ClosedKeeps(SnapshotEdges(lock), coming, r.snapshot, s);
    }
  }
}
