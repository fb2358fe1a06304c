/**
 * Which packages are reached without an optional edge, and why every other
 * entry of the tree may be skipped (scripts/write-dist-manifest.ts, `walk`).
 */
module Required {
  import opened Text
  import opened Graph
  import opened Lockfile
  import opened NodeModules
  import opened Placement
  import opened PlacementProofs
  import opened PlacementTheorems

  /** Reached from the root through non-optional edges only. */
  ghost predicate Needed(lock: Lock, roots: seq<Dep>, s: string) {
    exists r | r in roots && !r.optional :: Reaches(MandatoryEdges(lock), r.snapshot, s)
  }

  /** Everything in `found` is reached from one of `starts`. */
  ghost predicate AllReached(g: Edges<string>, starts: set<string>, found: set<string>) {
    forall s | s in found :: exists t | t in starts :: Reaches(g, t, s)
  }

  /** Every member of `found` leads only into `all`. */
  ghost predicate LeadsInto(g: Edges<string>, found: set<string>, all: set<string>) {
    forall s | s in found :: s in g && g[s] <= all
  }

  lemma MandatoryNext(lock: Lock, roots: seq<Dep>, dep: Dep)
    requires WellNamed(lock, roots) && Coherent(dep)
    ensures match Deps(lock, dep)
            case None => dep.snapshot !in lock.snapshots
            case Some(own) =>
              && dep.snapshot in MandatoryEdges(lock)
              && MandatoryEdges(lock)[dep.snapshot] == Mandatory(own)
              && forall c | c in own :: Coherent(c)
  {
    DepsCoherent(lock, roots, dep);
  }

  lemma ReachedThrough(g: Edges<string>, from: string, before: set<string>, after: set<string>)
    requires from in g && from !in before && before + {from} <= after
    requires AllReached(g, g[from], after - (before + {from}))
    ensures AllReached(g, {from}, after - before)
  {
    forall s | s in after - before
      ensures Reaches(g, from, s)
    {
      ReachesSelf(g, from);
      if s != from {
        assert s in after - (before + {from});
        var t :| t in g[from] && Reaches(g, t, s);
        ReachesEdge(g, from, t);
        ReachesTrans(g, from, t, s);
      }
    }
  }

  lemma LostThrough(g: Edges<string>, from: string, lost: string)
    requires from in g && AllReached(g, g[from], {lost})
    ensures AllReached(g, {from}, {lost})
  {
    assert lost in {lost};
    var t :| t in g[from] && Reaches(g, t, lost);
    ReachesEdge(g, from, t);
    ReachesTrans(g, from, t, lost);
  }

  lemma LeadsThrough(g: Edges<string>, from: string, before: set<string>, after: set<string>)
    requires from in g && g[from] <= after && before + {from} <= after
    requires LeadsInto(g, after - (before + {from}), after)
    ensures LeadsInto(g, after - before, after)
  {
    assert forall s | s in after - before :: s == from || s in after - (before + {from});
  }

  lemma MandatoryOne(dep: Dep)
    ensures Mandatory([dep]) == if dep.optional then {} else {dep.snapshot}
  {}

  lemma ReachedMore(g: Edges<string>, few: set<string>, starts: set<string>, found: set<string>, more: set<string>)
    requires few <= starts && AllReached(g, starts, found) && AllReached(g, few, more)
    ensures AllReached(g, starts, found + more) && AllReached(g, starts, more)
  {}

  lemma MandatoryPrefix(deps: seq<Dep>, i: nat)
    requires i < |deps|
    ensures Mandatory([deps[i]]) <= Mandatory(deps)
    ensures Mandatory(deps[..i + 1]) == Mandatory(deps[..i]) + Mandatory([deps[i]])
  {
    assert deps[..i + 1] == deps[..i] + [deps[i]];
  }

  /** The `required` set that `walk` fills. */
  class Marker {
    var required: set<string>

    constructor ()
      ensures required == {}
    {
      required := {};
    }

    /** Adds everything `dep` reaches through non-optional edges, or reports a snapshot it
        so reaches that the lockfile lacks. */
    method Walk(lock: Lock, ghost roots: seq<Dep>, ghost g: Edges<string>, dep: Dep)
      returns (missing: Option<string>)
      requires WellNamed(lock, roots) && Coherent(dep) && g == MandatoryEdges(lock)
      modifies this
      ensures old(required) <= required
      ensures AllReached(g, Mandatory([dep]), required - old(required))
      ensures missing == None ==> LeadsInto(g, required - old(required), required) && Mandatory([dep]) <= required
      ensures missing.Some? ==> missing.value !in lock.snapshots && AllReached(g, Mandatory([dep]), {missing.value})
      decreases lock.snapshots.Keys - required, 0
    {
      MandatoryOne(dep);
      if dep.optional || dep.snapshot in required {
        return None;
      }
      ReachesSelf(g, dep.snapshot);
      required := required + {dep.snapshot};
      var own := Deps(lock, dep);
      MandatoryNext(lock, roots, dep);
      if own == None {
        return Some(dep.snapshot);
      }
      missing := WalkAll(lock, roots, g, own.value);
      ReachedThrough(g, dep.snapshot, old(required), required);
      if missing.Some? {
        LostThrough(g, dep.snapshot, missing.value);
      } else {
        LeadsThrough(g, dep.snapshot, old(required), required);
      }
    }

    /** `deps.forEach(walk)`. */
    method WalkAll(lock: Lock, ghost roots: seq<Dep>, ghost g: Edges<string>, deps: seq<Dep>)
      returns (missing: Option<string>)
      requires WellNamed(lock, roots) && (forall d | d in deps :: Coherent(d)) && g == MandatoryEdges(lock)
      modifies this
      ensures old(required) <= required
      ensures AllReached(g, Mandatory(deps), required - old(required))
      ensures missing == None ==> LeadsInto(g, required - old(required), required) && Mandatory(deps) <= required
      ensures missing.Some? ==> missing.value !in lock.snapshots && AllReached(g, Mandatory(deps), {missing.value})
      decreases lock.snapshots.Keys - required, 1
    {
      for i := 0 to |deps|
        invariant old(required) <= required
        invariant AllReached(g, Mandatory(deps), required - old(required))
        invariant LeadsInto(g, required - old(required), required)
        invariant Mandatory(deps[..i]) <= required
      {
        MandatoryPrefix(deps, i);
        ghost var before := required;
        missing := Walk(lock, roots, g, deps[i]);
        ReachedMore(g, Mandatory([deps[i]]), Mandatory(deps), before - old(required), required - before);
        assert required - old(required) == before - old(required) + (required - before);
        if missing.Some? {
          return;
        }
      }
      assert deps[..|deps|] == deps;
      return None;
    }

    /** `required` ends up as exactly the needed snapshots. */
    method WalkRoots(lock: Lock, roots: seq<Dep>) returns (missing: Option<string>)
      requires WellNamed(lock, roots) && required == {}
      modifies this
      ensures missing.None? ==> ExactlyNeeded(lock, roots, required)
      ensures missing.Some? ==> Needed(lock, roots, missing.value) && missing.value !in lock.snapshots
    {
      missing := WalkAll(lock, roots, MandatoryEdges(lock), roots);
      WalkedAll(lock, roots, required, missing);
    }
  }

  ghost predicate ExactlyNeeded(lock: Lock, roots: seq<Dep>, all: set<string>) {
    && all <= lock.snapshots.Keys
    && forall s :: s in all <==> Needed(lock, roots, s)
  }

  lemma ReachedIsNeeded(lock: Lock, roots: seq<Dep>, found: set<string>, s: string)
    requires AllReached(MandatoryEdges(lock), Mandatory(roots), found) && s in found
    ensures Needed(lock, roots, s)
  {
    var t :| t in Mandatory(roots) && Reaches(MandatoryEdges(lock), t, s);
  }

  lemma NeededIsReached(g: Edges<string>, roots: seq<Dep>, all: set<string>, s: string)
    requires LeadsInto(g, all, all) && Mandatory(roots) <= all
    requires exists r | r in roots && !r.optional :: Reaches(g, r.snapshot, s)
    ensures s in all
  {
    var r :| r in roots && !r.optional && Reaches(g, r.snapshot, s);
    ClosedKeeps(g, all, r.snapshot, s);
  }

  lemma WalkedAll(lock: Lock, roots: seq<Dep>, all: set<string>, missing: Option<string>)
    requires AllReached(MandatoryEdges(lock), Mandatory(roots), all - {})
    requires missing == None ==>
               LeadsInto(MandatoryEdges(lock), all - {}, all) && Mandatory(roots) <= all
    requires missing.Some? ==> AllReached(MandatoryEdges(lock), Mandatory(roots), {missing.value})
    ensures missing.None? ==> ExactlyNeeded(lock, roots, all)
    ensures missing.Some? ==> Needed(lock, roots, missing.value)
  {
    assert all - {} == all;
    if missing.Some? {
      ReachedIsNeeded(lock, roots, {missing.value}, missing.value);
    } else {
      forall s
        ensures s in all <==> Needed(lock, roots, s)
      {
        if s in all {
          ReachedIsNeeded(lock, roots, all, s);
        }
        if Needed(lock, roots, s) {
          NeededIsReached(MandatoryEdges(lock), roots, all, s);
        }
      }
    }
  }

  // ------------------------------------------------------------ skipping is safe

  lemma NeededChild(lock: Lock, roots: seq<Dep>, s: string, d: Dep)
    requires Needed(lock, roots, s) && d in Children(lock, s) && !d.optional
    ensures Needed(lock, roots, d.snapshot)
  {
    var r :| r in roots && !r.optional && Reaches(MandatoryEdges(lock), r.snapshot, s);
    assert s in lock.snapshots;
    assert d.snapshot in Next(MandatoryEdges(lock), s);
    ReachesStep(MandatoryEdges(lock), r.snapshot, s, d.snapshot);
  }

  /** What is left on disk when the directories in `skipped` are not installed. */
  ghost function Remainder(tree: Tree, skipped: set<Loc>): Tree {
    map l | l in tree && !(exists k | k in skipped :: Encloses(k, l)) :: tree[l]
  }

  /** A dependent that is itself needed: the root, or a remaining needed entry. */
  ghost predicate NeededAt(lock: Lock, roots: seq<Dep>, rest: Tree, l: Loc) {
    l == Root || (l in rest && Needed(lock, roots, rest[l].snapshot))
  }

  /** `skipped` holds entries the output marks optional, and no others. */
  ghost predicate OnlyOptional(lock: Lock, roots: seq<Dep>, tree: Tree, skipped: set<Loc>) {
    forall k | k in skipped :: k in tree && !Needed(lock, roots, tree[k].snapshot)
  }

  lemma RemainderKeeps(tree: Tree, skipped: set<Loc>, l: Loc, f: Loc)
    requires skipped <= tree.Keys && Root !in tree
    requires l == Root || l in Remainder(tree, skipped)
    requires f in tree && f !in skipped && f.In? && Encloses(f.parent, l)
    ensures f in Remainder(tree, skipped)
  {
    forall k | k in skipped
      ensures !Encloses(k, f)
    {
      if Encloses(k, f) {
        EnclosesTrans(k, f.parent, l);
      }
    }
  }

  /** However many entries marked optional are skipped, each with everything nested in it,
      every needed dependent left resolves each of its non-optional dependencies at the
      same location and snapshot as before. */
  lemma SkippingOptionalIsSafe(lock: Lock, roots: seq<Dep>, n: nat, skipped: set<Loc>, l: Loc, d: Dep)
    requires WellNamed(lock, roots) && Lays(Run(lock, roots, n))
    requires OnlyOptional(lock, roots, Run(lock, roots, n).st.tree, skipped)
    requires NeededAt(lock, roots, Remainder(Run(lock, roots, n).st.tree, skipped), l)
    requires l in Run(lock, roots, n).st.placed && d in Run(lock, roots, n).st.placed[l] && !d.optional
    ensures var tree := Run(lock, roots, n).st.tree;
            var rest := Remainder(tree, skipped);
            Find(rest, l, d.name) == Find(tree, l, d.name) && Sees(rest, l, d) && Needed(lock, roots, d.snapshot)
  {
    var st := Run(lock, roots, n).st;
    var rest := Remainder(st.tree, skipped);
    TreeContentsAreExact(lock, roots, n);
    if l == Root {
      ReachesSelf(MandatoryEdges(lock), d.snapshot);
    } else {
      NeededChild(lock, roots, st.tree[l].snapshot, d);
    }
    assert Satisfied(st.tree, l, st.placed[l]);
    assert Sees(st.tree, l, d);
    FindShape(st.tree, l, d.name);
    RemainderKeeps(st.tree, skipped, l, Find(st.tree, l, d.name).value);
    FindInRemainder(st.tree, rest, l, d.name);
  }

  /** And every needed snapshot is still installed. */
  lemma NeededSurvives(lock: Lock, roots: seq<Dep>, n: nat, skipped: set<Loc>, s: string)
    requires WellNamed(lock, roots) && Lays(Run(lock, roots, n))
    requires OnlyOptional(lock, roots, Run(lock, roots, n).st.tree, skipped)
    requires Needed(lock, roots, s)
    ensures s in Installed(Remainder(Run(lock, roots, n).st.tree, skipped))
  {
    var st := Run(lock, roots, n).st;
    var rest := Remainder(st.tree, skipped);
    var left := set l | l in rest && Needed(lock, roots, rest[l].snapshot) :: rest[l].snapshot;
    TreeContentsAreExact(lock, roots, n);
    forall t, u | t in left && u in Next(MandatoryEdges(lock), t)
      ensures u in left
    {
      var l :| l in rest && Needed(lock, roots, rest[l].snapshot) && rest[l].snapshot == t;
      var d :| d in Children(lock, t) && !d.optional && d.snapshot == u;
      SkippingOptionalIsSafe(lock, roots, n, skipped, l, d);
    }
    var r :| r in roots && !r.optional && Reaches(MandatoryEdges(lock), r.snapshot, s);
    SkippingOptionalIsSafe(lock, roots, n, skipped, Root, r);
    ClosedKeeps(MandatoryEdges(lock), left, r.snapshot, s);
  }
}
