/**
 * `npmPackages` itself (scripts/write-dist-manifest.ts): the marking walk, the
 * placement loop over its four collections, the final check and the output.
 */
module Shrinkwrap {
  import opened Text
  import opened Graph
  import opened Lockfile
  import opened NodeModules
  import opened Placement
  import opened PlacementProofs
  import opened PlacementTheorems
  import opened PlacementErrors
  import opened Required

  /** `lookups(loc, name).find((at) => tree.has(at))`. */
  method FirstFound(tree: Tree, ls: seq<Loc>) returns (found: Option<Loc>)
    ensures IsFirst(tree, ls, found)
  {
    for i := 0 to |ls|
      invariant forall j | 0 <= j < i :: ls[j] !in tree
    {
      if ls[i] in tree {
        return Some(ls[i]);
      }
    }
    return None;
  }

  method Resolve(tree: Tree, loc: Loc, name: string) returns (found: Option<Loc>)
    ensures found == Find(tree, loc, name)
  {
    FindIsNearest(tree, loc, name);
    var ls := Lookups(loc, name);
    found := FirstFound(tree, ls);
    FirstIsUnique(tree, ls, found, Find(tree, loc, name));
  }

  lemma FirstIsUnique(tree: Tree, ls: seq<Loc>, a: Option<Loc>, b: Option<Loc>)
    requires IsFirst(tree, ls, a) && IsFirst(tree, ls, b)
    ensures a == b
  {
    if a.Some? && b.Some? {
      var i :| 0 <= i < |ls| && ls[i] == a.value && forall j | 0 <= j < i :: ls[j] !in tree;
      var k :| 0 <= k < |ls| && ls[k] == b.value && forall j | 0 <= j < k :: ls[j] !in tree;
    }
  }

  lemma {:induction false} PlaceAllFails(lock: Lock, st: State, loc: Loc, cs: seq<Dep>, i: nat)
    requires i <= |cs| && PlaceAll(lock, st, loc, cs[..i]).Failed?
    ensures PlaceAll(lock, st, loc, cs) == PlaceAll(lock, st, loc, cs[..i])
  {
    if i < |cs| {
      var before := cs[..|cs| - 1];
      assert before[..i] == cs[..i];
      PlaceAllFails(lock, st, loc, before, i);
    } else {
      assert cs[..i] == cs;
    }
  }

  lemma PlaceAllNext(lock: Lock, st: State, loc: Loc, cs: seq<Dep>, i: nat)
    requires i < |cs| && PlaceAll(lock, st, loc, cs[..i]).Going?
    ensures PlaceAll(lock, st, loc, cs[..i + 1]) ==
            Place(lock, PlaceAll(lock, st, loc, cs[..i]).st, loc, cs[i])
  {
    var some := cs[..i + 1];
    assert some[..|some| - 1] == cs[..i] && some[|some| - 1] == cs[i];
  }

  /** One dependency of the item at `loc`, on the worklist's own collections. */
  method PlaceOne(lock: Lock, st: State, loc: Loc, dep: Dep) returns (p: Progress)
    ensures p == Place(lock, st, loc, dep)
  {
    var tree, queue, seen := st.tree, st.queue, st.seen;
    var found := Resolve(tree, loc, dep.name);
    FindShape(tree, loc, dep.name);
    var at;
    if found == None || tree[found.value].snapshot != dep.snapshot {
      at := if found.Some? then Beneath(loc, dep.name) else In(Root, dep.name);
      if at in tree {
        return Failed(TwoVersions(dep.name, at));
      }
      tree := tree[at := dep];
    } else {
      at := found.value;
    }
    if at !in seen {
      seen := seen + {at};
      var own := Deps(lock, dep);
      if own == None {
        return Failed(MissingSnapshot(dep.snapshot));
      }
      queue := queue + [Item(at, own.value)];
    }
    return Going(State(tree, st.placed, queue, seen));
  }

  /** The queue loop, on inputs for which it ends: after some number of turns `n`. */
  method PlaceQueue(lock: Lock, roots: seq<Dep>, ghost n: nat) returns (p: Progress)
    requires Ended(Run(lock, roots, n))
    ensures p == Run(lock, roots, n)
  {
    var st := Init(roots);
    ghost var k := 0;
    while st.queue != []
      invariant k <= n && Run(lock, roots, k) == Going(st)
      decreases n - k
    {
      var item := st.queue[0];
      ghost var st0 := Dequeue(st);
      ghost var whole := Step(lock, st);
      assert Run(lock, roots, k + 1) == whole;
      assert k < n;
      st := Dequeue(st);
      for i := 0 to |item.children|
        invariant PlaceAll(lock, st0, item.loc, item.children[..i]) == Going(st)
      {
        var one := PlaceOne(lock, st, item.loc, item.children[i]);
        PlaceAllNext(lock, st0, item.loc, item.children, i);
        if one.Failed? {
          PlaceAllFails(lock, st0, item.loc, item.children, i + 1);
          RunStays(lock, roots, k + 1, n);
          return one;
        }
        st := one.st;
      }
      assert item.children[..|item.children|] == item.children;
      k := k + 1;
    }
    RunStays(lock, roots, k, n);
    return Going(st);
  }

  /** The final check over all placed locations: passes exactly when each of them sees
      each of its dependencies, and otherwise names one that is not seen. */
  method CheckPlaced(st: State) returns (lost: Option<Error>)
    ensures lost == None <==> AllSatisfied(st)
    ensures lost.Some? ==>
              lost.value.DoesNotSee? && lost.value.loc in st.placed
              && exists d | d in st.placed[lost.value.loc] ::
                   d.id == lost.value.id && !Sees(st.tree, lost.value.loc, d)
  {
    var left := st.placed.Keys;
    while left != {}
      invariant left <= st.placed.Keys
      invariant forall l | l in st.placed && l !in left :: Satisfied(st.tree, l, st.placed[l])
    {
      var loc :| loc in left;
      left := left - {loc};
      var children := st.placed[loc];
      for i := 0 to |children|
        invariant forall d | d in children[..i] :: Sees(st.tree, loc, d)
      {
        var dep := children[i];
        var at := Resolve(st.tree, loc, dep.name);
        FindShape(st.tree, loc, dep.name);
        if at == None || st.tree[at.value].snapshot != dep.snapshot {
          assert !Sees(st.tree, loc, dep) && dep in children;
          assert !Satisfied(st.tree, loc, st.placed[loc]);
          return Some(DoesNotSee(loc, dep.id));
        }
        assert children[..i + 1] == children[..i] + [dep];
      }
      assert children[..|children|] == children;
    }
    return None;
  }

  // ------------------------------------------------------------------------ output

  /** One lockfile entry. `alias` is the real name when it differs from the directory's. */
  datatype Entry = Entry(alias: Option<string>, version: string, integrity: string, optional: bool,
                         dependencies: map<string, string>, optionalDependencies: map<string, string>)

  /** `Object.fromEntries` over the dependencies of one kind: the last of a name wins. */
  function Specs(deps: seq<Dep>, optional: bool): map<string, string> {
    if deps == [] then map[]
    else
      var d := deps[|deps| - 1];
      var rest := Specs(deps[..|deps| - 1], optional);
      if d.optional == optional then rest[d.name := DepSpec(d)] else rest
  }

  function Integrity(lock: Lock, id: string): string {
    if id in lock.packages then lock.packages[id].integrity else ""
  }

  function EntryOf(lock: Lock, required: set<string>, dep: Dep, own: seq<Dep>): Entry {
    var name := IdName(dep.id);
    Entry(if name == dep.name then None else Some(name),
          IdVersion(dep.id), Integrity(lock, dep.id), dep.snapshot !in required,
          Specs(own, false), Specs(own, true))
  }

  lemma {:induction false} SpecsOf(deps: seq<Dep>, optional: bool)
    requires forall c, d | c in deps && d in deps && c.name == d.name :: c.id == d.id
    ensures Specs(deps, optional).Keys == set d | d in deps && d.optional == optional :: d.name
    ensures forall d | d in deps && d.optional == optional :: Specs(deps, optional)[d.name] == DepSpec(d)
  {
    if deps != [] {
      var front := deps[..|deps| - 1];
      assert deps == front + [deps[|deps| - 1]];
      SpecsOf(front, optional);
    }
  }

  /** Of a consistent list, the recorded specs name exactly the dependencies of their kind,
      and npm reads each back as the locked id, unless a version itself starts with `npm:`. */
  lemma SpecsExact(deps: seq<Dep>, optional: bool, d: Dep)
    requires Consistent(deps) && forall c | c in deps :: Coherent(c)
    requires d in deps && d.optional == optional && '@' in d.id
    ensures Specs(deps, optional).Keys == set c | c in deps && c.optional == optional :: c.name
    ensures ReadSpec(d.name, Specs(deps, optional)[d.name]) == d.id <==>
            !(IdName(d.id) == d.name && StartsWith(IdVersion(d.id), "npm:"))
  {
    forall b, c | b in deps && c in deps && b.name == c.name
      ensures b.id == c.id
    {
      assert AgreesWithAll(deps, b);
    }
    SpecsOf(deps, optional);
    DepSpecRoundTrip(d);
  }

  /** The recorded specs of the dependencies of one kind: a version for each, or
      `npm:name@version` for one listed under another name than its own. */
  ghost predicate Records(deps: seq<Dep>, optional: bool, specs: map<string, string>) {
    && specs.Keys == (set d | d in deps && d.optional == optional :: d.name)
    && forall d | d in deps && d.optional == optional :: RecordsOne(d, specs)
  }

  ghost predicate RecordsOne(d: Dep, specs: map<string, string>) {
    && d.name in specs
    && forall name, version | IdIs(d.id, name, version) ::
         specs[d.name] == if name == d.name then version else "npm:" + name + "@" + version
  }

  lemma SpecsRecord(deps: seq<Dep>, optional: bool)
    requires Consistent(deps) && forall d | d in deps :: Coherent(d)
    ensures Records(deps, optional, Specs(deps, optional))
  {
    forall b, c | b in deps && c in deps && b.name == c.name
      ensures b.id == c.id
    {
      assert AgreesWithAll(deps, b);
    }
    SpecsOf(deps, optional);
    forall d, name, version | d in deps && d.optional == optional && IdIs(d.id, name, version)
      ensures Specs(deps, optional)[d.name] == if name == d.name then version else "npm:" + name + "@" + version
    {
      SpecExact(d, name, version);
    }
  }

  datatype Outcome = Written(out: map<Loc, Entry>) | Threw(error: Error)

  /** Every wanted package comes from the registry with an integrity hash. */
  ghost predicate AllIntegral(lock: Lock, roots: seq<Dep>) {
    forall s | Wanted(lock, roots, s) :: FromRegistry(lock, StripPeers(s))
  }

  predicate FromRegistry(lock: Lock, id: string) {
    id in lock.packages && lock.packages[id].integrity != ""
  }

  /** What the written entry of `dep` says: the version and, where it is another than the
      directory's, the name of its id, its integrity, whether it may be skipped, and its
      dependencies' specs. */
  ghost predicate Describes(lock: Lock, roots: seq<Dep>, dep: Dep, own: seq<Dep>, e: Entry) {
    && (forall name, version | IdIs(dep.id, name, version) ::
          e.version == version && e.alias == if name == dep.name then None else Some(name))
    && dep.id in lock.packages && e.integrity == lock.packages[dep.id].integrity != ""
    && (e.optional <==> !Needed(lock, roots, dep.snapshot))
    && Records(own, false, e.dependencies)
    && Records(own, true, e.optionalDependencies)
  }

  lemma EntryDescribes(lock: Lock, roots: seq<Dep>, required: set<string>, dep: Dep, own: seq<Dep>)
    requires ExactlyNeeded(lock, roots, required) && Integrity(lock, dep.id) != ""
    requires Consistent(own) && forall d | d in own :: Coherent(d)
    ensures Describes(lock, roots, dep, own, EntryOf(lock, required, dep, own))
  {
    forall name, version | IdIs(dep.id, name, version)
      ensures IdName(dep.id) == name && IdVersion(dep.id) == version
    {
      PlainId(name, version);
    }
    SpecsRecord(own, false);
    SpecsRecord(own, true);
  }

  lemma PlacedIsConsistent(lock: Lock, roots: seq<Dep>, st: State, l: Loc)
    requires WellNamed(lock, roots) && AllConsistent(lock, roots) && Rooted(lock, roots, st.tree)
    requires l in st.tree && OwnPlaced(lock, st, l)
    ensures Consistent(st.placed[l]) && forall d | d in st.placed[l] :: Coherent(d)
  {
    DepsCoherent(lock, roots, st.tree[l]);
  }

  lemma NeededIsWanted(lock: Lock, roots: seq<Dep>, s: string)
    requires Needed(lock, roots, s)
    ensures Wanted(lock, roots, s)
  {
    var r :| r in roots && !r.optional && Reaches(MandatoryEdges(lock), r.snapshot, s);
    var p :| Joins(MandatoryEdges(lock), p, r.snapshot, s);
    forall i | 0 <= i < |p| - 1
      ensures p[i + 1] in Next(SnapshotEdges(lock), p[i])
    {
      assert p[i + 1] in Next(MandatoryEdges(lock), p[i]);
    }
    assert Joins(SnapshotEdges(lock), p, r.snapshot, s);
  }

  /** The dependencies recorded for an entry are those it has. */
  ghost predicate OwnPlaced(lock: Lock, st: State, l: Loc) {
    l in st.tree ==> l in st.placed && Deps(lock, st.tree[l]) == Some(st.placed[l])
  }

  /** The entry for one location, unless its id has no integrity hash. */
  function EntryAt(lock: Lock, required: set<string>, st: State): Loc -> Option<Entry> {
    l =>
      if l in st.tree && l in st.placed && Integrity(lock, st.tree[l].id) != ""
      then Some(EntryOf(lock, required, st.tree[l], st.placed[l]))
      else None
  }

  /** A loop over all keys that stops at the first one `make` has nothing for. */
  method WriteAll<K(==), V>(keys: set<K>, make: K -> Option<V>) returns (out: map<K, V>, bad: Option<K>)
    ensures bad == None ==> out.Keys == keys && forall k | k in keys :: make(k) == Some(out[k])
    ensures bad.Some? ==> bad.value in keys && make(bad.value) == None
  {
    out, bad := map[], None;
    var left := keys;
    while left != {}
      invariant left <= keys && out.Keys == keys - left && bad == None
      invariant forall k | k in out :: make(k) == Some(out[k])
    {
      var k :| k in left;
      var v := make(k);
      if v.None? {
        bad := Some(k);
        return;
      }
      out := out[k := v.value];
      left := left - {k};
    }
  }

  /** The output loop: one entry per location, unless some id has no integrity hash. */
  method WriteEntries(lock: Lock, required: set<string>, st: State) returns (r: Outcome)
    requires st.tree.Keys <= st.placed.Keys
    ensures r.Written? <==> forall l | l in st.tree :: Integrity(lock, st.tree[l].id) != ""
    ensures r.Written? ==>
              r.out.Keys == st.tree.Keys && forall l | l in st.tree :: EntryAt(lock, required, st)(l) == Some(r.out[l])
    ensures r.Threw? ==> exists l | l in st.tree ::
              r.error == NoIntegrity(st.tree[l].id) && !FromRegistry(lock, st.tree[l].id)
  {
    var out, bad := WriteAll(st.tree.Keys, EntryAt(lock, required, st));
    if bad.Some? {
      return Threw(NoIntegrity(st.tree[bad.value].id));
    }
    assert forall l | l in st.tree :: EntryAt(lock, required, st)(l) != None;
    return Written(out);
  }

  lemma IntegralTree(lock: Lock, roots: seq<Dep>, tree: Tree)
    requires Rooted(lock, roots, tree)
    requires forall s :: s in Installed(tree) <==> Wanted(lock, roots, s)
    ensures AllIntegral(lock, roots) <==> forall l | l in tree :: Integrity(lock, tree[l].id) != ""
  {
    if forall l | l in tree :: Integrity(lock, tree[l].id) != "" {
      forall s | Wanted(lock, roots, s)
        ensures FromRegistry(lock, StripPeers(s))
      {
        assert s in Installed(tree);
        var l :| l in tree && tree[l].snapshot == s;
        assert Coherent(tree[l]) && Integrity(lock, tree[l].id) != "";
      }
    }
    if AllIntegral(lock, roots) {
      forall l | l in tree
        ensures Integrity(lock, tree[l].id) != ""
      {
        assert Coherent(tree[l]) && tree[l].snapshot in Installed(tree);
        assert FromRegistry(lock, tree[l].id);
      }
    }
  }

  lemma AllOwnPlaced(lock: Lock, roots: seq<Dep>, st: State)
    requires Tidy(lock, roots, st) && st.queue == []
    ensures st.tree.Keys <= st.placed.Keys && forall l :: OwnPlaced(lock, st, l)
  {
    forall l | l in st.tree
      ensures l in st.placed && Deps(lock, st.tree[l]) == Some(st.placed[l])
    {
      assert Own(lock, roots, st.tree, l) == Deps(lock, st.tree[l]);
    }
  }

  lemma FinishedTree(lock: Lock, roots: seq<Dep>, n: nat)
    requires WellNamed(lock, roots) && Lays(Run(lock, roots, n))
    ensures var st := Run(lock, roots, n).st;
            && st.tree.Keys <= st.placed.Keys
            && (forall l :: OwnPlaced(lock, st, l))
            && (AllIntegral(lock, roots) <==> forall l | l in st.tree :: Integrity(lock, st.tree[l].id) != "")
  {
    var st := Run(lock, roots, n).st;
    assert Tidy(lock, roots, st) by { NestingIsNeverGratuitous(lock, roots, n); }
    AllOwnPlaced(lock, roots, st);
    assert AllIntegral(lock, roots) <==> forall l | l in st.tree :: Integrity(lock, st.tree[l].id) != "" by {
      RunIsRooted(lock, roots, n);
      TreeContentsAreExact(lock, roots, n);
      IntegralTree(lock, roots, st.tree);
    }
  }

  /** What is wrong with the lockfile when `e` is thrown. */
  ghost predicate Explains(lock: Lock, roots: seq<Dep>, placed: map<Loc, seq<Dep>>, e: Error) {
    match e
    case MissingSnapshot(s) => Wanted(lock, roots, s) && s !in lock.snapshots
    case TwoVersions(_, _) => Blames(lock, roots, e)
    case DoesNotSee(loc, id) =>
      && loc in placed && (exists d :: d in placed[loc] && d.id == id)
      && !AllConsistent(lock, roots)
    case NoIntegrity(id) =>
      exists s :: Wanted(lock, roots, s) && id == StripPeers(s) && !FromRegistry(lock, id)
  }

  lemma RunExplains(lock: Lock, roots: seq<Dep>, n: nat, placed: map<Loc, seq<Dep>>)
    requires WellNamed(lock, roots) && Run(lock, roots, n).Failed?
    ensures Explains(lock, roots, placed, Run(lock, roots, n).error)
  {
    RunIsRooted(lock, roots, n);
    TwoVersionsNamed(lock, roots, n);
    RunFailsEarly(lock, roots, n);
  }

  /** The loop itself throws only its own two errors. */
  lemma {:induction false} RunFailsEarly(lock: Lock, roots: seq<Dep>, n: nat)
    requires Run(lock, roots, n).Failed?
    ensures var e := Run(lock, roots, n).error; e.MissingSnapshot? || e.TwoVersions?
  {
    var p := Run(lock, roots, n - 1);
    if p.Failed? {
      RunFailsEarly(lock, roots, n - 1);
    } else {
      PlaceAllFailsEarly(lock, Dequeue(p.st), p.st.queue[0].loc, p.st.queue[0].children);
    }
  }

  lemma {:induction false} PlaceAllFailsEarly(lock: Lock, st: State, loc: Loc, cs: seq<Dep>)
    ensures var p := PlaceAll(lock, st, loc, cs); p.Failed? ==> p.error.MissingSnapshot? || p.error.TwoVersions?
  {
    if cs != [] {
      var before := cs[..|cs| - 1];
      PlaceAllFailsEarly(lock, st, loc, before);
      var p := PlaceAll(lock, st, loc, before);
      if p.Going? {
        PlaceShape(lock, p.st, loc, cs[|cs| - 1]);
      }
    }
  }

  lemma UnseenExplains(lock: Lock, roots: seq<Dep>, n: nat, e: Error)
    requires WellNamed(lock, roots) && Run(lock, roots, n).Going? && !AllSatisfied(Run(lock, roots, n).st)
    requires var placed := Run(lock, roots, n).st.placed;
             e.DoesNotSee? && e.loc in placed && exists d | d in placed[e.loc] :: d.id == e.id
    ensures Explains(lock, roots, Run(lock, roots, n).st.placed, e)
  {
    if AllConsistent(lock, roots) {
      PlacementNeverShadows(lock, roots, n);
    }
  }

  lemma NoIntegrityExplains(lock: Lock, roots: seq<Dep>, n: nat, l: Loc)
    requires WellNamed(lock, roots) && Run(lock, roots, n).Going? && l in Run(lock, roots, n).st.tree
    requires !FromRegistry(lock, Run(lock, roots, n).st.tree[l].id)
    ensures var st := Run(lock, roots, n).st;
            Explains(lock, roots, st.placed, NoIntegrity(st.tree[l].id))
  {
    var st := Run(lock, roots, n).st;
    assert Coherent(st.tree[l]) && Wanted(lock, roots, st.tree[l].snapshot) by { RunIsRooted(lock, roots, n); }
  }

  /** `npmPackages`, on inputs for which the queue loop ends. It writes a lockfile exactly
      when every wanted snapshot is there, no list names one package at two snapshots, and
      every package has an integrity hash; the lockfile then describes the finished tree. */
  method NpmPackages(lock: Lock, roots: seq<Dep>, ghost n: nat) returns (r: Outcome)
    requires WellNamed(lock, roots) && Ended(Run(lock, roots, n))
    ensures r.Written? <==> Complete(lock, roots) && AllConsistent(lock, roots) && AllIntegral(lock, roots)
    ensures r.Threw? ==>
              var p := Run(lock, roots, n);
              Explains(lock, roots, if p.Going? then p.st.placed else map[], r.error)
    ensures r.Written? ==>
              && Lays(Run(lock, roots, n))
              && var st := Run(lock, roots, n).st;
              && r.out.Keys == st.tree.Keys <= st.placed.Keys
              && forall l | l in st.tree :: Describes(lock, roots, st.tree[l], st.placed[l], r.out[l])
  {
    LayoutSucceedsIff(lock, roots, n);
    var marker := new Marker();
    var missing := marker.WalkRoots(lock, roots);
    if missing.Some? {
      NeededIsWanted(lock, roots, missing.value);
      return Threw(MissingSnapshot(missing.value));
    }
    var p := PlaceQueue(lock, roots, n);
    if p.Failed? {
      RunExplains(lock, roots, n, map[]);
      return Threw(p.error);
    }
    var lost := CheckPlaced(p.st);
    if lost.Some? {
      UnseenExplains(lock, roots, n, lost.value);
      return Threw(lost.value);
    }
    FinishedTree(lock, roots, n);
    r := WriteEntries(lock, marker.required, p.st);
    if r.Threw? {
      var l :| l in p.st.tree && r.error == NoIntegrity(p.st.tree[l].id) && !FromRegistry(lock, p.st.tree[l].id);
      NoIntegrityExplains(lock, roots, n, l);
    }
    if r.Written? {
      forall l | l in p.st.tree
        ensures l in p.st.placed && Describes(lock, roots, p.st.tree[l], p.st.placed[l], r.out[l])
      {
        assert EntryAt(lock, marker.required, p.st)(l) == Some(r.out[l]);
        assert Rooted(lock, roots, p.st.tree) by { RunIsRooted(lock, roots, n); }
        PlacedIsConsistent(lock, roots, p.st, l);
        EntryDescribes(lock, roots, marker.required, p.st.tree[l], p.st.placed[l]);
      }
    }
  }
}
