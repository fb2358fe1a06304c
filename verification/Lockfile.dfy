/**
 * The part of a pnpm lockfile that the shrinkwrap writer reads
 * (scripts/write-dist-manifest.ts): snapshots, their dependency references,
 * and the ids those references stand for.
 */
module Lockfile {
  import opened Text
  import opened Graph

  /** One dependency of a snapshot or of the root. `id` is `name@version`,
      `snapshot` adds pnpm's peer suffix. */
  datatype Dep = Dep(name: string, id: string, snapshot: string, optional: bool)

  /** A snapshot's dependency entries, in the order the lockfile lists them. */
  datatype Snapshot = Snapshot(dependencies: seq<(string, string)>,
                               optionalDependencies: seq<(string, string)>)

  /** A `packages` entry; an empty `integrity` is an absent one. */
  datatype Package = Package(integrity: string, optionalPeers: set<string>)

  datatype Lock = Lock(snapshots: map<string, Snapshot>, packages: map<string, Package>)

  predicate LineBreak(c: char) {
    c == '\n' || c == '\r' || c == '\U{2028}' || c == '\U{2029}'
  }

  /** The version before pnpm's `(peers...)` suffix: what is left when the
      first match of `\(.*$` is dropped, where `.` stops at a line break. */
  function StripPeers(ref: string): string {
    StripPeersFrom(ref, 0)
  }

  function StripPeersFrom(ref: string, i: nat): string
    requires i <= |ref|
    decreases |ref| - i
  {
    if i == |ref| then ref
    else if ref[i] == '(' && forall c | c in ref[i..] :: !LineBreak(c) then ref[..i]
    else StripPeersFrom(ref, i + 1)
  }

  /** Reads an entry of a dependency list. A reference with an `@` past its first character
      already names the package, which `name` then only renames. */
  function ParseDep(name: string, ref: string, optional: bool): Dep {
    var version := StripPeers(ref);
    var aliased := LastIndexOf(version, '@') > 0;
    Dep(name,
        if aliased then version else name + "@" + version,
        if aliased then ref else name + "@" + ref,
        optional)
  }

  function IdName(id: string): string {
    var i := LastIndexOf(id, '@');
    if i >= 0 then id[..i] else if id == "" then "" else id[..|id| - 1]
  }

  function IdVersion(id: string): string {
    id[LastIndexOf(id, '@') + 1..]
  }

  /** How npm records a locked dependency: an alias as `npm:name@version`. */
  function DepSpec(dep: Dep): string {
    if IdName(dep.id) == dep.name then IdVersion(dep.id) else "npm:" + dep.id
  }

  /** npm's reading of a spec recorded under `name`. */
  function ReadSpec(name: string, spec: string): string {
    if StartsWith(spec, "npm:") then spec[4..] else name + "@" + spec
  }

  function Regular(entries: seq<(string, string)>): seq<Dep> {
    if entries == [] then [] else [ParseDep(entries[0].0, entries[0].1, false)] + Regular(entries[1..])
  }

  /** Optional dependencies, without those the package itself declares as optional peers. */
  function Optional(entries: seq<(string, string)>, peers: set<string>): seq<Dep> {
    if entries == [] then []
    else if entries[0].0 in peers then Optional(entries[1..], peers)
    else [ParseDep(entries[0].0, entries[0].1, true)] + Optional(entries[1..], peers)
  }

  function OptionalPeers(lock: Lock, id: string): set<string> {
    if id in lock.packages then lock.packages[id].optionalPeers else {}
  }

  /** What `from` depends on; None where the source throws for a missing snapshot. */
  function Deps(lock: Lock, from: Dep): Option<seq<Dep>> {
    if from.snapshot !in lock.snapshots then None
    else
      var snap := lock.snapshots[from.snapshot];
      Some(Regular(snap.dependencies) + Optional(snap.optionalDependencies, OptionalPeers(lock, from.id)))
  }

  lemma {:induction false} RegularExact(entries: seq<(string, string)>, d: Dep)
    ensures d in Regular(entries) <==> exists e :: e in entries && d == ParseDep(e.0, e.1, false)
  {
    if entries != [] {
      RegularExact(entries[1..], d);
      assert entries == [entries[0]] + entries[1..];
    }
  }

  lemma {:induction false} OptionalExact(entries: seq<(string, string)>, peers: set<string>, d: Dep)
    ensures d in Optional(entries, peers) <==>
            exists e :: e in entries && e.0 !in peers && d == ParseDep(e.0, e.1, true)
  {
    if entries != [] {
      OptionalExact(entries[1..], peers, d);
      assert entries == [entries[0]] + entries[1..];
    }
  }

  /** A package depends on what its snapshot lists, less the optional entries it declares
      as optional peers. */
  lemma DepsExact(lock: Lock, from: Dep, d: Dep)
    requires from.snapshot in lock.snapshots
    ensures var snap := lock.snapshots[from.snapshot];
            d in Deps(lock, from).value <==>
              || (exists e :: e in snap.dependencies && d == ParseDep(e.0, e.1, false))
              || (exists e :: && e in snap.optionalDependencies && d == ParseDep(e.0, e.1, true)
                              && (from.id in lock.packages ==> e.0 !in lock.packages[from.id].optionalPeers))
  {
    var snap := lock.snapshots[from.snapshot];
    RegularExact(snap.dependencies, d);
    OptionalExact(snap.optionalDependencies, OptionalPeers(lock, from.id), d);
  }

  /** How many of the entries are not among `peers`. */
  function CountKept(entries: seq<(string, string)>, peers: set<string>): nat {
    if entries == [] then 0 else (if entries[0].0 in peers then 0 else 1) + CountKept(entries[1..], peers)
  }

  lemma {:induction false} RegularInOrder(entries: seq<(string, string)>)
    ensures |Regular(entries)| == |entries|
    ensures forall i | 0 <= i < |entries| :: Regular(entries)[i] == ParseDep(entries[i].0, entries[i].1, false)
  {
    if entries != [] {
      RegularInOrder(entries[1..]);
    }
  }

  lemma {:induction false} OptionalInOrder(entries: seq<(string, string)>, peers: set<string>, i: nat)
    requires i < |entries| && entries[i].0 !in peers
    ensures CountKept(entries[..i], peers) < |Optional(entries, peers)|
    ensures Optional(entries, peers)[CountKept(entries[..i], peers)] == ParseDep(entries[i].0, entries[i].1, true)
  {
    if i > 0 {
      assert entries[..i][1..] == entries[1..][..i - 1];
      OptionalInOrder(entries[1..], peers, i - 1);
    }
  }

  lemma {:induction false} OptionalCount(entries: seq<(string, string)>, peers: set<string>)
    ensures |Optional(entries, peers)| == CountKept(entries, peers)
  {
    if entries != [] {
      OptionalCount(entries[1..], peers);
    }
  }

  /** The dependencies come in the lockfile's order, the optional ones last. */
  lemma DepsInOrder(lock: Lock, from: Dep, i: nat)
    requires from.snapshot in lock.snapshots
    ensures var snap, ds := lock.snapshots[from.snapshot], Deps(lock, from).value;
            var peers := if from.id in lock.packages then lock.packages[from.id].optionalPeers else {};
            var first, kept := |snap.dependencies|, CountKept(snap.optionalDependencies, peers);
            && |ds| == first + kept
            && (i < first ==> ds[i] == ParseDep(snap.dependencies[i].0, snap.dependencies[i].1, false))
            && (i < |snap.optionalDependencies| && snap.optionalDependencies[i].0 !in peers ==>
                  var k := first + CountKept(snap.optionalDependencies[..i], peers);
                  && first <= k < |ds|
                  && ds[k] == ParseDep(snap.optionalDependencies[i].0, snap.optionalDependencies[i].1, true))
  {
    var snap := lock.snapshots[from.snapshot];
    var peers := OptionalPeers(lock, from.id);
    RegularInOrder(snap.dependencies);
    OptionalCount(snap.optionalDependencies, peers);
    if i < |snap.optionalDependencies| && snap.optionalDependencies[i].0 !in peers {
      OptionalInOrder(snap.optionalDependencies, peers, i);
    }
  }

  // -------------------------------------------------------------- peer suffixes

  /** From `i` on, `ref` is a parenthesis and no more line breaks follow. */
  predicate PeersFrom(ref: string, i: nat) {
    && i < |ref| && ref[i] == '('
    && forall c | c in ref[i..] :: c != '\n' && c != '\r' && c != '\U{2028}' && c != '\U{2029}'
  }

  lemma {:induction false} StripPeersAt(ref: string, i: nat, k: nat)
    requires i <= k <= |ref| && (k < |ref| ==> PeersFrom(ref, k))
    requires forall j | i <= j < k :: !PeersFrom(ref, j)
    ensures StripPeersFrom(ref, i) == ref[..k]
    decreases k - i
  {
    if i < k {
      assert !PeersFrom(ref, i);
      StripPeersAt(ref, i + 1, k);
    } else {
      assert ref[..|ref|] == ref;
    }
  }

  /** The peer suffix starts at the first parenthesis after which no line breaks; a
      reference without one is left as it is. */
  lemma StripPeersExact(ref: string, k: nat)
    requires k <= |ref| && (k < |ref| ==> PeersFrom(ref, k)) && forall j | 0 <= j < k :: !PeersFrom(ref, j)
    ensures StripPeers(ref) == ref[..k]
  {
    StripPeersAt(ref, 0, k);
  }

  /** Nothing, or pnpm's suffix: a parenthesis and no line break. */
  predicate PeerSuffix(peers: string) {
    peers == "" || PeersFrom(peers, 0)
  }

  /** What stands before a peer suffix is what is left. */
  lemma StripPeersSuffix(version: string, peers: string)
    requires '(' !in version && PeerSuffix(peers)
    ensures StripPeers(version + peers) == version
  {
    var ref := version + peers;
    assert forall j | 0 <= j < |version| :: ref[j] == version[j];
    assert ref[|version|..] == peers;
    if peers != "" {
      assert peers[0..] == peers;
    }
    StripPeersExact(ref, |version|);
    assert ref[..|version|] == version;
  }

  /** A reference with no `@` past its first character is a version of the package it is
      listed under. */
  lemma ParsePlainRef(name: string, version: string, peers: string, optional: bool)
    requires '(' !in version && PeerSuffix(peers) && forall i | 0 < i < |version| :: version[i] != '@'
    ensures ParseDep(name, version + peers, optional) ==
            Dep(name, name + "@" + version, name + "@" + version + peers, optional)
  {
    StripPeersSuffix(version, peers);
    assert name + "@" + (version + peers) == name + "@" + version + peers;
  }

  /** An alias names the real package itself; scoped names are no exception. */
  lemma ParseAliasRef(name: string, target: string, version: string, peers: string, optional: bool)
    requires target != "" && '(' !in target && '(' !in version && '@' !in version && PeerSuffix(peers)
    ensures ParseDep(name, target + "@" + version + peers, optional) ==
            Dep(name, target + "@" + version, target + "@" + version + peers, optional)
  {
    StripPeersSuffix(target + "@" + version, peers);
    LastIndexOfSplit(target, version, '@');
    assert target + ['@'] + version == target + "@" + version;
  }

  // ------------------------------------------------------------ ids and specs

  lemma {:induction false} StripPeersAfter(a: string, b: string, i: nat)
    requires '(' !in a && i <= |a| + |b|
    ensures StripPeersFrom(a + b, i) == a + StripPeersFrom(b, if i <= |a| then 0 else i - |a|)
    decreases |a| + |b| - i
  {
    var s := a + b;
    if i < |a| {
      assert s[i] == a[i];
      StripPeersAfter(a, b, i + 1);
    } else if i < |s| {
      assert s[i..] == b[i - |a|..] && s[i] == b[i - |a|];
      if s[i] == '(' && forall c | c in s[i..] :: !LineBreak(c) {
        assert s[..i] == a + b[..i - |a|];
      } else {
        StripPeersAfter(a, b, i + 1);
      }
    }
  }

  /** The id of a parsed dependency is a function of its snapshot: the snapshot
      without its peer suffix. */
  lemma ParseDepCoherent(name: string, ref: string, optional: bool)
    requires '(' !in name
    ensures var d := ParseDep(name, ref, optional); d.id == StripPeers(d.snapshot)
  {
    StripPeersAfter(name + "@", ref, 0);
  }

  /** An id with an `@` splits into a name and a version. */
  lemma IdSplits(id: string)
    requires '@' in id
    ensures id == IdName(id) + "@" + IdVersion(id)
  {
    var i := LastIndexOf(id, '@');
    assert id == id[..i] + "@" + id[i + 1..];
  }

  lemma PlainId(name: string, version: string)
    requires '@' !in version
    ensures IdName(name + "@" + version) == name && IdVersion(name + "@" + version) == version
  {
    LastIndexOfSplit(name, version, '@');
    assert name + ['@'] + version == name + "@" + version;
    assert (name + "@" + version)[..|name|] == name;
  }

  /** Every parsed id has a name and a version, and without an alias those are the
      dependency's own name and its version, which is then what npm records. */
  lemma ParseDepId(name: string, ref: string, optional: bool)
    ensures var d := ParseDep(name, ref, optional);
            && '@' in d.id
            && ('@' !in StripPeers(ref) ==> IdName(d.id) == name && DepSpec(d) == StripPeers(ref))
  {
    var version := StripPeers(ref);
    if '@' !in version {
      PlainId(name, version);
    }
  }

  /** The id is the package `name` at `version`: its last `@` divides the two. */
  predicate IdIs(id: string, name: string, version: string) {
    id == name + "@" + version && '@' !in version
  }

  /** npm records the bare version, or `npm:name@version` for an alias. */
  lemma SpecExact(dep: Dep, name: string, version: string)
    requires IdIs(dep.id, name, version)
    ensures DepSpec(dep) == if name == dep.name then version else "npm:" + name + "@" + version
  {
    PlainId(name, version);
    assert "npm:" + (name + "@" + version) == "npm:" + name + "@" + version;
  }

  /** npm reads the recorded spec back as exactly the locked id, unless an unaliased
      version itself starts with `npm:`. */
  lemma DepSpecRoundTrip(dep: Dep)
    requires '@' in dep.id
    ensures ReadSpec(dep.name, DepSpec(dep)) == dep.id
            <==> !(IdName(dep.id) == dep.name && StartsWith(IdVersion(dep.id), "npm:"))
  {
    IdSplits(dep.id);
    if IdName(dep.id) != dep.name {
      var spec := DepSpec(dep);
      assert spec[..4] == "npm:" && spec[4..] == dep.id;
    } else if StartsWith(IdVersion(dep.id), "npm:") {
      assert |ReadSpec(dep.name, DepSpec(dep))| < |dep.id|;
    }
  }

  // ------------------------------------------------- the graph of snapshots

  predicate Coherent(dep: Dep) {
    dep.id == StripPeers(dep.snapshot)
  }

  predicate PlainNames(entries: seq<(string, string)>) {
    forall e | e in entries :: '(' !in e.0
  }

  predicate PlainSnapshot(lock: Lock, s: string) {
    s in lock.snapshots ==>
      PlainNames(lock.snapshots[s].dependencies) && PlainNames(lock.snapshots[s].optionalDependencies)
  }

  /** Package names never hold a parenthesis, so an id never loses part of its name. */
  ghost predicate WellNamed(lock: Lock, roots: seq<Dep>) {
    (forall s :: PlainSnapshot(lock, s)) && forall r | r in roots :: Coherent(r)
  }

  /** The dependencies of the snapshot `s`, which determines its id. */
  function Children(lock: Lock, s: string): seq<Dep> {
    var d := Deps(lock, Dep("", StripPeers(s), s, false));
    if d.Some? then d.value else []
  }

  function Snapshots(deps: seq<Dep>): set<string> {
    set d | d in deps :: d.snapshot
  }

  function Mandatory(deps: seq<Dep>): set<string> {
    set d | d in deps && !d.optional :: d.snapshot
  }

  /** Every dependency edge between snapshots. */
  function SnapshotEdges(lock: Lock): Edges<string> {
    map s | s in lock.snapshots :: Snapshots(Children(lock, s))
  }

  /** The edges that are not optional. */
  function MandatoryEdges(lock: Lock): Edges<string> {
    map s | s in lock.snapshots :: Mandatory(Children(lock, s))
  }

  lemma {:induction false} RegularCoherent(entries: seq<(string, string)>)
    requires PlainNames(entries)
    ensures forall d | d in Regular(entries) :: Coherent(d)
  {
    if entries != [] {
      ParseDepCoherent(entries[0].0, entries[0].1, false);
      RegularCoherent(entries[1..]);
    }
  }

  lemma {:induction false} OptionalCoherent(entries: seq<(string, string)>, peers: set<string>)
    requires PlainNames(entries)
    ensures forall d | d in Optional(entries, peers) :: Coherent(d)
  {
    if entries != [] {
      ParseDepCoherent(entries[0].0, entries[0].1, true);
      OptionalCoherent(entries[1..], peers);
    }
  }

  /** Coherence passes from dependents to dependencies, so `Deps` is a function of the snapshot. */
  lemma DepsCoherent(lock: Lock, roots: seq<Dep>, from: Dep)
    requires WellNamed(lock, roots) && Coherent(from)
    ensures Deps(lock, from).Some? <==> from.snapshot in lock.snapshots
    ensures Deps(lock, from).Some? ==>
              && Deps(lock, from).value == Children(lock, from.snapshot)
              && forall d | d in Deps(lock, from).value :: Coherent(d)
  {
    assert PlainSnapshot(lock, from.snapshot);
    if from.snapshot in lock.snapshots {
      var snap := lock.snapshots[from.snapshot];
      RegularCoherent(snap.dependencies);
      OptionalCoherent(snap.optionalDependencies, OptionalPeers(lock, from.id));
    }
  }
}
