/**
 * The external packages the bundled CLI loads on every start
 * (scripts/check-cli-externals.ts, `staticExternals` and `packageName`).
 */
module CliExternals {
  import opened Text
  import opened Graph
  import opened ModulePaths

  /** One import of an output chunk; `kind` is empty where the metafile has none. */
  datatype Import = Import(path: string, kind: string, external: bool)

  type Metafile = map<string, seq<Import>>

  /** `String.split` at each slash. */
  function Split(s: string): (parts: seq<string>)
    ensures |parts| >= 1
    decreases |s|
  {
    var i := IndexOf(s, "/", 0);
    if i == -1 then [s] else [s[..i]] + Split(s[i + 1..])
  }

  function PackageName(specifier: string): string {
    var parts := Split(specifier);
    if !StartsWith(specifier, "@") then parts[0]
    else if |parts| == 1 then parts[0]
    else parts[0] + "/" + parts[1]
  }

  lemma SplitHead(a: string, b: string)
    requires '/' !in a
    ensures Split(a) == [a]
    ensures Split(a + "/" + b) == [a] + Split(b)
  {
    assert forall i | At(a, "/", i) :: a[i] == '/';
    var s := a + "/" + b;
    assert At(s, "/", |a|);
    assert forall i | 0 <= i < |a| :: s[i] == a[i];
    var i := IndexOf(s, "/", 0);
    assert i == |a| by {
      assert i != -1 && i <= |a|;
      assert s[i] == '/';
    }
    assert s[..i] == a && s[i + 1..] == b;
  }

  lemma ScopedSplit(scope: string, base: string)
    requires '/' !in scope && '/' !in base
    ensures Split(scope + "/" + base) == [scope, base]
  {
    SplitHead(scope, base);
    SplitHead(base, "");
  }

  lemma ScopedSplitFile(scope: string, base: string, file: string)
    requires '/' !in scope && '/' !in base
    ensures Split(scope + "/" + base + "/" + file) == [scope] + ([base] + Split(file))
  {
    var rest := base + "/" + file;
    assert scope + "/" + base + "/" + file == scope + "/" + rest;
    assert Split(rest) == [base] + Split(file) by { SplitHead(base, file); }
    SplitHead(scope, rest);
  }

  lemma NameOfParts(specifier: string, scope: string, base: string)
    requires StartsWith(specifier, "@") && |Split(specifier)| >= 2
    requires Split(specifier)[0] == scope && Split(specifier)[1] == base
    ensures PackageName(specifier) == scope + "/" + base
  {}

  lemma ScopedName(scope: string, base: string, file: string)
    requires '/' !in base && '/' !in scope && StartsWith(scope, "@")
    ensures PackageName(scope + "/" + base) == scope + "/" + base
    ensures PackageName(scope + "/" + base + "/" + file) == scope + "/" + base
  {
    ScopedSplit(scope, base);
    ScopedSplitFile(scope, base, file);
    assert StartsWith(scope + "/" + base, "@") && StartsWith(scope + "/" + base + "/" + file, "@");
    NameOfParts(scope + "/" + base, scope, base);
    NameOfParts(scope + "/" + base + "/" + file, scope, base);
  }

  lemma PlainName(name: string, file: string)
    requires Segment(name) && name[0] != '@'
    ensures PackageName(name) == name && PackageName(name + "/" + file) == name
  {
    SplitHead(name, file);
    assert (name + "/" + file)[0] == name[0];
  }

  /** Of an import of a package or of a file inside it, the package is named. */
  lemma PackageNameExact(name: string, file: string)
    requires ValidName(name)
    ensures PackageName(name) == name && PackageName(name + "/" + file) == name
  {
    if Segment(name) && name[0] != '@' {
      PlainName(name, file);
    } else {
      var k: nat :| k < |name| && ScopedAt(name, k);
      var scope, base := name[..k], name[k + 1..];
      assert scope == [name[0]] + name[1..k];
      assert name == scope + "/" + base;
      ScopedName(scope, base, file);
    }
  }

  /** Of any specifier: what stands before the first slash, or before the second if it
      starts with an `@`. */
  lemma PackageNameParts(a: string, b: string, file: string)
    requires '/' !in a && '/' !in b
    ensures PackageName(a) == a
    ensures !StartsWith(a, "@") ==> PackageName(a + "/" + file) == a
    ensures StartsWith(a, "@") ==>
              PackageName(a + "/" + b) == a + "/" + b && PackageName(a + "/" + b + "/" + file) == a + "/" + b
  {
    SplitHead(a, file);
    if StartsWith(a, "@") {
      ScopedName(a, b, file);
    } else if a != "" {
      assert (a + "/" + file)[0] == a[0];
    }
  }

  function ImportsOf(metafile: Metafile, chunk: string): seq<Import> {
    if chunk in metafile then metafile[chunk] else []
  }

  /** A static import of another chunk. */
  predicate Followed(i: Import) {
    i.kind != "dynamic-import" && !i.external
  }

  /** A static import of an external package. */
  predicate Loaded(i: Import) {
    i.kind != "dynamic-import" && i.external
  }

  function ChunkEdges(metafile: Metafile): Edges<string> {
    map c | c in metafile :: set i | i in metafile[c] && Followed(i) :: i.path
  }

  /** Some chunk the entry reaches statically imports the package `name`. */
  ghost predicate LoadedFrom(metafile: Metafile, entry: string, name: string) {
    exists c, i :: Reaches(ChunkEdges(metafile), entry, c) && i in ImportsOf(metafile, c)
                   && Loaded(i) && name == PackageName(i.path)
  }

  /** The chunk `c` is dealt with: its chunks are seen and its packages found. */
  ghost predicate Handled(metafile: Metafile, c: string, seen: set<string>, found: set<string>) {
    forall i | i in ImportsOf(metafile, c) ::
      (Followed(i) ==> i.path in seen) && (Loaded(i) ==> PackageName(i.path) in found)
  }

  /** One chunk's imports. */
  method Visit(metafile: Metafile, ghost entry: string, chunk: string, seen: set<string>, queue: seq<string>,
               found: set<string>)
    returns (seen1: set<string>, queue1: seq<string>, found1: set<string>)
    requires Reaches(ChunkEdges(metafile), entry, chunk)
    ensures seen <= seen1 && found <= found1 && queue <= queue1
    ensures Handled(metafile, chunk, seen1, found1)
    ensures forall x | x in seen1 - seen :: x in queue1 && x in Next(ChunkEdges(metafile), chunk)
    ensures forall x | x in queue1[|queue|..] :: x in seen1 - seen
    ensures forall n | n in found1 - found :: LoadedFrom(metafile, entry, n)
    ensures seen1 == seen ==> queue1 == queue
  {
    seen1, queue1, found1 := seen, queue, found;
    var imports := ImportsOf(metafile, chunk);
    for k := 0 to |imports|
      invariant seen <= seen1 && found <= found1 && queue <= queue1
      invariant forall i | i in imports[..k] ::
                  (Followed(i) ==> i.path in seen1) && (Loaded(i) ==> PackageName(i.path) in found1)
      invariant forall x | x in seen1 - seen :: x in queue1 && x in Next(ChunkEdges(metafile), chunk)
      invariant forall x | x in queue1[|queue|..] :: x in seen1 - seen
      invariant forall n | n in found1 - found :: LoadedFrom(metafile, entry, n)
      invariant seen1 == seen ==> queue1 == queue
    {
      var imp := imports[k];
      assert imports[..k + 1] == imports[..k] + [imp] && imp in imports;
      if imp.kind == "dynamic-import" {
        continue;
      }
      if imp.external {
        found1 := found1 + {PackageName(imp.path)};
      } else if imp.path !in seen1 {
        seen1 := seen1 + {imp.path};
        assert (queue1 + [imp.path])[|queue|..] == queue1[|queue|..] + [imp.path];
        queue1 := queue1 + [imp.path];
      }
    }
    assert imports[..|imports|] == imports;
  }

  /** Exactly the packages that chunks reachable from `entry` import statically; it ends
      whether or not chunks import each other in cycles. */
  method StaticExternals(metafile: Metafile, entry: string) returns (found: set<string>)
    ensures forall n :: n in found <==> LoadedFrom(metafile, entry, n)
  {
    ghost var g := ChunkEdges(metafile);
    var seen: set<string> := {};
    var queue := [entry];
    found := {};
    ghost var done: set<string> := {};
    ReachesSelf(g, entry);
    while queue != []
      invariant entry in done || entry in queue
      invariant forall x | x in queue :: Reaches(g, entry, x)
      invariant forall x | x in seen :: x in done || x in queue
      invariant seen <= Nodes(g)
      invariant forall c | c in done :: Handled(metafile, c, seen, found)
      invariant forall n | n in found :: LoadedFrom(metafile, entry, n)
      decreases Nodes(g) - seen, |queue|
    {
      var chunk := queue[|queue| - 1];
      var rest := queue[..|queue| - 1];
      ghost var seen0, queue0, found0 := seen, queue, found;
      assert queue0 == rest + [chunk];
      seen, queue, found := Visit(metafile, entry, chunk, seen, rest, found);
      Visited(g, entry, chunk, seen0, seen, rest, queue);
      HandledStays(metafile, done, seen0, seen, found0, found);
      assert forall n | n in found :: n in found0 || n in found - found0;
      done := done + {chunk};
    }
    ClosedWhenHandled(metafile, entry, done, seen, found);
  }

  lemma HandledStays(metafile: Metafile, done: set<string>, seen: set<string>, seen1: set<string>,
                     found: set<string>, found1: set<string>)
    requires seen <= seen1 && found <= found1 && forall c | c in done :: Handled(metafile, c, seen, found)
    ensures forall c | c in done :: Handled(metafile, c, seen1, found1)
  {}

  /** After a visit everything queued is still reachable and everything seen is a node. */
  lemma Visited(g: Edges<string>, entry: string, chunk: string, seen: set<string>, seen1: set<string>,
                queue: seq<string>, queue1: seq<string>)
    requires Reaches(g, entry, chunk) && seen <= seen1 && queue <= queue1 && seen <= Nodes(g)
    requires forall x | x in queue :: Reaches(g, entry, x)
    requires forall x | x in seen1 - seen :: x in queue1 && x in Next(g, chunk)
    requires forall x | x in queue1[|queue|..] :: x in seen1 - seen
    ensures forall x | x in queue1 :: Reaches(g, entry, x)
    ensures forall x | x in seen1 :: x in seen || x in queue1
    ensures seen1 <= Nodes(g)
    ensures seen1 != seen ==> Nodes(g) - seen1 < Nodes(g) - seen
  {
    assert queue1 == queue + queue1[|queue|..];
    NextInNodes(g, chunk);
    assert forall x | x in seen1 :: x in seen || x in seen1 - seen;
    forall x | x in queue1
      ensures Reaches(g, entry, x)
    {
      if x !in queue {
        ReachesStep(g, entry, chunk, x);
      }
    }
  }

  lemma ClosedWhenHandled(metafile: Metafile, entry: string, done: set<string>, seen: set<string>, found: set<string>)
    requires entry in done && seen <= done
    requires forall c | c in done :: Handled(metafile, c, seen, found)
    ensures forall n | LoadedFrom(metafile, entry, n) :: n in found
  {
    var g := ChunkEdges(metafile);
    forall a, b | a in done && b in Next(g, a)
      ensures b in done
    {
      assert Handled(metafile, a, seen, found);
    }
    forall n | LoadedFrom(metafile, entry, n)
      ensures n in found
    {
      var c, i :| Reaches(g, entry, c) && i in ImportsOf(metafile, c) && Loaded(i) && n == PackageName(i.path);
      ClosedKeeps(g, done, entry, c);
      assert Handled(metafile, c, seen, found);
    }
  }

  lemma FirstStep(g: Edges<string>, a: string, b: string)
    ensures Reaches(g, a, b) <==> a == b || exists x :: x in Next(g, a) && Reaches(g, x, b)
  {
    ReachesSelf(g, a);
    if Reaches(g, a, b) && a != b {
      var p :| Joins(g, p, a, b);
      assert p[1] in Next(g, p[0]) && Joins(g, p[1..], p[1], b);
    }
    forall x | x in Next(g, a) && Reaches(g, x, b)
      ensures Reaches(g, a, b)
    {
      ReachesEdge(g, a, x);
      ReachesTrans(g, a, x, b);
    }
  }

  /** What a chunk loads is told by its own imports: the packages of the external ones and
      what the chunks of the others load, dynamic imports left aside. */
  lemma LoadedByImports(metafile: Metafile, chunk: string, name: string)
    ensures LoadedFrom(metafile, chunk, name) <==>
            chunk in metafile
            && exists i :: && i in metafile[chunk] && i.kind != "dynamic-import"
                           && if i.external then name == PackageName(i.path) else LoadedFrom(metafile, i.path, name)
  {
    var g := ChunkEdges(metafile);
    if LoadedFrom(metafile, chunk, name) {
      var c, i :| Reaches(g, chunk, c) && i in ImportsOf(metafile, c) && Loaded(i) && name == PackageName(i.path);
      FirstStep(g, chunk, c);
      if c != chunk {
        var x :| x in Next(g, chunk) && Reaches(g, x, c);
        assert LoadedFrom(metafile, x, name);
        var j :| j in metafile[chunk] && Followed(j) && j.path == x;
      }
    }
    if chunk in metafile {
      forall i | i in metafile[chunk] && i.kind != "dynamic-import"
                 && if i.external then name == PackageName(i.path) else LoadedFrom(metafile, i.path, name)
        ensures LoadedFrom(metafile, chunk, name)
      {
        ReachesSelf(g, chunk);
        if i.external {
          assert i in ImportsOf(metafile, chunk) && Loaded(i);
        } else {
          var c, j :| Reaches(g, i.path, c) && j in ImportsOf(metafile, c) && Loaded(j) && name == PackageName(j.path);
          assert i.path in Next(g, chunk);
          FirstStep(g, chunk, c);
        }
      }
    }
  }
}
