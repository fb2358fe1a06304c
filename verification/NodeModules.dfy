/**
 * Locations in an npm `node_modules` tree and Node's lookup over them
 * (scripts/write-dist-manifest.ts, `lookups` and its `find`).
 */
module NodeModules {
  import opened Text
  import opened Lockfile

  /** `In(p, n)` is the package directory `n` under `p`. `Slashed(n)` is the path
      `/node_modules/n`, which the placement loop forms when the root nests under itself. */
  datatype Loc = Root | In(parent: Loc, name: string) | Slashed(name: string)

  type Tree = map<Loc, Dep>

  function Parent(l: Loc): Loc {
    if l.In? then l.parent else Root
  }

  function Depth(l: Loc): nat {
    match l
    case Root => 0
    case In(p, _) => Depth(p) + 1
    case Slashed(_) => 1
  }

  /** `a` is `l` or one of the directories around it. */
  predicate Encloses(a: Loc, l: Loc)
    decreases l
  {
    a == l || (l.In? && Encloses(a, l.parent)) || (l.Slashed? && a == Root)
  }

  /** Where a dependent at `loc` looks for `name`, nearest first. */
  function Lookups(loc: Loc, name: string): seq<Loc> {
    match loc
    case Root => [In(Root, name)]
    case In(p, _) => [In(loc, name)] + Lookups(p, name)
    case Slashed(_) => [In(loc, name), In(Root, name)]
  }

  /** The location a dependent at `loc` resolves `name` to. */
  function Find(tree: Tree, loc: Loc, name: string): Option<Loc> {
    if In(loc, name) in tree then Some(In(loc, name))
    else match loc
      case Root => None
      case In(p, _) => Find(tree, p, name)
      case Slashed(_) => if In(Root, name) in tree then Some(In(Root, name)) else None
  }

  /** `f` is the first of `ls` that the tree has, if it has any (`Array.find`). */
  predicate IsFirst(tree: Tree, ls: seq<Loc>, f: Option<Loc>) {
    match f
    case None => forall l | l in ls :: l !in tree
    case Some(l) => exists k | 0 <= k < |ls| :: ls[k] == l && l in tree && forall j | 0 <= j < k :: ls[j] !in tree
  }

  /** `Find` is the first of the lookups that the tree has: an entry, with no nearer one. */
  lemma {:induction false} FindIsNearest(tree: Tree, loc: Loc, name: string)
    ensures IsFirst(tree, Lookups(loc, name), Find(tree, loc, name))
  {
    var ls := Lookups(loc, name);
    assert ls[0] == In(loc, name);
    if loc.In? && In(loc, name) !in tree {
      FindIsNearest(tree, loc.parent, name);
      var up := Lookups(loc.parent, name);
      assert ls == [In(loc, name)] + up;
      if Find(tree, loc, name).Some? {
        var k :| 0 <= k < |up| && up[k] == Find(tree, loc, name).value && forall j | 0 <= j < k :: up[j] !in tree;
        assert ls[k + 1] == up[k] && forall j | 0 <= j < k + 1 :: ls[j] !in tree;
      }
    } else if loc.Slashed? && In(loc, name) !in tree {
      assert ls[1] == In(Root, name);
    }
  }

  /** What is found carries the name looked for, in a directory around the dependent. */
  lemma {:induction false} FindShape(tree: Tree, loc: Loc, name: string)
    ensures var f := Find(tree, loc, name);
            f.Some? ==> f.value in tree && f.value.In? && f.value.name == name && Encloses(f.value.parent, loc)
  {
    if In(loc, name) !in tree && loc.In? {
      FindShape(tree, loc.parent, name);
    }
  }

  lemma {:induction false} EnclosesTrans(a: Loc, b: Loc, c: Loc)
    requires Encloses(a, b) && Encloses(b, c)
    ensures Encloses(a, c)
    decreases c
  {
    if b != c && c.In? {
      EnclosesTrans(a, b, c.parent);
    }
  }

  lemma {:induction false} RootEncloses(l: Loc)
    ensures Encloses(Root, l)
  {
    if l.In? {
      RootEncloses(l.parent);
    }
  }

  /** A new entry changes a lookup only when it carries the name looked for, stands in a
      directory around the dependent, and is nearer than anything found before. */
  lemma {:induction false} FindKept(tree: Tree, at: Loc, d: Dep, loc: Loc, name: string)
    requires at !in tree
    requires at.In? && at.name == name && Encloses(at.parent, loc) ==>
               at.parent == Root && Find(tree, loc, name).Some?
    ensures Find(tree[at := d], loc, name) == Find(tree, loc, name)
  {
    if In(loc, name) !in tree && loc.In? {
      FindKept(tree, at, d, loc.parent, name);
    }
  }

  /** A first top-level entry is found from everywhere. */
  lemma {:induction false} FindTop(tree: Tree, d: Dep, loc: Loc, name: string)
    requires Find(tree, loc, name) == None
    ensures Find(tree[In(Root, name) := d], loc, name) == Some(In(Root, name))
  {
    if loc.In? {
      FindTop(tree, d, loc.parent, name);
    }
  }

  /** Removing entries that a lookup does not resolve to leaves its answer alone. */
  lemma {:induction false} FindInRemainder(tree: Tree, rest: Tree, loc: Loc, name: string)
    requires rest.Keys <= tree.Keys
    requires Find(tree, loc, name).Some? ==> Find(tree, loc, name).value in rest
    ensures Find(rest, loc, name) == Find(tree, loc, name)
  {
    if In(loc, name) !in tree && loc.In? {
      FindInRemainder(tree, rest, loc.parent, name);
    }
  }
}
