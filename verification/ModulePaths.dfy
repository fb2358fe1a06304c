/**
 * Locations as the path strings the source keys its maps by, and the regular
 * expression that steps from a directory to the one around it
 * (scripts/write-dist-manifest.ts, `lookups`).
 */
module ModulePaths {
  import opened Text
  import opened NodeModules

  const DIR := "node_modules/"

  /** A non-empty run of characters other than a slash. */
  predicate Segment(s: string) {
    s != "" && '/' !in s
  }

  /** `s` is `@scope/name`, split before its slash at `k`. */
  predicate ScopedAt(s: string, k: nat) {
    2 <= k < |s| && s[0] == '@' && '/' !in s[1..k] && s[k] == '/' && Segment(s[k + 1..])
  }

  predicate Scoped(s: string) {
    exists k: nat | k < |s| :: ScopedAt(s, k)
  }

  /** A package name npm accepts: plain, or `@scope/name`. */
  predicate ValidName(s: string) {
    (Segment(s) && s[0] != '@') || Scoped(s)
  }

  predicate ValidLoc(l: Loc) {
    match l
    case Root => true
    case In(p, n) => ValidLoc(p) && ValidName(n)
    case Slashed(n) => ValidName(n)
  }

  /** The path string of a location; the root is the empty string. */
  function Render(l: Loc): string {
    match l
    case Root => ""
    case In(p, n) => Under(Render(p), n)
    case Slashed(n) => "/" + DIR + n
  }

  /** The path `name` has in the directory `at`. */
  function Under(at: string, name: string): string {
    (if at != "" then at + "/" else "") + DIR + name
  }

  /** A package's path is that of the directory around it, `/node_modules/` and its name,
      without the first slash at the top level. */
  lemma RenderExact(p: Loc, n: string)
    ensures Render(Root) == "" && Render(In(Root, n)) == "node_modules/" + n
    ensures p != Root ==> Render(In(p, n)) == Render(p) + "/node_modules/" + n
    ensures Render(Slashed(n)) == "/node_modules/" + n
  {
    assert "/" + "node_modules/" == "/node_modules/";
    assert Render(p) + "/" + DIR + n == Render(p) + ("/" + DIR) + n;
    RenderEmpty(p);
  }

  // ------------------------------------------------------- the regular expression

  /** All of `t` matches `node_modules\/(@[^/]+\/)?[^/]+`. */
  predicate MatchesDir(t: string) {
    StartsWith(t, DIR) && (Segment(t[|DIR|..]) || Scoped(t[|DIR|..]))
  }

  /** All of `t` matches the same with an optional slash before it. */
  predicate Matches(t: string) {
    MatchesDir(t) || (t != "" && t[0] == '/' && MatchesDir(t[1..]))
  }

  /** `at.replace(/\/?node_modules\/(@[^/]+\/)?[^/]+$/, '')`: drops the leftmost suffix that matches. */
  function Outer(at: string): string {
    OuterFrom(at, 0)
  }

  function OuterFrom(at: string, i: nat): string
    requires i <= |at|
    decreases |at| - i
  {
    if i == |at| then at
    else if Matches(at[i..]) then at[..i]
    else OuterFrom(at, i + 1)
  }

  lemma {:induction false} OuterAt(at: string, i: nat, k: nat)
    requires i <= k < |at| && Matches(at[k..])
    requires forall j | i <= j < k :: !Matches(at[j..])
    ensures OuterFrom(at, i) == at[..k]
    decreases k - i
  {
    if i < k {
      OuterAt(at, i + 1, k);
    }
  }

  // --------------------------------------------- why the leftmost match is the last name

  lemma ScopedSlashes(s: string)
    requires Scoped(s)
    ensures Count(s, '/') == 1 && s[0] == '@'
  {
    var k: nat :| k < |s| && ScopedAt(s, k);
    assert s == [s[0]] + s[1..k] + ([s[k]] + s[k + 1..]);
    CountConcat([s[0]] + s[1..k], [s[k]] + s[k + 1..], '/');
    CountConcat([s[0]], s[1..k], '/');
    CountZero(s[1..k], '/');
    CountZero(s[k + 1..], '/');
  }

  lemma NoSlashInDir(d: string)
    requires d == "node_modules"
    ensures '/' !in d
  {}

  lemma CountLast(s: string, c: char)
    requires c !in s
    ensures Count(s + [c], c) == 1
  {
    CountConcat(s, [c], c);
    CountZero(s, c);
  }

  lemma DirCount(rest: string)
    ensures Count(DIR + rest, '/') == 1 + Count(rest, '/')
  {
    var d := "node_modules";
    NoSlashInDir(d);
    CountLast(d, '/');
    assert d + ['/'] == DIR;
    CountConcat(DIR, rest, '/');
  }

  lemma DirSlashes(t: string)
    requires MatchesDir(t)
    ensures Count(t, '/') <= 2
    ensures Count(t, '/') == 2 ==> t[|DIR|] == '@'
  {
    var rest := t[|DIR|..];
    assert t == DIR + rest && t[|DIR|] == rest[0];
    DirCount(rest);
    if Segment(rest) {
      CountZero(rest, '/');
    } else {
      ScopedSlashes(rest);
    }
  }

  lemma TailSlashes(u: string, n: string)
    ensures Count(u + "/" + DIR + n, '/') == Count(u, '/') + 2 + Count(n, '/')
  {
    assert u + "/" + DIR + n == u + ("/" + (DIR + n));
    CountConcat(u, "/" + (DIR + n), '/');
    CountConcat("/", DIR + n, '/');
    DirCount(n);
  }

  /** With no slash in `u`, the first slash of `t` is the one that follows it. */
  lemma FirstSlash(u: string, t: string)
    requires '/' !in u && |t| > |u| && t[..|u|] == u && t[|u|] == '/'
    requires StartsWith(t, DIR)
    ensures |u| == 12
  {
    assert t[12] == DIR[12] == '/';
    assert forall i | 0 <= i < 12 :: t[i] == DIR[i] != '/';
    assert forall i | 0 <= i < |u| :: u[i] == t[i];
  }

  /** A directory match cannot begin inside the path around the last name. */
  lemma NoEarlierDir(u: string, n: string)
    requires u != "" && ValidName(n)
    ensures !MatchesDir(u + "/" + DIR + n)
  {
    var t := u + "/" + DIR + n;
    assert t == u + ("/" + DIR + n) && t[|u| + 1] == 'n';
    TailSlashes(u, n);
    CountZero(u, '/');
    if MatchesDir(t) {
      DirSlashes(t);
      FirstSlash(u, t);
    }
  }

  lemma NoEarlierMatch(u: string, n: string)
    requires u != "" && ValidName(n)
    ensures !Matches(u + "/" + DIR + n)
  {
    var t := u + "/" + DIR + n;
    NoEarlierDir(u, n);
    assert t[1..] == u[1..] + "/" + DIR + n;
    if |u| > 1 {
      NoEarlierDir(u[1..], n);
    } else {
      assert t[1..][0] == '/';
    }
  }

  lemma NameMatches(n: string)
    requires ValidName(n)
    ensures MatchesDir(DIR + n)
  {
    assert (DIR + n)[|DIR|..] == n;
  }

  lemma OuterTop(n: string)
    requires ValidName(n)
    ensures Outer(DIR + n) == "" && Outer("/" + DIR + n) == ""
  {
    var s, t := DIR + n, "/" + DIR + n;
    NameMatches(n);
    assert s[0..] == s && t[0..] == t && t[1..] == s;
    OuterAt(s, 0, 0);
    OuterAt(t, 0, 0);
  }

  lemma OuterNested(q: string, n: string)
    requires q != "" && ValidName(n)
    ensures Outer(q + "/" + DIR + n) == q
  {
    var s := q + "/" + DIR + n;
    NameMatches(n);
    assert s[|q|..] == "/" + DIR + n && s[|q|..][1..] == DIR + n;
    forall j | 0 <= j < |q|
      ensures !Matches(s[j..])
    {
      assert s[j..] == q[j..] + "/" + DIR + n;
      NoEarlierMatch(q[j..], n);
    }
    OuterAt(s, 0, |q|);
    assert s[..|q|] == q;
  }

  /** Stepping out of a rendered location gives the rendered directory around it. */
  lemma OuterOfRender(l: Loc)
    requires ValidLoc(l) && l != Root
    ensures Outer(Render(l)) == Render(Parent(l))
  {
    var q := Render(Parent(l));
    if q == "" {
      OuterTop(l.name);
    } else {
      OuterNested(q, l.name);
    }
  }

  lemma RenderEmpty(l: Loc)
    ensures Render(l) == "" <==> l == Root
  {}

  lemma UnderInjective(at: string, a: string, b: string)
    requires Under(at, a) == Under(at, b)
    ensures a == b
  {
    var pre := Under(at, "");
    assert Under(at, a) == pre + a && Under(at, b) == pre + b;
    assert a == Under(at, a)[|pre|..] && b == Under(at, b)[|pre|..];
  }

  lemma SlashedApart(n: string, at: string, m: string)
    ensures at == "" ==> "/" + DIR + n != Under(at, m)
    ensures "/" + DIR + n == "/" + DIR + m ==> n == m
  {
    assert ("/" + DIR + n)[0] == '/' && (DIR + m)[0] == 'n';
    var pre := "/" + DIR;
    assert n == (pre + n)[|pre|..] && m == (pre + m)[|pre|..];
  }

  /** Distinct locations have distinct paths. */
  lemma {:induction false} RenderInjective(a: Loc, b: Loc)
    requires ValidLoc(a) && ValidLoc(b) && Render(a) == Render(b)
    ensures a == b
    decreases a
  {
    RenderEmpty(a);
    RenderEmpty(b);
    if a != Root {
      OuterOfRender(a);
      OuterOfRender(b);
      if a.In? && b.In? {
        RenderInjective(a.parent, b.parent);
        UnderInjective(Render(a.parent), a.name, b.name);
      } else if a.In? {
        SlashedApart(b.name, Render(a.parent), a.name);
      } else {
        SlashedApart(a.name, Render(Parent(b)), b.name);
      }
    }
  }

  // --------------------------------------------------------------- lookups on paths

  function RenderAll(ls: seq<Loc>): seq<string> {
    seq(|ls|, i requires 0 <= i < |ls| => Render(ls[i]))
  }

  lemma LookupsFrom(done: seq<Loc>, here: Loc, name: string)
    requires ValidLoc(here)
    ensures done + Lookups(here, name) ==
            (done + [In(here, name)]) + (if here == Root then [] else Lookups(Parent(here), name))
  {}

  /** The source's loop: from the dependent's directory outward, ending at the top level. */
  method LookupPaths(loc: string, name: string, ghost l: Loc) returns (out: seq<string>)
    requires ValidLoc(l) && loc == Render(l)
    ensures out == RenderAll(Lookups(l, name))
  {
    out := [];
    var at := loc;
    ghost var here := l;
    ghost var done: seq<Loc> := [];
    while true
      invariant ValidLoc(here) && at == Render(here)
      invariant out == RenderAll(done) && done + Lookups(here, name) == Lookups(l, name)
      decreases Depth(here)
    {
      out := out + [Under(at, name)];
      assert out == RenderAll(done + [In(here, name)]);
      LookupsFrom(done, here, name);
      done := done + [In(here, name)];
      RenderEmpty(here);
      if at == "" {
        return;
      }
      OuterOfRender(here);
      at := Outer(at);
      here := Parent(here);
    }
  }

  /** A path is a key of the rendered tree exactly when its location is one of the tree, so
      the first lookup path that is a key is the path of what `Find` finds. */
  lemma FindOnPaths(tree: Tree, l: Loc, name: string, paths: set<string>)
    requires ValidLoc(l) && ValidName(name) && forall k | k in tree :: ValidLoc(k)
    requires paths == set k | k in tree :: Render(k)
    ensures var ls := Lookups(l, name); var out := RenderAll(ls);
            && (forall k | 0 <= k < |out| :: out[k] in paths <==> ls[k] in tree)
            && match Find(tree, l, name)
               case None => forall k | 0 <= k < |out| :: out[k] !in paths
               case Some(f) => exists k | 0 <= k < |out| ::
                 out[k] == Render(f) && out[k] in paths && forall j | 0 <= j < k :: out[j] !in paths
  {
    var ls := Lookups(l, name);
    LookupsValid(l, name);
    forall k | 0 <= k < |ls|
      ensures Render(ls[k]) in paths <==> ls[k] in tree
    {
      assert ls[k] in ls;
      if Render(ls[k]) in paths {
        var m :| m in tree && Render(m) == Render(ls[k]);
        RenderInjective(m, ls[k]);
      }
    }
    FindIsNearest(tree, l, name);
    var found := Find(tree, l, name);
    if found.Some? {
      var k :| 0 <= k < |ls| && ls[k] == found.value && found.value in tree && forall j | 0 <= j < k :: ls[j] !in tree;
      var out := RenderAll(ls);
      assert out[k] == Render(found.value) && forall j | 0 <= j < k :: out[j] !in paths;
    }
  }

  lemma {:induction false} LookupsValid(l: Loc, name: string)
    requires ValidLoc(l) && ValidName(name)
    ensures forall k | k in Lookups(l, name) :: ValidLoc(k)
  {
    if l.In? {
      LookupsValid(l.parent, name);
    }
  }
}
