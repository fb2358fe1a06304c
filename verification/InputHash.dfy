/**
 * The cache key of the frontend build (scripts/build-frontend-if-changed.ts,
 * `hashInputs`): one digest over every input path and the digest of its
 * contents, sorted by path and delimited by NUL.
 */
module InputHash {
  /** File contents by repository-relative path. */
  type Inputs = map<string, string>

  const NUL: char := '\0'

  // ---------------------------------------------------------------------- sorting

  /** Dictionary order on strings (`Array.sort` without a comparator). */
  predicate AtMost(a: string, b: string) {
    a == "" || (b != "" && (a[0] < b[0] || (a[0] == b[0] && AtMost(a[1..], b[1..]))))
  }

  /** `b` continues `a`, or at the first place where they differ `a` has the lower character. */
  lemma {:induction false} AtMostExact(a: string, b: string)
    ensures AtMost(a, b) <==> a <= b || exists k :: FirstLower(a, b, k)
  {
    if a != "" && b != "" && a[0] == b[0] {
      AtMostExact(a[1..], b[1..]);
      assert a == [a[0]] + a[1..] && b == [b[0]] + b[1..];
      if k: nat :| FirstLower(a[1..], b[1..], k) {
        assert a[..k + 1] == [a[0]] + a[1..][..k] && b[..k + 1] == [b[0]] + b[1..][..k];
        assert FirstLower(a, b, k + 1);
      }
      if k: nat :| FirstLower(a, b, k) {
        assert a[..k][1..] == a[1..][..k - 1] && b[..k][1..] == b[1..][..k - 1];
        assert FirstLower(a[1..], b[1..], k - 1);
      }
    } else if a != "" && b != "" {
      assert AtMost(a, b) ==> FirstLower(a, b, 0);
      assert forall k: nat | FirstLower(a, b, k) :: k > 0 ==> a[..k][0] == b[..k][0];
    }
  }

  ghost predicate FirstLower(a: string, b: string, k: nat) {
    k < |a| && k < |b| && a[..k] == b[..k] && a[k] < b[k]
  }

  lemma {:induction false} AtMostTotal(a: string, b: string)
    ensures AtMost(a, b) || AtMost(b, a)
    ensures AtMost(a, b) && AtMost(b, a) ==> a == b
  {
    if a != "" && b != "" && a[0] == b[0] {
      AtMostTotal(a[1..], b[1..]);
      assert a == [a[0]] + a[1..] && b == [b[0]] + b[1..];
    }
  }

  lemma {:induction false} AtMostTrans(a: string, b: string, c: string)
    requires AtMost(a, b) && AtMost(b, c)
    ensures AtMost(a, c)
  {
    if a != "" && a[0] == b[0] && b[0] == c[0] {
      AtMostTrans(a[1..], b[1..], c[1..]);
    }
  }

  predicate Sorted(s: seq<string>) {
    forall i, j | 0 <= i < j < |s| :: AtMost(s[i], s[j])
  }

  function Insert(s: seq<string>, x: string): (r: seq<string>)
    ensures multiset(r) == multiset(s) + multiset{x}
  {
    if s == [] || AtMost(s[|s| - 1], x) then s + [x]
    else
      assert s == s[..|s| - 1] + [s[|s| - 1]];
      Insert(s[..|s| - 1], x) + [s[|s| - 1]]
  }

  function SortPaths(files: seq<string>): (r: seq<string>)
    ensures multiset(r) == multiset(files)
  {
    if files == [] then []
    else
      assert files == files[..|files| - 1] + [files[|files| - 1]];
      Insert(SortPaths(files[..|files| - 1]), files[|files| - 1])
  }

  lemma SortedAppend(s: seq<string>, x: string)
    requires Sorted(s) && forall y | y in s :: AtMost(y, x)
    ensures Sorted(s + [x])
  {
    assert forall i | 0 <= i < |s| :: s[i] in s;
  }

  lemma {:induction false} InsertSorted(s: seq<string>, x: string)
    requires Sorted(s)
    ensures Sorted(Insert(s, x))
  {
    if s != [] {
      var last := s[|s| - 1];
      var front := s[..|s| - 1];
      assert s == front + [last];
      AtMostTotal(last, x);
      if AtMost(last, x) {
        forall y | y in s
          ensures AtMost(y, x)
        {
          if y != last {
            AtMostTrans(y, last, x);
          }
        }
        SortedAppend(s, x);
      } else {
        InsertSorted(front, x);
        forall y | y in Insert(front, x)
          ensures AtMost(y, last)
        {
          assert y in multiset(Insert(front, x));
        }
        SortedAppend(Insert(front, x), last);
      }
    }
  }

  lemma {:induction false} SortPathsSorted(files: seq<string>)
    ensures Sorted(SortPaths(files))
  {
    if files != [] {
      SortPathsSorted(files[..|files| - 1]);
      InsertSorted(SortPaths(files[..|files| - 1]), files[|files| - 1]);
    }
  }

  lemma FirstIsLeast(a: seq<string>, b: seq<string>)
    requires Sorted(a) && a != [] && b != [] && multiset(a) == multiset(b)
    ensures AtMost(a[0], b[0])
  {
    assert b[0] in multiset(a);
    var i :| 0 <= i < |a| && a[i] == b[0];
    AtMostTotal(a[0], a[0]);
  }

  lemma TailMultiset(a: seq<string>)
    requires a != []
    ensures multiset(a[1..]) == multiset(a) - multiset{a[0]}
  {
    assert a == [a[0]] + a[1..];
  }

  /** A collection has one sorted arrangement. */
  lemma {:induction false} SortedUnique(a: seq<string>, b: seq<string>)
    requires Sorted(a) && Sorted(b) && multiset(a) == multiset(b)
    ensures a == b
  {
    assert |a| == |multiset(a)| && |b| == |multiset(b)|;
    if a != [] {
      FirstIsLeast(a, b);
      FirstIsLeast(b, a);
      AtMostTotal(a[0], b[0]);
      TailMultiset(a);
      TailMultiset(b);
      SortedUnique(a[1..], b[1..]);
    }
  }

  // --------------------------------------------------------------- the digested text

  /** What one path adds to the outer digest. */
  function Line(sha: string -> string, file: string, inputs: Inputs): string
    requires file in inputs
  {
    file + [NUL] + sha(inputs[file]) + [NUL]
  }

  /** What the loop feeds to the outer digest. */
  function TextOf(sha: string -> string, files: seq<string>, inputs: Inputs): string
    requires forall f | f in files :: f in inputs
  {
    if files == [] then ""
    else
      var last := files[|files| - 1];
      TextOf(sha, files[..|files| - 1], inputs) + Line(sha, last, inputs)
  }

  /** `files` is some walk of the inputs, each path once. */
  predicate Lists(files: seq<string>, inputs: Inputs) {
    multiset(files) == multiset(inputs.Keys)
  }

  function Text(sha: string -> string, files: seq<string>, inputs: Inputs): string
    requires Lists(files, inputs)
  {
    ListedIsInput(files, inputs);
    TextOf(sha, SortPaths(files), inputs)
  }

  lemma ListedIsInput(files: seq<string>, inputs: Inputs)
    requires Lists(files, inputs)
    ensures forall f | f in SortPaths(files) :: f in inputs
  {
    forall f | f in SortPaths(files)
      ensures f in inputs
    {
      assert f in multiset(SortPaths(files));
    }
  }

  /** The text lists the sorted paths, for each its name, the digest of its contents, and a
      NUL behind either. */
  lemma TextIsLines(sha: string -> string, files: seq<string>, i: Inputs)
    requires forall f | f in files :: f in i
    ensures TextOf(sha, [], i) == ""
    ensures files != [] ==>
              var last := files[|files| - 1];
              TextOf(sha, files, i) == TextOf(sha, files[..|files| - 1], i) + last + "\0" + sha(i[last]) + "\0"
    ensures Sorted(files) && Lists(files, i) ==> Text(sha, files, i) == TextOf(sha, files, i)
  {
    if files != [] {
      var last := files[|files| - 1];
      var front := TextOf(sha, files[..|files| - 1], i);
      assert front + (last + [NUL] + sha(i[last]) + [NUL]) == front + last + "\0" + sha(i[last]) + "\0";
    }
    if Sorted(files) && Lists(files, i) {
      SortPathsSorted(files);
      SortedUnique(SortPaths(files), files);
    }
  }

  function KeyOf(sha: string -> string, files: seq<string>, inputs: Inputs): string
    requires Lists(files, inputs)
  {
    sha(Text(sha, files, inputs))
  }

  /** Sorts the walked paths and feeds the digest path by path. */
  method HashInputs(sha: string -> string, files: seq<string>, inputs: Inputs) returns (key: string)
    requires Lists(files, inputs)
    ensures key == sha(Text(sha, files, inputs)) == KeyOf(sha, files, inputs)
  {
    ListedIsInput(files, inputs);
    var sorted := SortPaths(files);
    var outer := "";
    for k := 0 to |sorted|
      invariant outer == TextOf(sha, sorted[..k], inputs)
    {
      var rel := sorted[k];
      var hash := sha(inputs[rel]);
      outer := outer + (rel + [NUL] + hash + [NUL]);
      assert sorted[..k + 1][..k] == sorted[..k];
    }
    assert sorted[..|sorted|] == sorted;
    return sha(outer);
  }

  // ------------------------------------------------------------------- injectivity

  predicate NulFree(sha: string -> string, inputs: Inputs) {
    forall f | f in inputs :: NUL !in f && NUL !in sha(inputs[f])
  }

  /** The text, read from the front. */
  lemma {:induction false} TextFront(sha: string -> string, files: seq<string>, inputs: Inputs)
    requires files != [] && forall f | f in files :: f in inputs
    ensures TextOf(sha, files, inputs) == Line(sha, files[0], inputs) + TextOf(sha, files[1..], inputs)
  {
    var head := Line(sha, files[0], inputs);
    if |files| == 1 {
      assert TextOf(sha, files[..0], inputs) == "" && TextOf(sha, files[1..], inputs) == "";
      assert "" + head == head && head + "" == head;
    } else {
      var last := |files| - 1;
      TextFront(sha, files[..last], inputs);
      assert files[..last][1..] == files[1..][..last - 1];
      var middle := TextOf(sha, files[1..][..last - 1], inputs);
      var line := Line(sha, files[last], inputs);
      assert head + middle + line == head + (middle + line);
    }
  }

  /** Where the first NUL stands decides the split. */
  lemma NulSplits(a: string, x: string, b: string, y: string)
    requires NUL !in a && NUL !in b && a + [NUL] + x == b + [NUL] + y
    ensures a == b && x == y
  {
    var s, t := a + [NUL] + x, b + [NUL] + y;
    assert s[|a|] == NUL && t[|b|] == NUL;
    assert forall i | 0 <= i < |a| :: s[i] == a[i] != NUL;
    assert forall i | 0 <= i < |b| :: t[i] == b[i] != NUL;
    assert |a| == |b|;
    assert a == s[..|a|] && b == t[..|b|];
    assert x == s[|a| + 1..] && y == t[|b| + 1..];
  }

  lemma FrontSplits(a: string, h: string, x: string, b: string, k: string, y: string)
    requires NUL !in a && NUL !in b && NUL !in h && NUL !in k
    requires a + [NUL] + h + [NUL] + x == b + [NUL] + k + [NUL] + y
    ensures a == b && h == k && x == y
  {
    assert a + [NUL] + (h + [NUL] + x) == a + [NUL] + h + [NUL] + x;
    assert b + [NUL] + (k + [NUL] + y) == b + [NUL] + k + [NUL] + y;
    NulSplits(a, h + [NUL] + x, b, k + [NUL] + y);
    NulSplits(h, x, k, y);
  }

  /** The text determines the paths and their digests. */
  lemma {:induction false} TextInjective(sha: string -> string, a: seq<string>, i: Inputs, b: seq<string>, j: Inputs)
    requires (forall f | f in a :: f in i) && (forall f | f in b :: f in j)
    requires NulFree(sha, i) && NulFree(sha, j) && TextOf(sha, a, i) == TextOf(sha, b, j)
    ensures a == b && forall f | f in a :: sha(i[f]) == sha(j[f])
  {
    if a != [] {
      TextFront(sha, a, i);
    }
    if b != [] {
      TextFront(sha, b, j);
    }
    if a != [] && b != [] {
      FrontSplits(a[0], sha(i[a[0]]), TextOf(sha, a[1..], i), b[0], sha(j[b[0]]), TextOf(sha, b[1..], j));
      TextInjective(sha, a[1..], i, b[1..], j);
      assert a == [a[0]] + a[1..] && b == [b[0]] + b[1..];
    }
  }

  /** Two different strings with one digest. */
  ghost predicate Collision(sha: string -> string, a: string, b: string) {
    a != b && sha(a) == sha(b)
  }

  /** The text does not depend on the order of the walk. */
  lemma WalkOrderIsIrrelevant(sha: string -> string, files: seq<string>, others: seq<string>, inputs: Inputs)
    requires Lists(files, inputs) && Lists(others, inputs)
    ensures Text(sha, files, inputs) == Text(sha, others, inputs)
  {
    SortPathsSorted(files);
    SortPathsSorted(others);
    SortedUnique(SortPaths(files), SortPaths(others));
  }

  lemma SortedKeys(files: seq<string>, i: Inputs, f: string)
    requires Lists(files, i)
    ensures f in SortPaths(files) <==> f in i
  {
    assert f in SortPaths(files) <==> f in multiset(SortPaths(files));
    assert f in multiset(i.Keys) <==> f in i.Keys;
  }

  /** One text means one set of inputs, up to a collision of the digest itself on the
      contents of one path. */
  lemma TextDeterminesInputs(sha: string -> string, files: seq<string>, i: Inputs, others: seq<string>, j: Inputs)
    requires Lists(files, i) && Lists(others, j) && NulFree(sha, i) && NulFree(sha, j)
    requires Text(sha, files, i) == Text(sha, others, j)
    ensures i == j || exists f :: f in i && f in j && Collision(sha, i[f], j[f])
  {
    ListedIsInput(files, i);
    ListedIsInput(others, j);
    TextInjective(sha, SortPaths(files), i, SortPaths(others), j);
    SameKeys(files, i, others, j);
    forall f | f in i
      ensures sha(i[f]) == sha(j[f])
    {
      SortedKeys(files, i, f);
    }
    SameOrCollision(sha, i, j);
  }

  lemma SameKeys(files: seq<string>, i: Inputs, others: seq<string>, j: Inputs)
    requires Lists(files, i) && Lists(others, j) && SortPaths(files) == SortPaths(others)
    ensures i.Keys == j.Keys
  {
    forall f
      ensures f in i <==> f in j
    {
      SortedKeys(files, i, f);
      SortedKeys(others, j, f);
    }
  }

  lemma SameOrCollision(sha: string -> string, i: Inputs, j: Inputs)
    requires i.Keys == j.Keys && forall f | f in i :: sha(i[f]) == sha(j[f])
    ensures i == j || exists f :: f in i && f in j && Collision(sha, i[f], j[f])
  {
    if f :| f in i && i[f] != j[f] {
      assert Collision(sha, i[f], j[f]);
    }
  }

  /** Equal keys mean equal inputs unless the digest collides, on two contents of one path
      or on the two texts; and equal inputs always have equal keys. */
  lemma KeyDeterminesInputs(sha: string -> string, files: seq<string>, i: Inputs, others: seq<string>, j: Inputs)
    requires Lists(files, i) && Lists(others, j) && NulFree(sha, i) && NulFree(sha, j)
    ensures i == j ==> KeyOf(sha, files, i) == KeyOf(sha, others, j)
    ensures KeyOf(sha, files, i) == KeyOf(sha, others, j) ==>
              || i == j
              || Collision(sha, Text(sha, files, i), Text(sha, others, j))
              || exists f :: f in i && f in j && Collision(sha, i[f], j[f])
  {
    if i == j {
      WalkOrderIsIrrelevant(sha, files, others, i);
    }
    if Text(sha, files, i) == Text(sha, others, j) {
      TextDeterminesInputs(sha, files, i, others, j);
    }
  }
}
