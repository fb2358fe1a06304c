/**
 * Anchored edits to one file of a pinned release
 * (dockerfiles/agent-patches/apply-edits.js, `applyEdits`).
 */
module ApplyEdits {
  import opened Text

  datatype Insert = Replace | Before | After

  datatype Edit = Edit(name: string, anchor: string, insert: Insert, text: string)

  /** `NoAnchor` is the error thrown: which edit, and whether its anchor is missing or not unique. */
  datatype Result = Patched(text: string) | NoAnchor(name: string, missing: bool)

  function Marker(patch: string): string {
    "/* yaac: " + patch + " patch */"
  }

  function Replacement(e: Edit): string {
    match e.insert
    case After => e.anchor + e.text
    case Before => e.text + e.anchor
    case Replace => e.text
  }

  /** One turn of the loop. */
  function ApplyOne(out: string, e: Edit): Result {
    var at := IndexOf(out, e.anchor, 0);
    if at == -1 then NoAnchor(e.name, true)
    else if IndexOf(out, e.anchor, at + 1) != -1 then NoAnchor(e.name, false)
    else Patched(out[..at] + Replacement(e) + out[at + |e.anchor|..])
  }

  function ApplyAll(source: string, edits: seq<Edit>): Result {
    if edits == [] then Patched(source)
    else match ApplyAll(source, edits[..|edits| - 1])
      case NoAnchor(n, m) => NoAnchor(n, m)
      case Patched(out) => ApplyOne(out, edits[|edits| - 1])
  }

  /** Puts the marker on its own line after the first line, or at the top of a text without one. */
  function Mark(out: string, marker: string): string {
    var nl := IndexOf(out, "\n", 0) + 1;
    out[..nl] + (marker + "\n") + out[nl..]
  }

  function Applied(source: string, patch: string, edits: seq<Edit>): Result {
    if Includes(source, Marker(patch)) then Patched(source)
    else match ApplyAll(source, edits)
      case NoAnchor(n, m) => NoAnchor(n, m)
      case Patched(out) => Patched(Mark(out, Marker(patch)))
  }

  lemma {:induction false} FailsForGood(source: string, edits: seq<Edit>, k: nat)
    requires k <= |edits| && ApplyAll(source, edits[..k]).NoAnchor?
    ensures ApplyAll(source, edits) == ApplyAll(source, edits[..k])
  {
    if k < |edits| {
      assert edits[..|edits| - 1][..k] == edits[..k];
      FailsForGood(source, edits[..|edits| - 1], k);
    } else {
      assert edits[..k] == edits;
    }
  }

  method EditOnce(out: string, e: Edit) returns (r: Result)
    ensures r == ApplyOne(out, e)
  {
    var at := IndexOf(out, e.anchor, 0);
    if at == -1 || IndexOf(out, e.anchor, at + 1) != -1 {
      return NoAnchor(e.name, at == -1);
    }
    var replacement := match e.insert
      case After => e.anchor + e.text
      case Before => e.text + e.anchor
      case Replace => e.text;
    return Patched(out[..at] + replacement + out[at + |e.anchor|..]);
  }

  method Apply(source: string, patch: string, edits: seq<Edit>) returns (r: Result)
    ensures r == Applied(source, patch, edits)
  {
    var marker := Marker(patch);
    if Includes(source, marker) {
      return Patched(source);
    }
    var out := source;
    for k := 0 to |edits|
      invariant ApplyAll(source, edits[..k]) == Patched(out)
    {
      assert edits[..k + 1][..k] == edits[..k];
      var one := EditOnce(out, edits[k]);
      assert ApplyAll(source, edits[..k + 1]) == one;
      if one.NoAnchor? {
        FailsForGood(source, edits, k + 1);
        return one;
      }
      out := one.text;
    }
    assert edits[..|edits|] == edits;
    var nl := IndexOf(out, "\n", 0) + 1;
    return Patched(out[..nl] + (marker + "\n") + out[nl..]);
  }

  // --------------------------------------------------------- exactly when it applies

  /** Where `pat` stands in `s`, overlaps included. */
  ghost function Occurrences(s: string, pat: string): set<int> {
    set i | 0 <= i <= |s| && At(s, pat, i)
  }

  /** A non-empty anchor that stands in the text exactly once. */
  ghost predicate Anchored(s: string, anchor: string) {
    anchor != "" && |Occurrences(s, anchor)| == 1
  }

  lemma OnlyOne(s: set<int>, x: int)
    requires x in s
    ensures |s| == 1 <==> s == {x}
  {
    if |s| == 1 {
      assert |s - {x}| == 0;
      assert s == {x};
    }
  }

  lemma MissingIff(out: string, anchor: string)
    ensures IndexOf(out, anchor, 0) == -1 <==> Occurrences(out, anchor) == {}
  {
    var at := IndexOf(out, anchor, 0);
    if at != -1 {
      assert at in Occurrences(out, anchor);
    }
  }

  lemma RepeatedIff(out: string, anchor: string, at: nat)
    requires at == IndexOf(out, anchor, 0)
    ensures IndexOf(out, anchor, at + 1) == -1 <==> Anchored(out, anchor)
  {
    assert at in Occurrences(out, anchor);
    OnlyOne(Occurrences(out, anchor), at);
    var again := IndexOf(out, anchor, at + 1);
    if anchor != "" {
      if again != -1 {
        assert again in Occurrences(out, anchor);
      } else {
        assert Occurrences(out, anchor) == {at};
      }
    }
  }

  /** An edit applies exactly when its anchor is not empty and occurs once; the error says
      whether there was none. */
  lemma AppliesIffAnchored(out: string, e: Edit)
    ensures var r := ApplyOne(out, e);
            && (r.Patched? <==> Anchored(out, e.anchor))
            && (r.NoAnchor? ==> r.name == e.name && (r.missing <==> Occurrences(out, e.anchor) == {}))
  {
    MissingIff(out, e.anchor);
    if IndexOf(out, e.anchor, 0) != -1 {
      RepeatedIff(out, e.anchor, IndexOf(out, e.anchor, 0));
    }
  }

  /** At the turn of edit `k` the edits before it have applied and its anchor occurs once. */
  ghost predicate GoodTurn(source: string, edits: seq<Edit>, k: nat)
    requires k < |edits|
  {
    var before := ApplyAll(source, edits[..k]);
    before.Patched? && Anchored(before.text, edits[k].anchor)
  }

  lemma OneTurn(source: string, edits: seq<Edit>, k: nat)
    requires k < |edits|
    ensures ApplyAll(source, edits[..k + 1]).Patched? <==> GoodTurn(source, edits, k)
    ensures var before := ApplyAll(source, edits[..k]); var after := ApplyAll(source, edits[..k + 1]);
            after == if before.Patched? then ApplyOne(before.text, edits[k]) else before
  {
    assert edits[..k + 1][..k] == edits[..k];
    var before := ApplyAll(source, edits[..k]);
    if before.Patched? {
      AppliesIffAnchored(before.text, edits[k]);
    }
  }

  /** Each of the first `n` edits has a good turn. */
  ghost predicate AllGood(source: string, edits: seq<Edit>, n: nat)
    requires n <= |edits|
  {
    n == 0 || (AllGood(source, edits, n - 1) && GoodTurn(source, edits, n - 1))
  }

  lemma {:induction false} AppliesIff(source: string, edits: seq<Edit>, n: nat)
    requires n <= |edits|
    ensures ApplyAll(source, edits[..n]).Patched? <==> AllGood(source, edits, n)
  {
    if n > 0 {
      AppliesIff(source, edits, n - 1);
      OneTurn(source, edits, n - 1);
    }
  }

  lemma {:induction false} AllGoodAt(source: string, edits: seq<Edit>, n: nat, k: nat)
    requires k < n <= |edits| && AllGood(source, edits, n)
    ensures GoodTurn(source, edits, k)
    decreases n
  {
    if k < n - 1 {
      AllGoodAt(source, edits, n - 1, k);
    }
  }

  lemma {:induction false} AllGoodIf(source: string, edits: seq<Edit>, n: nat)
    requires n <= |edits| && forall k | 0 <= k < n :: GoodTurn(source, edits, k)
    ensures AllGood(source, edits, n)
  {
    if n > 0 {
      AllGoodIf(source, edits, n - 1);
    }
  }

  /** `k` is the first edit without a good turn, and the error says why. */
  ghost predicate Blames(source: string, edits: seq<Edit>, k: nat, r: Result)
    requires k < |edits|
  {
    && AllGood(source, edits, k) && !GoodTurn(source, edits, k)
    && r.NoAnchor? && r.name == edits[k].name
    && var before := ApplyAll(source, edits[..k]);
    && before.Patched? && (r.missing <==> Occurrences(before.text, edits[k].anchor) == {})
  }

  lemma {:induction false} BlamesFirst(source: string, edits: seq<Edit>, n: nat) returns (k: nat)
    requires n <= |edits| && ApplyAll(source, edits[..n]).NoAnchor?
    ensures k < n && Blames(source, edits, k, ApplyAll(source, edits[..n]))
  {
    OneTurn(source, edits, n - 1);
    var before := ApplyAll(source, edits[..n - 1]);
    if before.Patched? {
      k := n - 1;
      AppliesIff(source, edits, k);
      AppliesIffAnchored(before.text, edits[k]);
    } else {
      k := BlamesFirst(source, edits, n - 1);
    }
  }

  /** The patch succeeds exactly when every anchor occurs once in the text at its turn;
      otherwise the error names the first edit whose anchor does not, and says which way. */
  lemma AppliesExactly(source: string, patch: string, edits: seq<Edit>)
    requires !Includes(source, Marker(patch))
    ensures var r := Applied(source, patch, edits);
            && (r.Patched? <==> forall k | 0 <= k < |edits| :: GoodTurn(source, edits, k))
            && (r.NoAnchor? ==> exists k | 0 <= k < |edits| :: Blames(source, edits, k, r))
  {
    assert edits[..|edits|] == edits;
    AppliesIff(source, edits, |edits|);
    if ApplyAll(source, edits).Patched? {
      forall k | 0 <= k < |edits|
        ensures GoodTurn(source, edits, k)
      {
        AllGoodAt(source, edits, |edits|, k);
      }
    } else if forall k | 0 <= k < |edits| :: GoodTurn(source, edits, k) {
      AllGoodIf(source, edits, |edits|);
    }
    if ApplyAll(source, edits).NoAnchor? {
      var k := BlamesFirst(source, edits, |edits|);
    }
  }

  /** What an edit that applies does: its text takes the one place of the anchor, or comes
      right before or right after it, and everything around it stays. */
  lemma EditsInPlace(pre: string, e: Edit, post: string)
    requires Anchored(pre + e.anchor + post, e.anchor)
    ensures ApplyOne(pre + e.anchor + post, e) ==
            match e.insert
            case Replace => Patched(pre + e.text + post)
            case Before => Patched(pre + e.text + e.anchor + post)
            case After => Patched(pre + e.anchor + e.text + post)
  {
    assert pre + (e.text + e.anchor) + post == pre + e.text + e.anchor + post;
    assert pre + (e.anchor + e.text) + post == pre + e.anchor + e.text + post;
    var out := pre + e.anchor + post;
    AppliesIffAnchored(out, e);
    assert out[|pre|..|pre| + |e.anchor|] == e.anchor;
    assert |pre| in Occurrences(out, e.anchor) && IndexOf(out, e.anchor, 0) in Occurrences(out, e.anchor);
    OnlyOne(Occurrences(out, e.anchor), |pre|);
    assert out[..|pre|] == pre && out[|pre| + |e.anchor|..] == post;
  }

  /** Edits apply one after the other, the first of the list first. */
  lemma {:induction false} FirstEditFirst(source: string, e: Edit, rest: seq<Edit>)
    ensures ApplyAll(source, []) == Patched(source)
    ensures ApplyAll(source, [e] + rest) ==
            match ApplyOne(source, e)
            case NoAnchor(n, m) => NoAnchor(n, m)
            case Patched(out) => ApplyAll(out, rest)
  {
    var edits := [e] + rest;
    if rest == [] {
      assert edits[..0] == [];
    } else {
      assert edits[..|rest|] == [e] + rest[..|rest| - 1];
      FirstEditFirst(source, e, rest[..|rest| - 1]);
    }
  }

  /** A text that already has the patch's marker is left alone; any other gets the edits and
      then the marker, on a line below its first line, or at the top if it is a single line. */
  lemma MarkedOnce(source: string, patch: string, edits: seq<Edit>, first: string, rest: string)
    requires '\n' !in first
    ensures var marker := "/* yaac: " + patch + " patch */";
            && ((exists i :: At(source, marker, i)) ==> Applied(source, patch, edits) == Patched(source))
            && ((forall i :: !At(source, marker, i)) ==>
                  match ApplyAll(source, edits)
                  case NoAnchor(n, m) => Applied(source, patch, edits) == NoAnchor(n, m)
                  case Patched(out) =>
                    && (out == first ==> Applied(source, patch, edits) == Patched(marker + "\n" + first))
                    && (out == first + "\n" + rest ==>
                          Applied(source, patch, edits) == Patched(first + "\n" + marker + "\n" + rest)))
  {
    var marker := "/* yaac: " + patch + " patch */";
    assert Includes(source, marker) <==> exists i :: At(source, marker, i);
    FirstLineStays(first, rest, marker);
    assert first + "\n" + (marker + "\n") + rest == first + "\n" + marker + "\n" + rest;
    NoBreak(first);
    assert first[..0] + (marker + "\n") + first[0..] == marker + "\n" + first;
  }

  /** The first line, such as a shebang, stays first, and the marker is the line below it. */
  lemma FirstLineStays(first: string, rest: string, marker: string)
    requires '\n' !in first
    ensures Mark(first + "\n" + rest, marker) == first + "\n" + (marker + "\n") + rest
  {
    var out := first + "\n" + rest;
    assert out[..|first|] == first;
    FirstBreak(out, |first|);
    assert out[..|first| + 1] == first + "\n" && out[|first| + 1..] == rest;
  }

  // -------------------------------------------------------------------- second run

  lemma MarkIncludes(out: string, marker: string)
    ensures Includes(Mark(out, marker), marker)
  {
    var nl := IndexOf(out, "\n", 0) + 1;
    var s := Mark(out, marker);
    assert s[nl..nl + |marker|] == marker;
    assert At(s, marker, nl);
  }

  /** A second run changes nothing, whatever edits it is given. */
  lemma SecondRunIsNoOp(source: string, patch: string, edits: seq<Edit>, again: seq<Edit>)
    requires Applied(source, patch, edits).Patched?
    ensures var done := Applied(source, patch, edits).text;
            Includes(done, Marker(patch)) && Applied(done, patch, again) == Patched(done)
  {
    if !Includes(source, Marker(patch)) {
      MarkIncludes(ApplyAll(source, edits).text, Marker(patch));
    }
  }

  // --------------------------------------------------------------------------- undo

  /** The last offset where `pat` stands, or -1. */
  function LastAt(s: string, pat: string, upTo: nat): (r: int)
    ensures r == -1 ==> forall i | 0 <= i <= upTo :: !At(s, pat, i)
    ensures r != -1 ==> At(s, pat, r) && r <= upTo && forall i | r < i <= upTo :: !At(s, pat, i)
  {
    if At(s, pat, upTo) then upTo else if upTo == 0 then -1 else LastAt(s, pat, upTo - 1)
  }

  /** Takes an insertion out again: after the first occurrence of the anchor, or before the
      last one. */
  function UndoOne(out: string, e: Edit): string {
    match e.insert
    case After =>
      var at := IndexOf(out, e.anchor, 0);
      if at == -1 || at + |e.anchor| + |e.text| > |out| then out
      else out[..at + |e.anchor|] + out[at + |e.anchor| + |e.text|..]
    case Before =>
      var at := LastAt(out, e.anchor, |out|);
      if at < |e.text| then out else out[..at - |e.text|] + out[at..]
    case Replace => out
  }

  function UndoAll(out: string, edits: seq<Edit>): string
    decreases |edits|
  {
    if edits == [] then out else UndoAll(UndoOne(out, edits[|edits| - 1]), edits[..|edits| - 1])
  }

  function Unmark(out: string, marker: string): string {
    var line := marker + "\n";
    if StartsWith(out, line) then out[|line|..]
    else
      var nl := IndexOf(out, "\n", 0) + 1;
      if nl + |line| > |out| then out else out[..nl] + out[nl + |line|..]
  }

  predicate InsertsOnly(edits: seq<Edit>) {
    forall e | e in edits :: !e.insert.Replace?
  }

  /** Text put after a unique anchor makes no earlier occurrence of it. */
  lemma FirstStays(pre: string, anchor: string, text: string, post: string)
    requires forall i | 0 <= i < |pre| :: !At(pre + anchor + post, anchor, i)
    ensures anchor != "" ==> IndexOf(pre + anchor + text + post, anchor, 0) == |pre|
  {
    var before, after := pre + anchor + post, pre + anchor + text + post;
    assert after[|pre|..|pre| + |anchor|] == anchor;
    assert At(after, anchor, |pre|);
    forall i | 0 <= i < |pre|
      ensures !At(after, anchor, i)
    {
      assert after[i..i + |anchor|] == before[i..i + |anchor|] && !At(before, anchor, i);
    }
  }

  /** Text put before a unique anchor makes no later occurrence of it. */
  lemma LastStays(pre: string, anchor: string, text: string, post: string)
    requires forall i | |pre| < i :: !At(pre + anchor + post, anchor, i)
    ensures var s := pre + text + anchor + post; LastAt(s, anchor, |s|) == |pre| + |text|
  {
    var before, after := pre + anchor + post, pre + text + anchor + post;
    var at := |pre| + |text|;
    assert after[at..at + |anchor|] == anchor;
    assert At(after, anchor, at);
    forall i | at < i
      ensures !At(after, anchor, i)
    {
      if i <= |after| - |anchor| {
        var j := i - |text|;
        assert after[i..i + |anchor|] == before[j..j + |anchor|] && !At(before, anchor, j);
      }
    }
  }

  lemma UndoesAfter(pre: string, e: Edit, post: string)
    requires e.insert.After? && e.anchor != ""
    requires forall i | 0 <= i < |pre| :: !At(pre + e.anchor + post, e.anchor, i)
    ensures UndoOne(pre + (e.anchor + e.text) + post, e) == pre + e.anchor + post
  {
    var s := pre + (e.anchor + e.text) + post;
    FirstStays(pre, e.anchor, e.text, post);
    assert s == pre + e.anchor + e.text + post;
    assert s[..|pre| + |e.anchor|] == pre + e.anchor;
  }

  lemma UndoesBefore(pre: string, e: Edit, post: string)
    requires e.insert.Before?
    requires forall i | |pre| < i :: !At(pre + e.anchor + post, e.anchor, i)
    ensures UndoOne(pre + (e.text + e.anchor) + post, e) == pre + e.anchor + post
  {
    var s := pre + (e.text + e.anchor) + post;
    LastStays(pre, e.anchor, e.text, post);
    assert s == pre + e.text + e.anchor + post;
    assert s[|pre| + |e.text|..] == e.anchor + post;
    assert pre + (e.anchor + post) == pre + e.anchor + post;
  }

  lemma UndoesOne(out: string, e: Edit)
    requires ApplyOne(out, e).Patched? && !e.insert.Replace?
    ensures UndoOne(ApplyOne(out, e).text, e) == out
  {
    var at := IndexOf(out, e.anchor, 0);
    var pre, post := out[..at], out[at + |e.anchor|..];
    AppliesIffAnchored(out, e);
    assert out == pre + e.anchor + post;
    if e.insert.After? {
      UndoesAfter(pre, e, post);
    } else {
      UndoesBefore(pre, e, post);
    }
  }

  lemma {:induction false} UndoesAll(source: string, edits: seq<Edit>)
    requires ApplyAll(source, edits).Patched? && InsertsOnly(edits)
    ensures UndoAll(ApplyAll(source, edits).text, edits) == source
  {
    if edits != [] {
      var last := |edits| - 1;
      UndoesOne(ApplyAll(source, edits[..last]).text, edits[last]);
      UndoesAll(source, edits[..last]);
    }
  }

  lemma FirstBreak(s: string, k: nat)
    requires k < |s| && s[k] == '\n' && '\n' !in s[..k]
    ensures IndexOf(s, "\n", 0) == k
  {
    assert At(s, "\n", k);
    assert forall i | 0 <= i < k :: s[i] == s[..k][i];
  }

  lemma NoBreak(s: string)
    ensures IndexOf(s, "\n", 0) == -1 <==> '\n' !in s
    ensures IndexOf(s, "\n", 0) != -1 ==> var k := IndexOf(s, "\n", 0); k < |s| && s[k] == '\n' && '\n' !in s[..k]
  {
    forall i | 0 <= i < |s|
      ensures At(s, "\n", i) <==> s[i] == '\n'
    {
      assert s[i..i + 1] == [s[i]];
    }
  }

  lemma UnmarkFirstLine(first: string, line: string, rest: string)
    requires first != "" && first[|first| - 1] == '\n' && '\n' !in first[..|first| - 1]
    requires line != "" && line[|line| - 1] == '\n' && '\n' !in line[..|line| - 1]
    ensures var s := first + line + rest;
            IndexOf(s, "\n", 0) + 1 == |first| && (StartsWith(s, line) ==> first == line)
  {
    var s := first + line + rest;
    FirstBreak(s, |first| - 1);
    if StartsWith(s, line) {
      assert s[|line| - 1] == line[|line| - 1] && s[..|line| - 1] == line[..|line| - 1];
      FirstBreak(s, |line| - 1);
      assert s[..|first|] == first;
    }
  }

  lemma UnmarkTop(line: string, rest: string, marker: string)
    requires line == marker + "\n"
    ensures Unmark(line + rest, marker) == rest
  {}

  lemma UnmarkBelow(first: string, rest: string, marker: string)
    requires first != "" && first[|first| - 1] == '\n' && '\n' !in first[..|first| - 1] && '\n' !in marker
    ensures Unmark(first + (marker + "\n") + rest, marker) == first + rest
  {
    var line := marker + "\n";
    var s := first + line + rest;
    assert line[..|marker|] == marker;
    UnmarkFirstLine(first, line, rest);
    if StartsWith(s, line) {
      assert s == line + (line + rest);
      UnmarkTop(line, line + rest, marker);
    } else {
      assert s[..|first|] == first && s[|first| + |line|..] == rest;
    }
  }

  /** Dropping the marker line gives the edited text back. */
  lemma UnmarkMark(out: string, marker: string)
    requires '\n' !in marker
    ensures Unmark(Mark(out, marker), marker) == out
  {
    var nl := IndexOf(out, "\n", 0) + 1;
    NoBreak(out);
    assert out == out[..nl] + out[nl..];
    if nl == 0 {
      assert Mark(out, marker) == (marker + "\n") + out;
      UnmarkTop(marker + "\n", out, marker);
    } else {
      assert out[..nl][..nl - 1] == out[..nl - 1];
      UnmarkBelow(out[..nl], out[nl..], marker);
    }
  }

  /** When all edits are insertions, dropping the marker line and undoing the insertions in
      reverse recovers the source. */
  lemma InsertionsAreReversible(source: string, patch: string, edits: seq<Edit>)
    requires '\n' !in patch && !Includes(source, Marker(patch)) && InsertsOnly(edits)
    requires Applied(source, patch, edits).Patched?
    ensures UndoAll(Unmark(Applied(source, patch, edits).text, Marker(patch)), edits) == source
  {
    UnmarkMark(ApplyAll(source, edits).text, Marker(patch));
    UndoesAll(source, edits);
  }
}
