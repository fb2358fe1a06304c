/**
 * The skip, build and mark order of the frontend build
 * (scripts/build-frontend-if-changed.ts, `main`), run again and again with
 * edits in between, where any run may stop at any point.
 */
module BuildCache {
  import opened InputHash

  const MARKER := ".input-hash"
  const INDEX := "index.html"

  type Dist = map<string, string>

  /** The digest, and what a build makes of its inputs. */
  datatype System = System(sha: string -> string, build: Inputs -> Dist)

  /** What a run does after it found `dist` stale: it waits for the bundler to empty `dist`,
      waits for the output, or writes the marker. */
  datatype Stage = Cleaning | Building | Marking

  /** `key` is the hash that the run took of the inputs when it started. */
  datatype Phase = Idle | Running(stage: Stage, key: string)

  datatype State = State(inputs: Inputs, dist: Dist, phase: Phase)

  /** What the script leaves to others. `mayGo(file, standing)`: emptying `dist` may remove
      `file` next while the files `standing` are there. `editable`: the stages during which
      inputs may change. */
  datatype Policy = Policy(mayGo: (string, set<string>) -> bool, editable: set<Stage>)

  datatype Event =
    | Edit(inputs: Inputs)
    | Start(files: seq<string>)
    | Remove(file: string)
    | Emptied
    | Emit(output: Dist)
    | Built
    | WriteMarker(upTo: nat)
    | Stop

  /** White space and line terminators, as `String.trim` has them. */
  predicate Blank(c: char) {
    || c == ' ' || c == '\t' || c == '\n' || c == '\r' || c == '\U{000B}' || c == '\U{000C}'
    || c == '\U{00A0}' || c == '\U{1680}' || '\U{2000}' <= c <= '\U{200A}' || c == '\U{2028}' || c == '\U{2029}'
    || c == '\U{202F}' || c == '\U{205F}' || c == '\U{3000}' || c == '\U{FEFF}'
  }

  predicate AllBlank(s: string) {
    forall c | c in s :: Blank(c)
  }

  /** A text that neither begins nor ends with a blank. */
  predicate Trimmed(s: string) {
    s != "" ==> !Blank(s[0]) && !Blank(s[|s| - 1])
  }

  /** `String.trim`. */
  function Trim(s: string): (r: string)
    ensures |r| <= |s|
  {
    if s != "" && Blank(s[0]) then Trim(s[1..])
    else if s != "" && Blank(s[|s| - 1]) then Trim(s[..|s| - 1])
    else s
  }

  /** Trimming takes off exactly the blanks at either end. */
  lemma {:induction false} TrimExact(left: string, s: string, right: string)
    requires AllBlank(left) && Trimmed(s) && AllBlank(right)
    ensures Trim(left + s + right) == s
    decreases |left| + |right|
  {
    var whole := left + s + right;
    if left != "" {
      assert whole[0] == left[0] && whole[1..] == left[1..] + s + right;
      TrimExact(left[1..], s, right);
    } else if s == "" && right != "" {
      assert whole[0] == right[0] && whole[1..] == left + s + right[1..];
      TrimExact(left, s, right[1..]);
    } else if right != "" {
      var last := |right| - 1;
      assert whole[0] == s[0] && whole[|whole| - 1] == right[last];
      assert whole[..|whole| - 1] == left + s + right[..last];
      TrimExact(left, s, right[..last]);
    }
  }

  /** The hash in the marker, or the empty string without one. */
  function Cached(dist: Dist): string {
    if MARKER in dist then Trim(dist[MARKER]) else ""
  }

  /** The run would reuse `dist`. */
  predicate Skips(sys: System, files: seq<string>, st: State)
    requires Lists(files, st.inputs)
  {
    Cached(st.dist) == KeyOf(sys.sha, files, st.inputs) && INDEX in st.dist
  }

  function Output(dist: Dist): Dist {
    dist - {MARKER}
  }

  predicate At(st: State, stage: Stage) {
    st.phase.Running? && st.phase.stage == stage
  }

  predicate Next(sys: System, policy: Policy, st: State, e: Event, st': State) {
    match e
    case Edit(inputs) =>
      (st.phase.Running? ==> st.phase.stage in policy.editable) && st' == st.(inputs := inputs)
    case Start(files) =>
      && st.phase.Idle? && Lists(files, st.inputs)
      && st' == if Skips(sys, files, st) then st else st.(phase := Running(Cleaning, KeyOf(sys.sha, files, st.inputs)))
    case Remove(file) =>
      && At(st, Cleaning) && file in st.dist && policy.mayGo(file, st.dist.Keys)
      && st' == st.(dist := st.dist - {file})
    case Emptied =>
      At(st, Cleaning) && st.dist == map[] && st' == st.(phase := Running(Building, st.phase.key))
    case Emit(output) =>
      At(st, Building) && MARKER !in output && st' == st.(dist := st.dist + output)
    case Built =>
      At(st, Building) && st.dist == sys.build(st.inputs) && st' == st.(phase := Running(Marking, st.phase.key))
    case WriteMarker(upTo) =>
      && At(st, Marking) && upTo <= |st.phase.key| + 1
      && st' == State(st.inputs, st.dist[MARKER := (st.phase.key + "\n")[..upTo]],
                      if upTo == |st.phase.key| + 1 then Idle else st.phase)
    case Stop => st' == st.(phase := Idle)
  }

  ghost predicate IsRun(sys: System, policy: Policy, states: seq<State>, events: seq<Event>) {
    && |states| == |events| + 1
    && forall i | 0 <= i < |events| :: Next(sys, policy, states[i], events[i], states[i + 1])
  }

  // ------------------------------------------------------------------ assumptions

  /** A digest as the marker holds it: 64 hexadecimal digits. */
  predicate IsDigest(s: string) {
    |s| == 64 && forall c | c in s :: '0' <= c <= '9' || 'a' <= c <= 'f'
  }

  /** Digests are hexadecimal, and no two of the inputs that ever occur share a key. */
  ghost predicate Sound(sys: System, all: set<Inputs>) {
    && (forall s :: IsDigest(sys.sha(s)))
    && (forall i, j, f, g | i in all && j in all && Lists(f, i) && Lists(g, j) ::
          KeyOf(sys.sha, f, i) == KeyOf(sys.sha, g, j) <==> i == j)
    && (forall i | i in all :: MARKER !in sys.build(i))
  }

  ghost predicate Within(states: seq<State>, all: set<Inputs>) {
    forall k | 0 <= k < |states| :: states[k].inputs in all
  }

  ghost predicate KeyFor(sys: System, key: string, i: Inputs) {
    exists f :: Lists(f, i) && key == KeyOf(sys.sha, f, i)
  }

  // -------------------------------------------------------------------- invariant

  /** A marker that names some inputs, and an index, stand beside the complete output. */
  ghost predicate Honest(sys: System, all: set<Inputs>, dist: Dist) {
    forall i | i in all && MARKER in dist && INDEX in dist && KeyFor(sys, Cached(dist), i) ::
      Output(dist) == sys.build(i)
  }

  /** The run writes the marker of `i`, whose output stands in `dist`. */
  ghost predicate Marks(sys: System, st: State, i: Inputs) {
    st.phase.Running? && KeyFor(sys, st.phase.key, i) && Output(st.dist) == sys.build(i)
  }

  ghost predicate Invariant(sys: System, all: set<Inputs>, st: State) {
    && Honest(sys, all, st.dist)
    && (At(st, Cleaning) || At(st, Building) ==> KeyFor(sys, st.phase.key, st.inputs))
    && (At(st, Building) ==> MARKER !in st.dist)
    && (At(st, Marking) ==> exists i :: i in all && Marks(sys, st, i))
  }

  /** From a complete `dist`, marker included, no output file but the index may go first. */
  ghost predicate Guarded(sys: System, all: set<Inputs>, policy: Policy) {
    forall i, file | i in all && INDEX in sys.build(i) && file in sys.build(i) && file != INDEX ::
      !policy.mayGo(file, sys.build(i).Keys + {MARKER})
  }

  /** No input changes before the output is complete. */
  predicate Settled(policy: Policy) {
    policy.editable <= {Marking}
  }

  lemma TrimDigest(s: string)
    requires IsDigest(s)
    ensures Trim(s) == s && Trim(s + "\n") == s
  {
    assert s[0] in s && s[|s| - 1] in s;
    assert (s + "\n")[..|s|] == s;
  }

  lemma KeyIsDigest(sys: System, all: set<Inputs>, key: string, i: Inputs)
    requires Sound(sys, all) && KeyFor(sys, key, i)
    ensures IsDigest(key)
  {}

  lemma KeysMatch(sys: System, all: set<Inputs>, key: string, i: Inputs, j: Inputs)
    requires Sound(sys, all) && i in all && j in all && KeyFor(sys, key, i) && KeyFor(sys, key, j)
    ensures i == j
  {
    var f :| Lists(f, i) && key == KeyOf(sys.sha, f, i);
    var g :| Lists(g, j) && key == KeyOf(sys.sha, g, j);
  }

  /** Even a marker cut short by a stop names no inputs but those that were built. */
  lemma MarkerIsHonest(sys: System, all: set<Inputs>, key: string, built: Inputs, upTo: nat, i: Inputs)
    requires Sound(sys, all) && built in all && i in all
    requires KeyFor(sys, key, built) && upTo <= |key| + 1
    requires KeyFor(sys, Trim((key + "\n")[..upTo]), i)
    ensures i == built
  {
    var written := (key + "\n")[..upTo];
    KeyIsDigest(sys, all, key, built);
    KeyIsDigest(sys, all, Trim(written), i);
    TrimDigest(key);
    if upTo == |key| {
      assert written == key;
    } else {
      assert upTo == |key| + 1 && written == key + "\n";
    }
    KeysMatch(sys, all, key, i, built);
  }

  lemma MarkedIsHonest(sys: System, all: set<Inputs>, dist: Dist, key: string, built: Inputs, upTo: nat)
    requires Sound(sys, all) && built in all && KeyFor(sys, key, built) && Output(dist) == sys.build(built)
    requires upTo <= |key| + 1
    ensures var dist1 := dist[MARKER := (key + "\n")[..upTo]];
            Output(dist1) == sys.build(built) && Honest(sys, all, dist1)
  {
    var dist1 := dist[MARKER := (key + "\n")[..upTo]];
    assert Output(dist1) == Output(dist);
    forall i | i in all && KeyFor(sys, Cached(dist1), i)
      ensures i == built
    {
      MarkerIsHonest(sys, all, key, built, upTo, i);
    }
  }

  lemma MarkKeeps(sys: System, all: set<Inputs>, policy: Policy, st: State, upTo: nat, st': State)
    requires Sound(sys, all) && Invariant(sys, all, st) && Next(sys, policy, st, WriteMarker(upTo), st')
    ensures Invariant(sys, all, st')
  {
    var built :| built in all && Marks(sys, st, built);
    MarkedIsHonest(sys, all, st.dist, st.phase.key, built, upTo);
    assert At(st', Marking) ==> Marks(sys, st', built);
  }

  lemma GuardedFile(sys: System, all: set<Inputs>, policy: Policy, dist: Dist, i: Inputs, file: string)
    requires Guarded(sys, all, policy) && i in all && Output(dist) == sys.build(i)
    requires MARKER in dist && INDEX in dist && file in dist && policy.mayGo(file, dist.Keys)
    ensures file == MARKER || file == INDEX
  {
    assert dist.Keys == Output(dist).Keys + {MARKER};
    assert INDEX in Output(dist);
  }

  /** Emptying never breaks up a complete `dist` that would still be reused. */
  lemma RemoveKeeps(sys: System, all: set<Inputs>, policy: Policy, st: State, file: string, st': State)
    requires Sound(sys, all) && Guarded(sys, all, policy)
    requires Invariant(sys, all, st) && Next(sys, policy, st, Remove(file), st')
    ensures Invariant(sys, all, st')
  {
    forall i | i in all && MARKER in st.dist && INDEX in st.dist && KeyFor(sys, Cached(st.dist), i)
      ensures file == MARKER || file == INDEX
    {
      GuardedFile(sys, all, policy, st.dist, i, file);
    }
    assert MARKER in st'.dist ==> Cached(st'.dist) == Cached(st.dist);
  }

  lemma EditKeeps(sys: System, all: set<Inputs>, policy: Policy, st: State, inputs: Inputs, st': State)
    requires Settled(policy) && Invariant(sys, all, st) && Next(sys, policy, st, Edit(inputs), st')
    ensures Invariant(sys, all, st')
  {
    if At(st', Marking) {
      var i :| i in all && Marks(sys, st, i);
      assert Marks(sys, st', i);
    }
  }

  lemma BuiltKeeps(sys: System, all: set<Inputs>, policy: Policy, st: State, st': State)
    requires Invariant(sys, all, st) && st.inputs in all && Next(sys, policy, st, Built, st')
    ensures Invariant(sys, all, st')
  {
    assert Output(st.dist) == st.dist;
    assert Marks(sys, st', st.inputs);
  }

  lemma StartKeeps(sys: System, all: set<Inputs>, policy: Policy, st: State, files: seq<string>, st': State)
    requires Invariant(sys, all, st) && Next(sys, policy, st, Start(files), st')
    ensures Invariant(sys, all, st')
  {
    assert KeyFor(sys, KeyOf(sys.sha, files, st.inputs), st.inputs);
  }

  lemma StepKeeps(sys: System, all: set<Inputs>, policy: Policy, st: State, e: Event, st': State)
    requires Sound(sys, all) && Guarded(sys, all, policy) && Settled(policy)
    requires st.inputs in all && Invariant(sys, all, st) && Next(sys, policy, st, e, st')
    ensures Invariant(sys, all, st')
  {
    match e
    case Edit(inputs) => EditKeeps(sys, all, policy, st, inputs, st');
    case Start(files) => StartKeeps(sys, all, policy, st, files, st');
    case Remove(file) => RemoveKeeps(sys, all, policy, st, file, st');
    case Built => BuiltKeeps(sys, all, policy, st, st');
    case WriteMarker(upTo) => MarkKeeps(sys, all, policy, st, upTo, st');
    case _ =>
  }

  lemma {:induction false} RunKeeps(sys: System, all: set<Inputs>, policy: Policy, states: seq<State>,
                                    events: seq<Event>, k: nat)
    requires Sound(sys, all) && Guarded(sys, all, policy) && Settled(policy)
    requires IsRun(sys, policy, states, events) && Within(states, all) && k < |states|
    requires Starts(sys, all, states[0])
    ensures Invariant(sys, all, states[k])
  {
    if k > 0 {
      RunKeeps(sys, all, policy, states, events, k - 1);
      var st, e, st' := states[k - 1], events[k - 1], states[k];
      assert Next(sys, policy, st, e, st');
      StepKeeps(sys, all, policy, st, e, st');
    }
  }

  /** No run is under way and `dist` is honest, as in a checkout without a marker. */
  ghost predicate Starts(sys: System, all: set<Inputs>, st: State) {
    st.phase.Idle? && Honest(sys, all, st.dist)
  }

  /** A skipped build faces the complete output of the current inputs. */
  ghost predicate SkipsRightly(sys: System, st: State) {
    st.phase.Idle? ==>
      forall f | Lists(f, st.inputs) && Skips(sys, f, st) :: Output(st.dist) == sys.build(st.inputs)
  }

  lemma HonestSkipsRightly(sys: System, all: set<Inputs>, st: State)
    requires Sound(sys, all) && st.inputs in all && Honest(sys, all, st.dist)
    ensures SkipsRightly(sys, st)
  {
    forall f | Lists(f, st.inputs) && Skips(sys, f, st)
      ensures Output(st.dist) == sys.build(st.inputs)
    {
      assert KeyFor(sys, KeyOf(sys.sha, f, st.inputs), st.inputs);
      if MARKER !in st.dist {
        KeyIsDigest(sys, all, "", st.inputs);
      }
    }
  }

  /** Over any run of builds, edits and stops, a skipped build always faces a complete
      `dist` of the current inputs. */
  lemma SkippedBuildsAreComplete(sys: System, all: set<Inputs>, policy: Policy, states: seq<State>,
                                 events: seq<Event>, k: nat)
    requires Sound(sys, all) && Guarded(sys, all, policy) && Settled(policy)
    requires IsRun(sys, policy, states, events) && Within(states, all) && Starts(sys, all, states[0])
    requires k < |states|
    ensures SkipsRightly(sys, states[k])
  {
    RunKeeps(sys, all, policy, states, events, k);
    HonestSkipsRightly(sys, all, states[k]);
  }

  // ------------------------------------------------------------ one undisturbed run

  /** A checkout and its `dist`. */
  class Workspace {
    const sys: System
    var inputs: Inputs
    var dist: Dist

    constructor (sys: System, inputs: Inputs, dist: Dist)
      ensures this.sys == sys && this.inputs == inputs && this.dist == dist
    {
      this.sys, this.inputs, this.dist := sys, inputs, dist;
    }

    /** `main` without a stop or an edit: skips or builds, then marks. */
    method BuildIfChanged(files: seq<string>) returns (built: bool)
      requires Lists(files, inputs)
      modifies this`dist
      ensures var cached := if ".input-hash" in old(dist) then Trim(old(dist)[".input-hash"]) else "";
              built <==> !(cached == KeyOf(sys.sha, files, inputs) && "index.html" in old(dist))
      ensures dist == if built then sys.build(inputs)[MARKER := KeyOf(sys.sha, files, inputs) + "\n"] else old(dist)
    {
      var inputHash := HashInputs(sys.sha, files, inputs);
      var cached := Cached(dist);
      var distReady := INDEX in dist;
      if cached == inputHash && distReady {
        return false;
      }
      dist := map[];
      dist := sys.build(inputs);
      dist := dist[MARKER := inputHash + "\n"];
      return true;
    }
  }

  lemma FinishedSkips(sys: System, all: set<Inputs>, st: State, i: Inputs, files: seq<string>)
    requires Sound(sys, all) && Lists(files, i) && st.inputs == i
    requires MARKER in st.dist && st.dist[MARKER] == KeyOf(sys.sha, files, i) + "\n" && INDEX in st.dist
    ensures Skips(sys, files, st)
  {
    TrimDigest(KeyOf(sys.sha, files, i));
  }

  lemma FinishedIsHonest(sys: System, all: set<Inputs>, i: Inputs, f: seq<string>)
    requires Sound(sys, all) && i in all && Lists(f, i)
    ensures Honest(sys, all, sys.build(i)[MARKER := KeyOf(sys.sha, f, i) + "\n"])
  {
    var key := KeyOf(sys.sha, f, i);
    var dist := sys.build(i)[MARKER := key + "\n"];
    TrimDigest(key);
    assert Output(dist) == sys.build(i);
    forall j | j in all && KeyFor(sys, Cached(dist), j)
      ensures j == i
    {
      assert KeyFor(sys, key, i);
      KeysMatch(sys, all, key, i, j);
    }
  }

  /** After a run of `main` from an honest state, `dist` is the complete output of the
      inputs and stays honest, and a second run skips. */
  lemma BuildLeavesComplete(sys: System, all: set<Inputs>, before: Dist, after: Dist, i: Inputs,
                           files: seq<string>, again: seq<string>)
    requires Sound(sys, all) && i in all && INDEX in sys.build(i) && Lists(files, i) && Lists(again, i)
    requires Honest(sys, all, before)
    requires after == if Skips(sys, files, State(i, before, Idle)) then before
                      else sys.build(i)[MARKER := KeyOf(sys.sha, files, i) + "\n"]
    ensures Output(after) == sys.build(i) && Honest(sys, all, after)
    ensures Skips(sys, again, State(i, after, Idle))
  {
    var key := KeyOf(sys.sha, files, i);
    assert key == KeyOf(sys.sha, again, i);
    if Skips(sys, files, State(i, before, Idle)) {
      assert KeyFor(sys, key, i);
      if MARKER !in before {
        KeyIsDigest(sys, all, "", i);
      }
    } else {
      FinishedIsHonest(sys, all, i, files);
      FinishedSkips(sys, all, State(i, after, Idle), i, files);
    }
  }
}
