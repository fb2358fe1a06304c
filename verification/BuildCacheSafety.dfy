/**
 * Exactly when the build cache is safe: what the bundler may remove before
 * the marker, and when inputs may change.
 */
module BuildCacheSafety {
  import opened InputHash
  import opened BuildCache

  /** No start leads to a wrong skip. */
  ghost predicate Safe(sys: System, all: set<Inputs>, policy: Policy) {
    forall states, events |
      IsRun(sys, policy, states, events) && Within(states, all) && Starts(sys, all, states[0]) ::
      forall k | 0 <= k < |states| :: SkipsRightly(sys, states[k])
  }

  /** Every set of inputs has a walk. */
  lemma {:induction false} SetHasWalk(s: set<string>) returns (files: seq<string>)
    ensures multiset(files) == multiset(s)
    decreases |s|
  {
    if s == {} {
      files := [];
    } else {
      var x :| x in s;
      var rest := SetHasWalk(s - {x});
      files := rest + [x];
      assert multiset(s) == multiset(s - {x}) + multiset{x};
    }
  }

  /** A run of given states that ends in a wrong skip. */
  lemma WrongSkip(sys: System, all: set<Inputs>, policy: Policy, states: seq<State>, events: seq<Event>,
                  last: State, f: seq<string>)
    requires IsRun(sys, policy, states, events) && Within(states, all) && Starts(sys, all, states[0])
    requires states[|events|] == last && last.phase.Idle? && Lists(f, last.inputs) && Skips(sys, f, last)
    requires Output(last.dist) != sys.build(last.inputs)
    ensures !Safe(sys, all, policy)
  {
    assert !SkipsRightly(sys, states[|events|]);
  }

  lemma DifferentKeys(sys: System, all: set<Inputs>, i: Inputs, j: Inputs, f: seq<string>, g: seq<string>, st: State)
    requires Sound(sys, all) && i in all && j in all && i != j && Lists(f, i) && Lists(g, j)
    requires st.inputs == j && MARKER in st.dist && st.dist[MARKER] == KeyOf(sys.sha, f, i) + "\n"
    ensures !Skips(sys, g, st)
  {
    TrimDigest(KeyOf(sys.sha, f, i));
  }

  // ------------------------------------------------------ a file that goes too early

  /** An edit, a start, one file removed, a stop, and the edit taken back. */
  function Interrupted(dist: Dist, i: Inputs, j: Inputs, key: string, asset: string): seq<State> {
    var left := dist - {asset};
    [State(i, dist, Idle), State(j, dist, Idle), State(j, dist, Running(Cleaning, key)),
     State(j, left, Running(Cleaning, key)), State(j, left, Idle), State(i, left, Idle)]
  }

  lemma InterruptedRuns(sys: System, policy: Policy, dist: Dist, i: Inputs, j: Inputs, g: seq<string>, asset: string)
    requires Lists(g, j) && !Skips(sys, g, State(j, dist, Idle))
    requires asset in dist && policy.mayGo(asset, dist.Keys)
    ensures IsRun(sys, policy, Interrupted(dist, i, j, KeyOf(sys.sha, g, j), asset),
                  [Edit(j), Start(g), Remove(asset), Stop, Edit(i)])
  {}

  lemma InterruptedWrongly(sys: System, all: set<Inputs>, policy: Policy, dist: Dist, i: Inputs, j: Inputs,
                           key: string, asset: string, events: seq<Event>, f: seq<string>)
    requires var states := Interrupted(dist, i, j, key, asset);
             IsRun(sys, policy, states, events) && Starts(sys, all, states[0])
    requires i in all && j in all && Lists(f, i) && Skips(sys, f, State(i, dist - {asset}, Idle))
    requires asset in sys.build(i)
    ensures !Safe(sys, all, policy)
  {
    var states := Interrupted(dist, i, j, key, asset);
    assert asset !in Output(dist - {asset});
    WrongSkip(sys, all, policy, states, events, State(i, dist - {asset}, Idle), f);
  }

  /** If an output file other than the index may go from a complete `dist` first, stopping
      there and going back to the old inputs skips with that file missing. */
  lemma MarkerOrIndexMustGoFirst(sys: System, all: set<Inputs>, policy: Policy, i: Inputs, j: Inputs, asset: string)
    requires Sound(sys, all) && i in all && j in all && i != j
    requires INDEX in sys.build(i) && asset in sys.build(i) && asset != INDEX
    requires policy.mayGo(asset, sys.build(i).Keys + {MARKER})
    ensures !Safe(sys, all, policy)
  {
    var f := SetHasWalk(i.Keys);
    var g := SetHasWalk(j.Keys);
    var dist := sys.build(i)[MARKER := KeyOf(sys.sha, f, i) + "\n"];
    assert dist.Keys == sys.build(i).Keys + {MARKER} && asset != MARKER;
    var events := [Edit(j), Start(g), Remove(asset), Stop, Edit(i)];
    assert IsRun(sys, policy, Interrupted(dist, i, j, KeyOf(sys.sha, g, j), asset), events) by {
      DifferentKeys(sys, all, i, j, f, g, State(j, dist, Idle));
      InterruptedRuns(sys, policy, dist, i, j, g, asset);
    }
    assert Starts(sys, all, State(i, dist, Idle)) by { FinishedIsHonest(sys, all, i, f); }
    assert Skips(sys, f, State(i, dist - {asset}, Idle)) by {
      FinishedSkips(sys, all, State(i, dist - {asset}, Idle), i, f);
    }
    InterruptedWrongly(sys, all, policy, dist, i, j, KeyOf(sys.sha, g, j), asset, events, f);
  }

  // ------------------------------------------------------------- an edit that is missed

  /** Started on `i` in an empty checkout, edited to `j` while cleaning or while building,
      built, marked, and edited back. */
  function Missed(key: string, i: Inputs, j: Inputs, dist: Dist, stage: Stage): seq<State> {
    [State(i, map[], Idle), State(i, map[], Running(Cleaning, key)),
     State(if stage == Cleaning then j else i, map[], Running(stage, key)), State(j, map[], Running(Building, key)),
     State(j, dist, Running(Building, key)), State(j, dist, Running(Marking, key)),
     State(j, dist[MARKER := key + "\n"], Idle), State(i, dist[MARKER := key + "\n"], Idle)]
  }

  function MissedEvents(key: string, i: Inputs, j: Inputs, f: seq<string>, dist: Dist, stage: Stage): seq<Event> {
    [Start(f), if stage == Cleaning then Edit(j) else Emptied, if stage == Cleaning then Emptied else Edit(j),
     Emit(dist), Built, WriteMarker(|key| + 1), Edit(i)]
  }

  /** Emptying an empty `dist` and an edit, in either order. */
  lemma MissedEdit(sys: System, policy: Policy, i: Inputs, j: Inputs, f: seq<string>, key: string, stage: Stage)
    requires stage in policy.editable && stage != Marking
    ensures var states := Missed(key, i, j, sys.build(j), stage);
            var events := MissedEvents(key, i, j, f, sys.build(j), stage);
            && Next(sys, policy, states[1], events[1], states[2])
            && Next(sys, policy, states[2], events[2], states[3])
  {
    assert Next(sys, policy, State(i, map[], Running(stage, key)), Edit(j), State(j, map[], Running(stage, key)));
  }

  /** Building and marking. */
  lemma MissedFinish(sys: System, policy: Policy, i: Inputs, j: Inputs, f: seq<string>, key: string, stage: Stage)
    requires MARKER !in sys.build(j)
    ensures var states := Missed(key, i, j, sys.build(j), stage);
            var events := MissedEvents(key, i, j, f, sys.build(j), stage);
            forall k | 3 <= k < 7 :: Next(sys, policy, states[k], events[k], states[k + 1])
  {
    var states := Missed(key, i, j, sys.build(j), stage);
    var events := MissedEvents(key, i, j, f, sys.build(j), stage);
    assert (key + "\n")[..|key| + 1] == key + "\n";
    assert map[] + sys.build(j) == sys.build(j);
    assert Next(sys, policy, states[3], events[3], states[4]);
    assert Next(sys, policy, states[4], events[4], states[5]);
    assert Next(sys, policy, states[5], events[5], states[6]);
  }

  lemma MissedRuns(sys: System, policy: Policy, i: Inputs, j: Inputs, f: seq<string>, stage: Stage)
    requires Lists(f, i) && stage in policy.editable && stage != Marking && MARKER !in sys.build(j)
    ensures var key := KeyOf(sys.sha, f, i);
            IsRun(sys, policy, Missed(key, i, j, sys.build(j), stage),
                  MissedEvents(key, i, j, f, sys.build(j), stage))
  {
    var key := KeyOf(sys.sha, f, i);
    MissedEdit(sys, policy, i, j, f, key, stage);
    MissedFinish(sys, policy, i, j, f, key, stage);
  }

  lemma MissedWrongly(sys: System, all: set<Inputs>, policy: Policy, i: Inputs, j: Inputs, key: string, stage: Stage,
                      events: seq<Event>, f: seq<string>)
    requires IsRun(sys, policy, Missed(key, i, j, sys.build(j), stage), events)
    requires i in all && j in all && Lists(f, i) && MARKER !in sys.build(j) && sys.build(i) != sys.build(j)
    requires Skips(sys, f, State(i, sys.build(j)[MARKER := key + "\n"], Idle))
    ensures !Safe(sys, all, policy)
  {
    var dist := sys.build(j);
    var states := Missed(key, i, j, dist, stage);
    assert Output(dist[MARKER := key + "\n"]) == dist;
    WrongSkip(sys, all, policy, states, events, State(i, dist[MARKER := key + "\n"], Idle), f);
  }

  /** If inputs may change before they are built, the marker names inputs that were not. */
  lemma InputsMustSettle(sys: System, all: set<Inputs>, policy: Policy, i: Inputs, j: Inputs, stage: Stage)
    requires Sound(sys, all) && i in all && j in all && stage in policy.editable && stage != Marking
    requires INDEX in sys.build(j) && sys.build(i) != sys.build(j)
    ensures !Safe(sys, all, policy)
  {
    var f := SetHasWalk(i.Keys);
    var key, dist := KeyOf(sys.sha, f, i), sys.build(j);
    MissedRuns(sys, policy, i, j, f, stage);
    assert Skips(sys, f, State(i, dist[MARKER := key + "\n"], Idle)) by {
      FinishedSkips(sys, all, State(i, dist[MARKER := key + "\n"], Idle), i, f);
    }
    MissedWrongly(sys, all, policy, i, j, key, stage, MissedEvents(key, i, j, f, dist, stage), f);
  }

  /** Where some two inputs have different outputs, the cache is safe if and only if no
      output file but the index may go first from a complete `dist`, and inputs change
      only while no run is under way or the marker is being written. */
  lemma SafeIff(sys: System, all: set<Inputs>, policy: Policy, i: Inputs, j: Inputs)
    requires Sound(sys, all) && i in all && j in all
    requires INDEX in sys.build(j) && sys.build(i) != sys.build(j)
    ensures Safe(sys, all, policy) <==> Guarded(sys, all, policy) && Settled(policy)
  {
    if !Guarded(sys, all, policy) {
      var k, asset :| k in all && INDEX in sys.build(k) && asset in sys.build(k) && asset != INDEX
                      && policy.mayGo(asset, sys.build(k).Keys + {MARKER});
      MarkerOrIndexMustGoFirst(sys, all, policy, k, if k == i then j else i, asset);
    } else if !Settled(policy) {
      var stage :| stage in policy.editable && stage != Marking;
      InputsMustSettle(sys, all, policy, i, j, stage);
    } else {
      forall states, events, k |
        IsRun(sys, policy, states, events) && Within(states, all) && Starts(sys, all, states[0]) && 0 <= k < |states|
        ensures SkipsRightly(sys, states[k])
      {
        SkippedBuildsAreComplete(sys, all, policy, states, events, k);
      }
    }
  }

  /** An order of removal is guarded whatever a build makes if and only if, from a `dist`
      with marker and index, nothing goes before one of the two. */
  lemma GuardedForAllBuilds(sha: string -> string, i: Inputs, policy: Policy)
    ensures (forall build: Inputs -> Dist :: MARKER !in build(i) ==> Guarded(System(sha, build), {i}, policy))
       <==> (forall file, standing: set<string> | MARKER in standing && INDEX in standing && file in standing ::
               file != MARKER && file != INDEX ==> !policy.mayGo(file, standing))
  {
    forall file, standing: set<string> |
      && MARKER in standing && INDEX in standing && file in standing && file != MARKER && file != INDEX
      && forall build: Inputs -> Dist :: MARKER !in build(i) ==> Guarded(System(sha, build), {i}, policy)
      ensures !policy.mayGo(file, standing)
    {
      var dist: Dist := map x | x in standing && x != MARKER :: "";
      var build := (inputs: Inputs) => dist;
      assert Guarded(System(sha, build), {i}, policy);
      assert build(i).Keys + {MARKER} == standing;
    }
  }
}
