/**
 * First come, first served: which dependency gets the top level, and in
 * which order locations are queued. Both are told from the placed lists
 * alone, read in the order in which their locations were placed.
 */
module PlacementOrder {
  import opened Text
  import opened NodeModules
  import opened Lockfile
  import opened Placement
  import opened PlacementTheorems

  /** The dependent at `from` asks for `dep`. */
  datatype Request = Request(from: Loc, dep: Dep)

  /** The requests of one placed list, in its order. */
  function Requests(from: Loc, deps: seq<Dep>): (r: seq<Request>)
    ensures |r| == |deps| && forall i | 0 <= i < |deps| :: r[i] == Request(from, deps[i])
  {
    seq(|deps|, i requires 0 <= i < |deps| => Request(from, deps[i]))
  }

  /** The lists placed at `log`, one after the other. */
  function History(placed: map<Loc, seq<Dep>>, log: seq<Loc>): seq<Request> {
    if log == [] then []
    else
      var l := log[|log| - 1];
      History(placed, log[..|log| - 1]) + if l in placed then Requests(l, placed[l]) else []
  }

  function Locs(queue: seq<Item>): (r: seq<Loc>)
    ensures |r| == |queue| && forall i | 0 <= i < |queue| :: r[i] == queue[i].loc
  {
    seq(|queue|, i requires 0 <= i < |queue| => queue[i].loc)
  }

  /** The request is one for the entry `dep` at `l`: at the top level any for the name,
      elsewhere one by the dependent around it for this very dependency. */
  predicate AsksFor(r: Request, l: Loc, dep: Dep) {
    if l == In(Root, dep.name) then r.dep.name == dep.name else r.from == Parent(l) && r.dep == dep
  }

  /** The history first asks for the entry `dep` at `l` at `k`, or never if that is its length. */
  ghost predicate AskedAt(history: seq<Request>, l: Loc, dep: Dep, k: nat) {
    && k <= |history|
    && (k < |history| ==> AsksFor(history[k], l, dep))
    && (forall i | 0 <= i < k :: !AsksFor(history[i], l, dep))
  }

  lemma {:induction false} AskedSomewhere(history: seq<Request>, l: Loc, dep: Dep)
    ensures exists k :: AskedAt(history, l, dep, k)
  {
    if history == [] {
      assert AskedAt(history, l, dep, 0);
    } else {
      var n := |history| - 1;
      AskedSomewhere(history[..n], l, dep);
      var k: nat :| AskedAt(history[..n], l, dep, k);
      assert forall i | 0 <= i < k :: history[i] == history[..n][i];
      assert AskedAt(history, l, dep, if k < n || AsksFor(history[n], l, dep) then k else n + 1);
    }
  }

  ghost function FirstAsked(history: seq<Request>, l: Loc, dep: Dep): (k: nat)
    ensures AskedAt(history, l, dep, k)
  {
    AskedSomewhere(history, l, dep);
    var k :| AskedAt(history, l, dep, k);
    k
  }

  /** An entry is the first dependency that was asked for in its place. */
  ghost predicate FirstServed(tree: Tree, history: seq<Request>, l: Loc)
    requires l in tree
  {
    var k := FirstAsked(history, l, tree[l]);
    k < |history| && history[k].dep == tree[l]
  }

  /** Locations come in the order in which they were first asked for, the root before all. */
  ghost predicate InOrder(tree: Tree, history: seq<Request>, order: seq<Loc>) {
    && order != [] && order[0] == Root
    && (forall i | 0 < i < |order| :: order[i] in tree)
    && (forall i, j | 0 < i < j < |order| ::
          FirstAsked(history, order[i], tree[order[i]]) < FirstAsked(history, order[j], tree[order[j]]))
  }

  /** The tree and the order of its locations are told by the history of requests. */
  ghost predicate Chronicle(tree: Tree, history: seq<Request>, order: seq<Loc>) {
    AllServed(tree, history) && AllAtTop(tree, history) && InOrder(tree, history, order)
  }

  ghost predicate AllServed(tree: Tree, history: seq<Request>) {
    forall l | l in tree :: l != Root && FirstServed(tree, history, l)
  }

  /** Every name that was asked for has an entry at the top level. */
  ghost predicate AllAtTop(tree: Tree, history: seq<Request>) {
    forall i | 0 <= i < |history| :: In(Root, history[i].dep.name) in tree
  }

  // ----------------------------------------------------------------- one more request

  lemma FirstAskedStays(history: seq<Request>, r: Request, l: Loc, dep: Dep)
    ensures FirstAsked(history + [r], l, dep) ==
            if FirstAsked(history, l, dep) < |history| || AsksFor(r, l, dep) then FirstAsked(history, l, dep)
            else |history| + 1
  {
    var k := FirstAsked(history, l, dep);
    assert forall i | 0 <= i < |history| :: (history + [r])[i] == history[i];
    assert AskedAt(history + [r], l, dep, if k < |history| || AsksFor(r, l, dep) then k else |history| + 1);
  }

  lemma FirstServedStays(tree: Tree, tree1: Tree, history: seq<Request>, r: Request, l: Loc)
    requires l in tree && l in tree1 && tree1[l] == tree[l] && FirstServed(tree, history, l)
    ensures FirstServed(tree1, history + [r], l)
    ensures FirstAsked(history + [r], l, tree1[l]) == FirstAsked(history, l, tree[l]) < |history|
  {
    FirstAskedStays(history, r, l, tree[l]);
  }

  lemma ServedStay(tree: Tree, tree1: Tree, history: seq<Request>, r: Request)
    requires AllServed(tree, history) && forall l | l in tree :: l in tree1 && tree1[l] == tree[l]
    requires forall l | l in tree1 && l !in tree :: l != Root && FirstServed(tree1, history + [r], l)
    ensures AllServed(tree1, history + [r])
  {
    forall l | l in tree1
      ensures l != Root && FirstServed(tree1, history + [r], l)
    {
      if l in tree {
        FirstServedStays(tree, tree1, history, r, l);
      }
    }
  }

  lemma AtTopStay(tree: Tree, tree1: Tree, history: seq<Request>, r: Request)
    requires AllAtTop(tree, history) && tree.Keys <= tree1.Keys && In(Root, r.dep.name) in tree1
    ensures AllAtTop(tree1, history + [r])
  {}

  lemma OrderStays(tree: Tree, tree1: Tree, history: seq<Request>, order: seq<Loc>, r: Request)
    requires AllServed(tree, history) && InOrder(tree, history, order)
    requires forall l | l in tree :: l in tree1 && tree1[l] == tree[l]
    ensures InOrder(tree1, history + [r], order)
    ensures forall i | 0 < i < |order| :: FirstAsked(history + [r], order[i], tree1[order[i]]) < |history|
  {
    forall i | 0 < i < |order|
      ensures order[i] in tree1
      ensures FirstAsked(history + [r], order[i], tree1[order[i]])
           == FirstAsked(history, order[i], tree[order[i]]) < |history|
    {
      FirstServedStays(tree, tree1, history, r, order[i]);
    }
  }

  /** A request that adds no entry. */
  lemma ServedBefore(tree: Tree, history: seq<Request>, order: seq<Loc>, r: Request)
    requires Chronicle(tree, history, order) && In(Root, r.dep.name) in tree
    ensures Chronicle(tree, history + [r], order)
  {
    ServedStay(tree, tree, history, r);
    AtTopStay(tree, tree, history, r);
    OrderStays(tree, tree, history, order, r);
  }

  lemma LastInOrder(tree: Tree, history: seq<Request>, order: seq<Loc>, at: Loc)
    requires InOrder(tree, history, order) && at in tree
    requires forall i | 0 < i < |order| ::
               FirstAsked(history, order[i], tree[order[i]]) < FirstAsked(history, at, tree[at])
    ensures InOrder(tree, history, order + [at])
  {
    assert forall i | 0 <= i < |order| :: (order + [at])[i] == order[i];
  }

  lemma OrderNow(tree: Tree, history: seq<Request>, order: seq<Loc>, r: Request, at: Loc)
    requires AllServed(tree, history) && InOrder(tree, history, order) && at !in tree
    requires AsksFor(r, at, r.dep) && FirstAsked(history, at, r.dep) == |history|
    ensures InOrder(tree[at := r.dep], history + [r], order + [at])
  {
    FirstAskedStays(history, r, at, r.dep);
    OrderStays(tree, tree[at := r.dep], history, order, r);
    LastInOrder(tree[at := r.dep], history + [r], order, at);
  }

  lemma NewIsServed(tree: Tree, history: seq<Request>, r: Request, at: Loc)
    requires AllServed(tree, history) && at !in tree && at != Root
    requires AsksFor(r, at, r.dep) && FirstAsked(history, at, r.dep) == |history|
    ensures AllServed(tree[at := r.dep], history + [r])
  {
    var tree1 := tree[at := r.dep];
    assert FirstServed(tree1, history + [r], at) by { FirstAskedStays(history, r, at, r.dep); }
    ServedStay(tree, tree1, history, r);
  }

  lemma NewAtTop(tree: Tree, history: seq<Request>, r: Request, at: Loc)
    requires AllAtTop(tree, history) && (In(Root, r.dep.name) in tree || at == In(Root, r.dep.name))
    ensures AllAtTop(tree[at := r.dep], history + [r])
  {
    AtTopStay(tree, tree[at := r.dep], history, r);
  }

  /** A request that adds the entry `at`, which nothing asked for before. */
  lemma ServedNow(tree: Tree, history: seq<Request>, order: seq<Loc>, r: Request, at: Loc)
    requires Chronicle(tree, history, order) && at !in tree && at != Root
    requires AsksFor(r, at, r.dep) && FirstAsked(history, at, r.dep) == |history|
    requires In(Root, r.dep.name) in tree || at == In(Root, r.dep.name)
    ensures Chronicle(tree[at := r.dep], history + [r], order + [at])
  {
    NewIsServed(tree, history, r, at);
    NewAtTop(tree, history, r, at);
    OrderNow(tree, history, order, r, at);
  }

  // ---------------------------------------------------------------- one turn of the loop

  /** Within the turn of `loc`, whose dependencies `done` have been dealt with. */
  ghost predicate Underway(st: State, log: seq<Loc>, history: seq<Request>, loc: Loc, done: seq<Dep>) {
    && Chronicle(st.tree, history, log + Locs(st.queue))
    && AsksOnly(history, loc, done)
    && AllDealt(st.tree, loc, done)
  }

  /** So far `loc` has asked for nothing but `done`. */
  ghost predicate AsksOnly(history: seq<Request>, loc: Loc, done: seq<Dep>) {
    forall i | 0 <= i < |history| :: history[i].from == loc ==> history[i].dep in done
  }

  ghost predicate AllDealt(tree: Tree, loc: Loc, done: seq<Dep>) {
    forall d | d in done :: Dealt(tree, loc, d)
  }

  ghost predicate Dealt(tree: Tree, loc: Loc, d: Dep) {
    Sees(tree, loc, d) || Beneath(loc, d.name) in tree
  }

  /** What `loc` has dealt with stays so as its next entries are placed. */
  lemma DealtStays(tree: Tree, loc: Loc, dep: Dep, d: Dep)
    requires Target(tree, loc, dep.name) !in tree && Dealt(tree, loc, d)
    ensures Dealt(tree[Target(tree, loc, dep.name) := dep], loc, d)
  {
    var at := Target(tree, loc, dep.name);
    if Beneath(loc, d.name) !in tree && at != Beneath(loc, d.name) {
      FindKept(tree, at, dep, loc, d.name);
    }
  }

  lemma TopWhenFound(lock: Lock, roots: seq<Dep>, st: State, order: seq<Loc>, history: seq<Request>, loc: Loc,
                     name: string)
    requires Tidy(lock, roots, st) && Chronicle(st.tree, history, order) && Find(st.tree, loc, name).Some?
    ensures In(Root, name) in st.tree
  {
    FindShape(st.tree, loc, name);
    var f := Find(st.tree, loc, name).value;
    assert FirstServed(st.tree, history, f) && st.tree[f].name == f.name;
  }

  lemma TopNotAsked(tree: Tree, history: seq<Request>, dep: Dep)
    requires AllAtTop(tree, history) && In(Root, dep.name) !in tree
    ensures FirstAsked(history, In(Root, dep.name), dep) == |history|
  {}

  lemma NestedNotAsked(tree: Tree, history: seq<Request>, loc: Loc, done: seq<Dep>, dep: Dep)
    requires AsksOnly(history, loc, done) && dep !in done
    ensures FirstAsked(history, Beneath(loc, dep.name), dep) == |history|
  {
    assert Parent(Beneath(loc, dep.name)) == loc;
    assert Beneath(loc, dep.name) != In(Root, dep.name);
  }

  /** Nothing asked before for an entry that is placed only now. */
  lemma NotAskedBefore(st: State, log: seq<Loc>, history: seq<Request>, loc: Loc, done: seq<Dep>, dep: Dep)
    requires Underway(st, log, history, loc, done)
    requires !Sees(st.tree, loc, dep) && Target(st.tree, loc, dep.name) !in st.tree
    ensures FirstAsked(history, Target(st.tree, loc, dep.name), dep) == |history|
  {
    if Find(st.tree, loc, dep.name).Some? {
      assert !Dealt(st.tree, loc, dep);
      NestedNotAsked(st.tree, history, loc, done, dep);
    } else {
      TopNotAsked(st.tree, history, dep);
    }
  }

  lemma DealtNow(tree: Tree, loc: Loc, done: seq<Dep>, dep: Dep)
    requires Target(tree, loc, dep.name) !in tree && AllDealt(tree, loc, done)
    ensures AllDealt(tree[Target(tree, loc, dep.name) := dep], loc, done + [dep])
  {
    var at := Target(tree, loc, dep.name);
    if Find(tree, loc, dep.name) == None {
      FindTop(tree, dep, loc, dep.name);
    }
    assert Dealt(tree[at := dep], loc, dep);
    forall d | d in done
      ensures Dealt(tree[at := dep], loc, d)
    {
      DealtStays(tree, loc, dep, d);
    }
  }

  lemma AsksOneMore(history: seq<Request>, loc: Loc, done: seq<Dep>, dep: Dep)
    requires AsksOnly(history, loc, done)
    ensures AsksOnly(history + [Request(loc, dep)], loc, done + [dep])
  {}

  lemma NewIsTold(lock: Lock, roots: seq<Dep>, st: State, log: seq<Loc>, history: seq<Request>, loc: Loc,
                  done: seq<Dep>, dep: Dep)
    requires Tidy(lock, roots, st) && Underway(st, log, history, loc, done)
    requires !Sees(st.tree, loc, dep) && Target(st.tree, loc, dep.name) !in st.tree
    ensures var at := Target(st.tree, loc, dep.name);
            Chronicle(st.tree[at := dep], history + [Request(loc, dep)], log + Locs(st.queue) + [at])
  {
    var order := log + Locs(st.queue);
    NotAskedBefore(st, log, history, loc, done, dep);
    if Find(st.tree, loc, dep.name).Some? {
      TopWhenFound(lock, roots, st, order, history, loc, dep.name);
    }
    ServedNow(st.tree, history, order, Request(loc, dep), Target(st.tree, loc, dep.name));
  }

  lemma PlaceServesNew(lock: Lock, roots: seq<Dep>, st: State, log: seq<Loc>, history: seq<Request>, loc: Loc,
                       done: seq<Dep>, dep: Dep)
    requires Tidy(lock, roots, st) && Underway(st, log, history, loc, done)
    requires !Sees(st.tree, loc, dep) && Place(lock, st, loc, dep).Going?
    ensures Underway(Place(lock, st, loc, dep).st, log, history + [Request(loc, dep)], loc, done + [dep])
  {
    var at := Target(st.tree, loc, dep.name);
    var st1 := Place(lock, st, loc, dep).st;
    assert st1.tree == st.tree[at := dep];
    assert log + Locs(st1.queue) == log + Locs(st.queue) + [at];
    NewIsTold(lock, roots, st, log, history, loc, done, dep);
    AsksOneMore(history, loc, done, dep);
    DealtNow(st.tree, loc, done, dep);
  }

  lemma PlaceServes(lock: Lock, roots: seq<Dep>, st: State, log: seq<Loc>, history: seq<Request>, loc: Loc,
                    done: seq<Dep>, dep: Dep)
    requires Tidy(lock, roots, st) && Underway(st, log, history, loc, done)
    ensures UnderwayIfGoing(Place(lock, st, loc, dep), log, history + [Request(loc, dep)], loc, done + [dep])
  {
    if Sees(st.tree, loc, dep) {
      FindShape(st.tree, loc, dep.name);
      TopWhenFound(lock, roots, st, log + Locs(st.queue), history, loc, dep.name);
      ServedBefore(st.tree, history, log + Locs(st.queue), Request(loc, dep));
      AsksOneMore(history, loc, done, dep);
    } else if Place(lock, st, loc, dep).Going? {
      PlaceServesNew(lock, roots, st, log, history, loc, done, dep);
    }
  }

  ghost predicate UnderwayIfGoing(p: Progress, log: seq<Loc>, history: seq<Request>, loc: Loc, done: seq<Dep>) {
    p.Going? ==> Underway(p.st, log, history, loc, done)
  }

  lemma RequestsNext(history: seq<Request>, loc: Loc, before: seq<Dep>, last: Dep)
    ensures history + Requests(loc, before + [last]) == history + Requests(loc, before) + [Request(loc, last)]
  {}

  lemma {:induction false} PlaceAllServes(lock: Lock, roots: seq<Dep>, st: State, log: seq<Loc>,
                                          history: seq<Request>, loc: Loc, cs: seq<Dep>)
    requires Tidy(lock, roots, st) && Fresh(st, loc) && AllNecessary(st.tree)
    requires forall c | c in cs :: c in st.placed[loc]
    requires Underway(st, log, history, loc, [])
    ensures UnderwayIfGoing(PlaceAll(lock, st, loc, cs), log, history + Requests(loc, cs), loc, cs)
  {
    if cs == [] {
      assert history + Requests(loc, cs) == history;
    } else {
      var before, last := cs[..|cs| - 1], cs[|cs| - 1];
      PlaceAllServes(lock, roots, st, log, history, loc, before);
      var p := PlaceAll(lock, st, loc, before);
      if p.Going? {
        assert Tidy(lock, roots, p.st) by { PlaceAllKeeps(lock, roots, st, loc, before); }
        PlaceServes(lock, roots, p.st, log, history + Requests(loc, before), loc, before, last);
        RequestsNext(history, loc, before, last);
        assert cs == before + [last];
      }
    }
  }

  // ----------------------------------------------------------------------- over runs

  /** The locations placed by the first `n` turns, in their order. */
  function Log(lock: Lock, roots: seq<Dep>, n: nat): seq<Loc> {
    if n == 0 then []
    else match Run(lock, roots, n - 1)
      case Failed(_) => Log(lock, roots, n - 1)
      case Going(st) => Log(lock, roots, n - 1) + if st.queue == [] then [] else [st.queue[0].loc]
  }

  /** The history of placed lists tells the tree, and the order of placed and queued locations. */
  ghost predicate Told(st: State, log: seq<Loc>) {
    && (forall i | 0 <= i < |log| :: log[i] in st.placed)
    && Chronicle(st.tree, History(st.placed, log), log + Locs(st.queue))
  }

  lemma {:induction false} HistoryKept(placed: map<Loc, seq<Dep>>, log: seq<Loc>, loc: Loc, deps: seq<Dep>)
    requires loc !in log
    ensures History(placed[loc := deps], log) == History(placed, log)
  {
    if log != [] {
      assert log == log[..|log| - 1] + [log[|log| - 1]];
      HistoryKept(placed, log[..|log| - 1], loc, deps);
    }
  }

  lemma {:induction false} HistoryFrom(placed: map<Loc, seq<Dep>>, log: seq<Loc>)
    ensures forall i | 0 <= i < |History(placed, log)| :: History(placed, log)[i].from in log
  {
    if log != [] {
      assert log == log[..|log| - 1] + [log[|log| - 1]];
      HistoryFrom(placed, log[..|log| - 1]);
    }
  }

  lemma QueueHead(queue: seq<Item>, log: seq<Loc>)
    requires queue != []
    ensures log + Locs(queue) == log + [queue[0].loc] + Locs(queue[1..])
  {}

  /** A turn begins: its location moves from the queue to the log. */
  lemma TurnBegins(lock: Lock, roots: seq<Dep>, st: State, log: seq<Loc>)
    requires Tidy(lock, roots, st) && st.queue != [] && Told(st, log)
    ensures var loc := st.queue[0].loc;
            && loc !in log
            && Underway(Dequeue(st), log + [loc], History(st.placed, log), loc, [])
  {
    var loc := st.queue[0].loc;
    assert loc !in st.placed;
    HistoryFrom(st.placed, log);
    QueueHead(st.queue, log);
    assert AsksOnly(History(st.placed, log), loc, []);
  }

  lemma HistoryNext(placed: map<Loc, seq<Dep>>, log: seq<Loc>, loc: Loc, deps: seq<Dep>)
    requires loc !in log
    ensures History(placed[loc := deps], log + [loc]) == History(placed, log) + Requests(loc, deps)
  {
    HistoryKept(placed, log, loc, deps);
    assert (log + [loc])[..|log|] == log;
  }

  lemma StepTells(lock: Lock, roots: seq<Dep>, st: State, log: seq<Loc>)
    requires Tidy(lock, roots, st) && AllNecessary(st.tree) && st.queue != [] && Told(st, log)
    ensures match Step(lock, st)
            case Failed(_) => true
            case Going(st1) => Told(st1, log + [st.queue[0].loc])
  {
    var Item(loc, cs) := st.queue[0];
    var st0 := Dequeue(st);
    TurnBegins(lock, roots, st, log);
    assert st0.placed == st.placed[loc := cs] by { TidyDequeue(lock, roots, st); }
    assert Tidy(lock, roots, st0) by { TidyDequeue(lock, roots, st); }
    FreshDequeue(lock, roots, st);
    var p := PlaceAll(lock, st0, loc, cs);
    assert p.Going? ==> p.st.placed == st0.placed by { PlaceAllKeeps(lock, roots, st0, loc, cs); }
    PlaceAllServes(lock, roots, st0, log + [loc], History(st.placed, log), loc, cs);
    HistoryNext(st.placed, log, loc, cs);
  }

  ghost predicate ToldIfGoing(p: Progress, log: seq<Loc>) {
    p.Going? ==> Told(p.st, log)
  }

  lemma TurnTells(lock: Lock, roots: seq<Dep>, n: nat)
    requires ToldIfGoing(Run(lock, roots, n), Log(lock, roots, n))
    ensures ToldIfGoing(Run(lock, roots, n + 1), Log(lock, roots, n + 1))
  {
    var p, log := Run(lock, roots, n), Log(lock, roots, n);
    if p.Going? {
      if p.st.queue == [] {
        assert Log(lock, roots, n + 1) == log;
      } else {
        assert Tidy(lock, roots, p.st) && AllNecessary(p.st.tree) by { NestingIsNeverGratuitous(lock, roots, n); }
        assert Run(lock, roots, n + 1) == Step(lock, p.st);
        StepTells(lock, roots, p.st, log);
      }
    }
  }

  lemma {:induction false} RunTells(lock: Lock, roots: seq<Dep>, n: nat)
    ensures ToldIfGoing(Run(lock, roots, n), Log(lock, roots, n))
  {
    if n == 0 {
      assert [] + Locs([Item(Root, roots)]) == [Root];
    } else {
      RunTells(lock, roots, n - 1);
      TurnTells(lock, roots, n - 1);
    }
  }

  /** The log has the placed locations, each once, in the order of their turns. */
  ghost predicate Logged(lock: Lock, roots: seq<Dep>, n: nat) {
    var p, log := Run(lock, roots, n), Log(lock, roots, n);
    p.Going? ==>
      && (forall l :: l in log <==> l in p.st.placed)
      && (forall i, j | 0 <= i < j < |log| :: log[i] != log[j])
  }

  lemma TurnLogs(lock: Lock, roots: seq<Dep>, n: nat)
    requires Logged(lock, roots, n)
    ensures Logged(lock, roots, n + 1)
  {
    var p := Run(lock, roots, n);
    if p.Going? && p.st.queue != [] {
      TurnPlacesHead(lock, roots, n);
    }
  }

  /** A turn that ends well places the one location that the log gains. */
  lemma TurnPlacesHead(lock: Lock, roots: seq<Dep>, n: nat)
    requires Run(lock, roots, n).Going? && Run(lock, roots, n).st.queue != []
    ensures var st := Run(lock, roots, n).st; var p := Run(lock, roots, n + 1);
            && Log(lock, roots, n + 1) == Log(lock, roots, n) + [st.queue[0].loc]
            && st.queue[0].loc !in st.placed
            && (p.Going? ==> p.st.placed == st.placed[st.queue[0].loc := st.queue[0].children])
  {
    var st := Run(lock, roots, n).st;
    var st0 := Dequeue(st);
    assert Tidy(lock, roots, st) && AllNecessary(st.tree) by { NestingIsNeverGratuitous(lock, roots, n); }
    TidyDequeue(lock, roots, st);
    FreshDequeue(lock, roots, st);
    PlaceAllKeeps(lock, roots, st0, st.queue[0].loc, st.queue[0].children);
    assert Run(lock, roots, n + 1) == Step(lock, st);
  }

  lemma {:induction false} RunLogs(lock: Lock, roots: seq<Dep>, n: nat)
    ensures Logged(lock, roots, n)
  {
    if n > 0 {
      RunLogs(lock, roots, n - 1);
      TurnLogs(lock, roots, n - 1);
    }
  }

  /** The requests of a run: the placed lists in the order in which their locations were placed. */
  function RunHistory(lock: Lock, roots: seq<Dep>, n: nat): seq<Request> {
    var p := Run(lock, roots, n);
    if p.Going? then History(p.st.placed, Log(lock, roots, n)) else []
  }

  /** The top level has exactly the names asked for, each at the dependency that asked first. */
  lemma TopLevelIsFirstCome(lock: Lock, roots: seq<Dep>, n: nat, x: string)
    requires Run(lock, roots, n).Going?
    ensures var tree, history := Run(lock, roots, n).st.tree, RunHistory(lock, roots, n);
            && (In(Root, x) in tree <==> exists i | 0 <= i < |history| :: history[i].dep.name == x)
            && (In(Root, x) in tree ==>
                  exists k | 0 <= k < |history| ::
                    && history[k].dep == tree[In(Root, x)] && history[k].dep.name == x
                    && forall i | 0 <= i < k :: history[i].dep.name != x)
  {
    RunTells(lock, roots, n);
    var st, history := Run(lock, roots, n).st, RunHistory(lock, roots, n);
    assert Chronicle(st.tree, history, Log(lock, roots, n) + Locs(st.queue));
    var at := In(Root, x);
    if at in st.tree {
      assert st.tree[at].name == x by { NestingIsNeverGratuitous(lock, roots, n); }
      assert FirstServed(st.tree, history, at);
      var k := FirstAsked(history, at, st.tree[at]);
      assert forall i | 0 <= i < k :: !AsksFor(history[i], at, st.tree[at]);
    }
  }

  /** Locations are placed and queued, each once, in the order in which their entries were
      first asked for: those of one list in its order, after all that earlier lists asked for. */
  lemma QueuedInOrder(lock: Lock, roots: seq<Dep>, n: nat)
    requires Run(lock, roots, n).Going?
    ensures var st, history := Run(lock, roots, n).st, RunHistory(lock, roots, n);
            var log := Log(lock, roots, n);
            var order := log + Locs(st.queue);
            && (forall l :: l in log <==> l in st.placed)
            && order != [] && order[0] == Root
            && (forall i | 0 < i < |order| :: order[i] in st.tree)
            && (forall l | l in st.tree :: l in order && FirstServed(st.tree, history, l))
            && (forall i, j | 0 < i < j < |order| ::
                  FirstAsked(history, order[i], st.tree[order[i]]) < FirstAsked(history, order[j], st.tree[order[j]]))
  {
    RunTells(lock, roots, n);
    RunLogs(lock, roots, n);
    var st, log := Run(lock, roots, n).st, Log(lock, roots, n);
    assert Chronicle(st.tree, RunHistory(lock, roots, n), log + Locs(st.queue));
    assert forall l | l in st.tree :: l in st.placed || Queued(st, l) by { NestingIsNeverGratuitous(lock, roots, n); }
    forall l | l in st.tree
      ensures l in log + Locs(st.queue)
    {
      if l !in st.placed {
        var i :| 0 <= i < |st.queue| && st.queue[i].loc == l;
        assert Locs(st.queue)[i] == l;
      }
    }
  }
}
