/**
 * How large a write of the batcher can get, and so exactly when no frame is
 * ever oversized.
 */
module BatcherSizes {
  import opened Text
  import opened Framing
  import opened Batcher
  import opened BatcherTheorems

  predicate PushesAtMost(events: seq<Event>, p: nat) {
    forall e | e in events && e.Push? :: |e.buf| <= p
  }

  predicate WritesAtMost(written: seq<Write>, n: int) {
    forall w | w in written :: |w.data| <= n
  }

  /** The most bytes that can be waiting when the next push arrives. */
  function HeldBack(cfg: Config): nat {
    if cfg.batchMs <= 0 || cfg.maxBytes <= 1 then 0 else cfg.maxBytes - 1
  }

  /** The size of the largest write that pushes of at most `p` bytes can cause. */
  function LargestWrite(cfg: Config, p: nat): nat {
    if p == 0 then 0 else HeldBack(cfg) + p
  }

  // ----------------------------------------------------------------- no larger write

  /** Pending bytes leave room for one more push. */
  ghost predicate Small(cfg: Config, st: State, p: nat) {
    && st.pendingBytes <= (if p == 0 then 0 else HeldBack(cfg))
    && WritesAtMost(st.written, LargestWrite(cfg, p))
  }

  lemma FlushIsSmall(st: State, at: int, cause: Cause, n: int)
    requires st.pendingBytes == |Concat(st.pending)| <= n && WritesAtMost(st.written, n)
    ensures WritesAtMost(Flushed(st, at, cause).written, n) && Flushed(st, at, cause).pendingBytes == 0
  {}

  lemma PushIsSmall(cfg: Config, st: State, before: Option<int>, buf: seq<Byte>, at: int, p: nat)
    requires Sane(cfg, st, before) && NotBefore(at, before) && |buf| <= p && Small(cfg, st, p)
    ensures Small(cfg, Pushed(cfg, st, buf, at), p)
  {
    if !st.disposed && buf != [] {
      var st1 := st.(pending := st.pending + [buf], pendingBytes := st.pendingBytes + |buf|);
      var after := Pushed(cfg, st, buf, at);
      ConcatOne(st.pending, buf);
      assert |Concat(st1.pending)| == st1.pendingBytes <= LargestWrite(cfg, p);
      if st1.pendingBytes >= cfg.maxBytes {
        FlushIsSmall(st1, at, Full, LargestWrite(cfg, p));
        assert after == Flushed(st1, at, Full);
      } else if st1.timer == None && IsQuiet(cfg, st1, at) {
        FlushIsSmall(st1, at, Quiet, LargestWrite(cfg, p));
        assert after == Flushed(st1, at, Quiet);
      } else {
        assert after.written == st.written && after.pendingBytes == st1.pendingBytes < cfg.maxBytes;
      }
    }
  }

  lemma {:induction false} RunIsSmall(cfg: Config, events: seq<Event>, p: nat)
    requires Legal(cfg, events) && PushesAtMost(events, p)
    ensures Small(cfg, Run(cfg, events), p)
  {
    if events != [] {
      var before := events[..|events| - 1];
      var e := events[|events| - 1];
      var st := Run(cfg, before);
      RunIsSmall(cfg, before, p);
      RunIsSane(cfg, before);
      assert e in events;
      match e
      case Push(buf, at) => PushIsSmall(cfg, st, Now(before), buf, at, p);
      case TimerFires(at) => FlushIsSmall(st, at, Timed, LargestWrite(cfg, p));
      case Flush(at) => FlushIsSmall(st, at, Explicit, LargestWrite(cfg, p));
      case Dispose(_) =>
    }
  }

  /** A write holds at most one push beyond what can be waiting. */
  lemma WritesAreSmall(cfg: Config, events: seq<Event>, p: nat)
    requires Legal(cfg, events) && PushesAtMost(events, p)
    ensures WritesAtMost(Run(cfg, events).written, LargestWrite(cfg, p))
  {
    RunIsSmall(cfg, events, p);
  }

  // -------------------------------------------------------------- a write that large

  /** One byte, written at once, and `k` more that wait. */
  function Drip(k: nat): seq<Event> {
    if k == 0 then [Push([0], 0)] else Drip(k - 1) + [Push([0], 0)]
  }

  /** `k` bytes wait since a write at time 0. */
  ghost predicate Waits(cfg: Config, st: State, k: nat) {
    Sane(cfg, st, Some(0)) && st.pendingBytes == k && st.lastFlushAt == Some(0) && !st.disposed
  }

  lemma OneMoreWaits(cfg: Config, st: State, k: nat)
    requires Waits(cfg, st, k) && k + 1 < cfg.maxBytes && cfg.batchMs > 0
    ensures Waits(cfg, Pushed(cfg, st, [0], 0), k + 1)
  {
    SanePush(cfg, st, Some(0), [0], 0);
  }

  lemma FirstByte(cfg: Config)
    requires cfg.maxBytes > 1
    ensures Waits(cfg, Pushed(cfg, INITIAL, [0], 0), 0)
  {
    SanePush(cfg, INITIAL, None, [0], 0);
  }

  /** Some one-byte pushes at time 0 have left `k` bytes waiting. */
  ghost predicate Dripped(cfg: Config, events: seq<Event>, k: nat) {
    && Legal(cfg, events) && PushesAtMost(events, 1) && Now(events) == Some(0)
    && Waits(cfg, Run(cfg, events), k)
  }

  lemma OneMoreDrips(cfg: Config, events: seq<Event>, k: nat)
    requires Dripped(cfg, events, k) && k + 1 < cfg.maxBytes && cfg.batchMs > 0
    ensures Dripped(cfg, events + [Push([0], 0)], k + 1)
  {
    OneEvent(cfg, events, Push([0], 0));
    OneMoreWaits(cfg, Run(cfg, events), k);
  }

  lemma {:induction false} DripWaits(cfg: Config, k: nat)
    requires k < cfg.maxBytes && cfg.maxBytes > 1 && cfg.batchMs > 0
    ensures Dripped(cfg, Drip(k), k)
  {
    if k == 0 {
      assert [] + [Push([0], 0)] == Drip(0);
      OneEvent(cfg, [], Push([0], 0));
      FirstByte(cfg);
    } else {
      DripWaits(cfg, k - 1);
      OneMoreDrips(cfg, Drip(k - 1), k - 1);
    }
  }

  lemma FullPush(cfg: Config, st: State, k: nat, buf: seq<Byte>)
    requires Waits(cfg, st, k) && k + |buf| >= cfg.maxBytes && buf != []
    ensures exists w :: Pushed(cfg, st, buf, 0).written == st.written + [w] && |w.data| == k + |buf|
  {
    var st1 := st.(pending := st.pending + [buf], pendingBytes := st.pendingBytes + |buf|);
    ConcatOne(st.pending, buf);
    assert Flushed(st1, 0, Full).written == st.written + [Write(0, Concat(st1.pending), Full)];
  }

  /** A push that finds one byte less than the threshold waiting is written with it. */
  lemma LargeAfterDrip(cfg: Config, p: nat) returns (events: seq<Event>, w: Write)
    requires p > 0 && HeldBack(cfg) > 0
    ensures Legal(cfg, events) && PushesAtMost(events, p)
    ensures w in Run(cfg, events).written && |w.data| == LargestWrite(cfg, p)
  {
    var k := cfg.maxBytes - 1;
    var buf: seq<Byte> := seq(p, _ => 0);
    var st := Run(cfg, Drip(k));
    events := Drip(k) + [Push(buf, 0)];
    DripWaits(cfg, k);
    OneEvent(cfg, Drip(k), Push(buf, 0));
    FullPush(cfg, st, k, buf);
    w :| Run(cfg, events).written == st.written + [w] && |w.data| == k + p;
  }

  /** Where nothing waits, a push is written alone. */
  lemma LargeAlone(cfg: Config, p: nat) returns (events: seq<Event>, w: Write)
    requires p > 0 && HeldBack(cfg) == 0
    ensures Legal(cfg, events) && PushesAtMost(events, p)
    ensures w in Run(cfg, events).written && |w.data| == LargestWrite(cfg, p)
  {
    var buf := seq(p, _ => 0);
    events := [Push(buf, 0)];
    assert [] + events == events;
    OneEvent(cfg, [], Push(buf, 0));
    EchoIsImmediate(cfg, [], buf, 0);
    var cause :| Run(cfg, events).written == [] + [Write(0, buf, cause)];
    w := Write(0, buf, cause);
  }

  /** Some run makes a write of that size. */
  lemma LargestWriteHappens(cfg: Config, p: nat)
    requires p > 0
    ensures exists events, w ::
              Legal(cfg, events) && PushesAtMost(events, p)
              && w in Run(cfg, events).written && |w.data| == LargestWrite(cfg, p)
  {
    var events, w;
    if HeldBack(cfg) == 0 {
      events, w := LargeAlone(cfg, p);
    } else {
      events, w := LargeAfterDrip(cfg, p);
    }
  }

  // ----------------------------------------------------------------- oversized frames

  /** No run whose pushes are at most `p` long ever writes more than a frame may hold. */
  ghost predicate NeverOversized(cfg: Config, p: nat) {
    forall events | Legal(cfg, events) && PushesAtMost(events, p) ::
      WritesAtMost(Run(cfg, events).written, MAX_FRAME_BYTES)
  }

  /** With the batcher's defaults, 8 ms and 64 KiB, and the frame cap of 1 MiB, pushes may have
      983041 bytes. */
  lemma DefaultsNeverOversized(p: nat)
    ensures DEFAULTS == Config(8, 65536)
    ensures (forall events | Legal(DEFAULTS, events) && PushesAtMost(events, p) ::
               WritesAtMost(Run(DEFAULTS, events).written, 1048576)) <==> p <= 983041
  {
    NeverOversizedIff(DEFAULTS, p);
    assert NeverOversized(DEFAULTS, p) <==> p <= 983041;
  }

  /** Frames never get oversized exactly when pushes stay within the frame cap less what can
      be waiting: less the threshold, plus one byte, if anything waits at all. */
  lemma NeverOversizedIff(cfg: Config, p: nat)
    ensures NeverOversized(cfg, p) <==> p == 0 || p <= MAX_FRAME_BYTES - HeldBack(cfg)
  {
    if p == 0 || p <= MAX_FRAME_BYTES - HeldBack(cfg) {
      forall events | Legal(cfg, events) && PushesAtMost(events, p)
        ensures WritesAtMost(Run(cfg, events).written, MAX_FRAME_BYTES)
      {
        WritesAreSmall(cfg, events, p);
      }
    } else {
      LargestWriteHappens(cfg, p);
    }
  }
}
