/**
 * The output micro-batcher of terminal streams (dockerfiles/streamd/batcher.js).
 * `written` is the log of the calls of the `write` callback; each entry also
 * records when and why it was made.
 */
module Batcher {
  import opened Text
  import opened Framing

  const BATCH_MS := 8
  const MAX_BATCH_BYTES := 64 * 1024

  datatype Config = Config(batchMs: int, maxBytes: int)

  const DEFAULTS := Config(BATCH_MS, MAX_BATCH_BYTES)

  /** Why a write was made: the size threshold, a push after quiet, the timer, or `flush()`. */
  datatype Cause = Full | Quiet | Timed | Explicit

  datatype Write = Write(at: int, data: seq<Byte>, cause: Cause)

  /** `timer` is the armed deadline; `lastFlushAt` is None for "never". */
  datatype State = State(pending: seq<seq<Byte>>, pendingBytes: nat, timer: Option<int>,
                         lastFlushAt: Option<int>, disposed: bool, written: seq<Write>)

  const INITIAL := State([], 0, None, None, false, [])

  function Flushed(st: State, now: int, cause: Cause): State {
    if st.pendingBytes == 0 then st.(timer := None)
    else st.(timer := None, pending := [], pendingBytes := 0, lastFlushAt := Some(now),
             written := st.written + [Write(now, Concat(st.pending), cause)])
  }

  /** `batchMs` or more have passed since the last flush. */
  predicate IsQuiet(cfg: Config, st: State, now: int) {
    st.lastFlushAt.Some? ==> now - st.lastFlushAt.value >= cfg.batchMs
  }

  function Pushed(cfg: Config, st: State, buf: seq<Byte>, now: int): State {
    if st.disposed || buf == [] then st
    else
      var st1 := st.(pending := st.pending + [buf], pendingBytes := st.pendingBytes + |buf|);
      if st1.pendingBytes >= cfg.maxBytes then Flushed(st1, now, Full)
      else if st1.timer.Some? then st1
      else if IsQuiet(cfg, st1, now) then Flushed(st1, now, Quiet)
      else st1.(timer := Some(now + (cfg.batchMs - (now - st1.lastFlushAt.value))))
  }

  function Disposed(st: State): State {
    st.(disposed := true, timer := None, pending := [], pendingBytes := 0)
  }

  lemma ConcatSingle(chunks: seq<seq<Byte>>)
    ensures |chunks| == 1 ==> Concat(chunks) == chunks[0]
  {
    if |chunks| == 1 {
      assert Concat(chunks[..0]) == [];
    }
  }

  class OutputBatcher {
    const cfg: Config
    var pending: seq<seq<Byte>>
    var pendingBytes: nat
    var timer: Option<int>
    var lastFlushAt: Option<int>
    var disposed: bool
    var written: seq<Write>

    function Value(): State
      reads this
    {
      State(pending, pendingBytes, timer, lastFlushAt, disposed, written)
    }

    constructor (cfg: Config)
      ensures this.cfg == cfg && Value() == INITIAL
    {
      this.cfg := cfg;
      pending, pendingBytes, timer, lastFlushAt, disposed, written := [], 0, None, None, false, [];
    }

    method FlushNow(now: int, cause: Cause)
      modifies this
      ensures Value() == Flushed(old(Value()), now, cause)
    {
      if timer != None {
        timer := None;
      }
      if pendingBytes == 0 {
        return;
      }
      var buf := if |pending| == 1 then pending[0] else Concat(pending);
      ConcatSingle(pending);
      pending := [];
      pendingBytes := 0;
      lastFlushAt := Some(now);
      written := written + [Write(now, buf, cause)];
    }

    method Push(buf: seq<Byte>, now: int)
      modifies this
      ensures Value() == Pushed(cfg, old(Value()), buf, now)
    {
      if disposed || |buf| == 0 {
        return;
      }
      pending := pending + [buf];
      pendingBytes := pendingBytes + |buf|;
      if pendingBytes >= cfg.maxBytes {
        FlushNow(now, Full);
        return;
      }
      if timer != None {
        return;
      }
      if lastFlushAt == None || now - lastFlushAt.value >= cfg.batchMs {
        FlushNow(now, Quiet);
        return;
      }
      var sinceFlush := now - lastFlushAt.value;
      timer := Some(now + (cfg.batchMs - sinceFlush));
    }

    method Dispose()
      modifies this
      ensures Value() == Disposed(old(Value()))
    {
      disposed := true;
      if timer != None {
        timer := None;
      }
      pending := [];
      pendingBytes := 0;
    }
  }

  // ------------------------------------------------------------------------ runs

  /** What the stream and the clock do to a batcher. */
  datatype Event =
    | Push(buf: seq<Byte>, at: int)
    | TimerFires(at: int)
    | Flush(at: int)
    | Dispose(at: int)

  function Next(cfg: Config, st: State, e: Event): State {
    match e
    case Push(buf, at) => Pushed(cfg, st, buf, at)
    case TimerFires(at) => Flushed(st, at, Timed)
    case Flush(at) => Flushed(st, at, Explicit)
    case Dispose(_) => Disposed(st)
  }

  function Run(cfg: Config, events: seq<Event>): State {
    if events == [] then INITIAL else Next(cfg, Run(cfg, events[..|events| - 1]), events[|events| - 1])
  }

  function Now(events: seq<Event>): Option<int> {
    if events == [] then None else Some(events[|events| - 1].at)
  }

  predicate NotBefore(t: int, since: Option<int>) {
    since.Some? ==> since.value <= t
  }

  /** The clock never goes back, and a timer fires only when armed, at or after its deadline. */
  predicate Legal(cfg: Config, events: seq<Event>) {
    events == [] ||
    var before := events[..|events| - 1];
    var e := events[|events| - 1];
    && Legal(cfg, before)
    && NotBefore(e.at, Now(before))
    && (e.TimerFires? ==> Run(cfg, before).timer.Some? && Run(cfg, before).timer.value <= e.at)
  }

  /** Bytes are pending exactly while a timer is armed for `lastFlushAt + batchMs`. */
  ghost predicate Sane(cfg: Config, st: State, now: Option<int>) {
    && st.pendingBytes == |Concat(st.pending)|
    && (st.timer.Some? <==> st.pendingBytes > 0)
    && (st.timer.Some? ==> st.lastFlushAt.Some? && st.timer.value == st.lastFlushAt.value + cfg.batchMs)
    && (st.pendingBytes > 0 ==> st.pendingBytes < cfg.maxBytes && !st.disposed)
    && (st.lastFlushAt == if st.written == [] then None else Some(st.written[|st.written| - 1].at))
    && (st.lastFlushAt.Some? ==> now.Some? && st.lastFlushAt.value <= now.value)
  }

  lemma ConcatOne(chunks: seq<seq<Byte>>, buf: seq<Byte>)
    ensures Concat(chunks + [buf]) == Concat(chunks) + buf
  {
    assert (chunks + [buf])[..|chunks|] == chunks;
  }

  lemma SaneFlush(cfg: Config, st: State, at: int, cause: Cause)
    requires st.pendingBytes == |Concat(st.pending)|
    requires st.lastFlushAt == if st.written == [] then None else Some(st.written[|st.written| - 1].at)
    requires NotBefore(at, st.lastFlushAt)
    ensures Sane(cfg, Flushed(st, at, cause), Some(at))
  {}

  lemma SanePush(cfg: Config, st: State, before: Option<int>, buf: seq<Byte>, at: int)
    requires Sane(cfg, st, before) && NotBefore(at, before)
    ensures Sane(cfg, Pushed(cfg, st, buf, at), Some(at))
  {
    if !st.disposed && buf != [] {
      var st1 := st.(pending := st.pending + [buf], pendingBytes := st.pendingBytes + |buf|);
      ConcatOne(st.pending, buf);
      SaneFlush(cfg, st1, at, Full);
      SaneFlush(cfg, st1, at, Quiet);
    }
  }

  lemma {:induction false} RunIsSane(cfg: Config, events: seq<Event>)
    requires Legal(cfg, events)
    ensures Sane(cfg, Run(cfg, events), Now(events))
  {
    if events != [] {
      var before := events[..|events| - 1];
      var e := events[|events| - 1];
      var st := Run(cfg, before);
      RunIsSane(cfg, before);
      match e
      case Push(buf, at) => SanePush(cfg, st, Now(before), buf, at);
      case TimerFires(at) => SaneFlush(cfg, st, at, Timed);
      case Flush(at) => SaneFlush(cfg, st, at, Explicit);
      case Dispose(_) =>
    }
  }
}
