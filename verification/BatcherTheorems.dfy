/**
 * What every run of the batcher keeps: no byte is lost or reordered, none
 * waits longer than the window, writes are rare, and frames stay small.
 */
module BatcherTheorems {
  import opened Text
  import opened Framing
  import opened Batcher

  // ---------------------------------------------------------------- nothing is lost

  /** The bytes pushed, in order. */
  function AllPushed(events: seq<Event>): seq<Byte> {
    if events == [] then []
    else
      var e := events[|events| - 1];
      AllPushed(events[..|events| - 1]) + if e.Push? then e.buf else []
  }

  /** The bytes written, in order. */
  function Data(written: seq<Write>): seq<Byte> {
    if written == [] then [] else Data(written[..|written| - 1]) + written[|written| - 1].data
  }

  predicate NoDispose(events: seq<Event>) {
    forall e | e in events :: !e.Dispose?
  }

  lemma DataOne(written: seq<Write>, w: Write)
    ensures Data(written + [w]) == Data(written) + w.data
  {
    assert (written + [w])[..|written|] == written;
  }

  lemma FlushKeepsBytes(st: State, at: int, cause: Cause)
    requires st.pendingBytes == |Concat(st.pending)|
    ensures var st1 := Flushed(st, at, cause);
            Data(st1.written) + Concat(st1.pending) == Data(st.written) + Concat(st.pending)
  {
    if st.pendingBytes > 0 {
      DataOne(st.written, Write(at, Concat(st.pending), cause));
    }
  }

  lemma PushKeepsBytes(cfg: Config, st: State, buf: seq<Byte>, at: int)
    requires st.pendingBytes == |Concat(st.pending)| && !st.disposed
    ensures var st1 := Pushed(cfg, st, buf, at);
            Data(st1.written) + Concat(st1.pending) == Data(st.written) + Concat(st.pending) + buf
  {
    if buf == [] {
      assert Data(st.written) + Concat(st.pending) + buf == Data(st.written) + Concat(st.pending);
    } else {
      var st1 := st.(pending := st.pending + [buf], pendingBytes := st.pendingBytes + |buf|);
      ConcatOne(st.pending, buf);
      assert Data(st.written) + (Concat(st.pending) + buf) == Data(st.written) + Concat(st.pending) + buf;
      FlushKeepsBytes(st1, at, Full);
      FlushKeepsBytes(st1, at, Quiet);
    }
  }

  /** Until it is disposed, a batcher has written or still holds every byte, in order. */
  lemma {:induction false} NothingIsLost(cfg: Config, events: seq<Event>)
    requires Legal(cfg, events) && NoDispose(events)
    ensures var st := Run(cfg, events);
            !st.disposed && Data(st.written) + Concat(st.pending) == AllPushed(events)
  {
    if events != [] {
      var before := events[..|events| - 1];
      var e := events[|events| - 1];
      var st := Run(cfg, before);
      NothingIsLost(cfg, before);
      assert Sane(cfg, st, Now(before)) by { RunIsSane(cfg, before); }
      assert e in events;
      match e
      case Push(buf, at) => PushKeepsBytes(cfg, st, buf, at);
      case TimerFires(at) => FlushKeepsBytes(st, at, Timed);
      case Flush(at) => FlushKeepsBytes(st, at, Explicit);
    }
  }

  /** After `dispose` nothing more is written. */
  lemma {:induction false} DisposedIsSilent(cfg: Config, before: seq<Event>, at: int, after: seq<Event>)
    requires Legal(cfg, before + [Dispose(at)] + after)
    ensures var st := Run(cfg, before + [Dispose(at)] + after);
            st.disposed && st.pendingBytes == 0 && st.written == Run(cfg, before).written
  {
    var all := before + [Dispose(at)] + after;
    if after == [] {
      assert all[..|all| - 1] == before;
    } else {
      var fewer := after[..|after| - 1];
      assert all[..|all| - 1] == before + [Dispose(at)] + fewer;
      DisposedIsSilent(cfg, before, at, fewer);
    }
  }

  // ------------------------------------------------------------------- waiting time

  function Repeat(t: int, n: nat): seq<int> {
    seq(n, _ => t)
  }

  /** For each byte pushed, when it was pushed. */
  function PushTimes(events: seq<Event>): seq<int> {
    if events == [] then []
    else
      var e := events[|events| - 1];
      PushTimes(events[..|events| - 1]) + if e.Push? then Repeat(e.at, |e.buf|) else []
  }

  /** For each byte written, when it was written. */
  function WriteTimes(written: seq<Write>): seq<int> {
    if written == [] then []
    else
      var w := written[|written| - 1];
      WriteTimes(written[..|written| - 1]) + Repeat(w.at, |w.data|)
  }

  /** No armed timer is kept waiting more than `slack` beyond its deadline. */
  predicate Prompt(cfg: Config, events: seq<Event>, slack: nat) {
    events == [] ||
    var before := events[..|events| - 1];
    var timer := Run(cfg, before).timer;
    Prompt(cfg, before, slack) && (timer.Some? ==> events[|events| - 1].at <= timer.value + slack)
  }

  /** Each byte written was written at most `bound` after its push. */
  ghost predicate InTime(times: seq<int>, writes: seq<int>, bound: int) {
    && |writes| <= |times|
    && forall k | 0 <= k < |writes| :: times[k] <= writes[k] <= times[k] + bound
  }

  /** Each byte still pending was pushed no earlier than the last flush and at most `bound` ago. */
  ghost predicate HeldSince(times: seq<int>, written: nat, lastFlushAt: Option<int>, now: int, bound: int) {
    forall k | written <= k < |times| ::
      lastFlushAt.Some? && lastFlushAt.value <= times[k] <= now <= times[k] + bound
  }

  lemma FlushInTime(st: State, times: seq<int>, at: int, cause: Cause, bound: nat)
    requires st.pendingBytes == |Concat(st.pending)|
    requires |times| == |WriteTimes(st.written)| + st.pendingBytes && InTime(times, WriteTimes(st.written), bound)
    requires forall k | |WriteTimes(st.written)| <= k < |times| :: times[k] <= at <= times[k] + bound
    ensures var w := WriteTimes(Flushed(st, at, cause).written);
            |times| == |w| && InTime(times, w, bound)
  {
    if st.pendingBytes > 0 {
      var written := Flushed(st, at, cause).written;
      assert written[..|written| - 1] == st.written;
    }
  }

  lemma AppendInTime(st: State, times: seq<int>, buf: seq<Byte>, at: int, bound: nat)
    requires st.pendingBytes == |Concat(st.pending)|
    requires |times| == |WriteTimes(st.written)| + st.pendingBytes && InTime(times, WriteTimes(st.written), bound)
    requires forall k | |WriteTimes(st.written)| <= k < |times| :: times[k] <= at <= times[k] + bound
    ensures var st1 := st.(pending := st.pending + [buf], pendingBytes := st.pendingBytes + |buf|);
            var times1 := times + Repeat(at, |buf|);
            && st1.pendingBytes == |Concat(st1.pending)|
            && |times1| == |WriteTimes(st1.written)| + st1.pendingBytes
            && InTime(times1, WriteTimes(st1.written), bound)
            && forall k | |WriteTimes(st.written)| <= k < |times1| :: times1[k] <= at <= times1[k] + bound
  {
    ConcatOne(st.pending, buf);
  }

  lemma PushInTime(cfg: Config, st: State, before: Option<int>, times: seq<int>, buf: seq<Byte>, at: int,
                   bound: nat)
    requires Sane(cfg, st, before) && !st.disposed && buf != []
    requires |times| == |WriteTimes(st.written)| + st.pendingBytes && InTime(times, WriteTimes(st.written), bound)
    requires HeldSince(times, |WriteTimes(st.written)|, st.lastFlushAt, at, bound) && NotBefore(at, st.lastFlushAt)
    ensures var st1 := Pushed(cfg, st, buf, at); var times1 := times + Repeat(at, |buf|);
            && |times1| == |WriteTimes(st1.written)| + st1.pendingBytes
            && InTime(times1, WriteTimes(st1.written), bound)
            && HeldSince(times1, |WriteTimes(st1.written)|, st1.lastFlushAt, at, bound)
  {
    var times1 := times + Repeat(at, |buf|);
    var st1 := st.(pending := st.pending + [buf], pendingBytes := st.pendingBytes + |buf|);
    AppendInTime(st, times, buf, at, bound);
    if st1.pendingBytes >= cfg.maxBytes {
      FlushInTime(st1, times1, at, Full, bound);
    } else if st1.timer == None && IsQuiet(cfg, st1, at) {
      FlushInTime(st1, times1, at, Quiet, bound);
    }
  }

  /** No byte waits longer than `bound`, whether it is written by `now` or still pending. */
  ghost predicate NoneWaits(st: State, times: seq<int>, now: int, bound: int) {
    var w := WriteTimes(st.written);
    && |times| == |w| + st.pendingBytes
    && InTime(times, w, bound)
    && HeldSince(times, |w|, st.lastFlushAt, now, bound)
  }

  lemma NoneWaitsUntil(cfg: Config, st: State, times: seq<int>, now: int, at: int, slack: nat)
    requires Sane(cfg, st, Some(now)) && NoneWaits(st, times, now, cfg.batchMs + slack) && now <= at
    requires st.timer.Some? ==> at <= st.timer.value + slack
    ensures NoneWaits(st, times, at, cfg.batchMs + slack)
  {}

  lemma NextWaits(cfg: Config, st: State, times: seq<int>, e: Event, slack: nat)
    requires Sane(cfg, st, Some(e.at)) && !st.disposed && !e.Dispose? && cfg.batchMs >= 0
    requires NoneWaits(st, times, e.at, cfg.batchMs + slack)
    ensures NoneWaits(Next(cfg, st, e), times + (if e.Push? then Repeat(e.at, |e.buf|) else []), e.at,
                      cfg.batchMs + slack)
  {
    var bound := cfg.batchMs + slack;
    if !e.Push? {
      assert times + [] == times;
      FlushInTime(st, times, e.at, if e.Flush? then Explicit else Timed, bound);
    } else if e.buf == [] {
      assert times + Repeat(e.at, 0) == times;
    } else {
      assert Next(cfg, st, e) == Pushed(cfg, st, e.buf, e.at);
      PushInTime(cfg, st, Some(e.at), times, e.buf, e.at, bound);
    }
  }

  /** With timers at most `slack` late, no byte waits longer than `batchMs + slack`. */
  lemma {:induction false} NoByteWaitsLong(cfg: Config, events: seq<Event>, slack: nat)
    requires Legal(cfg, events) && NoDispose(events) && Prompt(cfg, events, slack)
    requires cfg.batchMs >= 0 && events != []
    ensures NoneWaits(Run(cfg, events), PushTimes(events), Now(events).value, cfg.batchMs + slack)
  {
    var before := events[..|events| - 1];
    var e := events[|events| - 1];
    var st := Run(cfg, before);
    NothingIsLost(cfg, before);
    RunIsSane(cfg, before);
    if before != [] {
      NoByteWaitsLong(cfg, before, slack);
      NoneWaitsUntil(cfg, st, PushTimes(before), Now(before).value, e.at, slack);
    }
    assert e in events;
    NextWaits(cfg, st, PushTimes(before), e, slack);
  }

  lemma OneEvent(cfg: Config, before: seq<Event>, e: Event)
    ensures Run(cfg, before + [e]) == Next(cfg, Run(cfg, before), e)
    ensures Legal(cfg, before) && e.Push? && NotBefore(e.at, Now(before)) ==> Legal(cfg, before + [e])
    ensures Now(before + [e]) == Some(e.at)
  {
    assert (before + [e])[..|before|] == before;
  }

  lemma EchoOf(cfg: Config, st: State, before: Option<int>, buf: seq<Byte>, at: int)
    requires Sane(cfg, st, before) && !st.disposed && buf != [] && st.timer == None && IsQuiet(cfg, st, at)
    requires Concat(st.pending) == []
    ensures var st1 := Pushed(cfg, st, buf, at);
            && st1.pending == [] && st1.timer == None
            && exists cause :: st1.written == st.written + [Write(at, buf, cause)]
  {
    ConcatOne(st.pending, buf);
    assert [] + buf == buf;
    var cause := if |buf| >= cfg.maxBytes then Full else Quiet;
    assert Pushed(cfg, st, buf, at).written == st.written + [Write(at, buf, cause)];
  }

  function LastWrite(written: seq<Write>): int
    requires written != []
  {
    written[|written| - 1].at
  }

  /** A push after a quiet window is written at once, and alone. */
  lemma EchoIsImmediate(cfg: Config, events: seq<Event>, buf: seq<Byte>, at: int)
    requires Legal(cfg, events) && NoDispose(events) && buf != []
    requires Run(cfg, events).timer == None
    requires Run(cfg, events).written != [] ==> at - LastWrite(Run(cfg, events).written) >= cfg.batchMs
    ensures var st1 := Run(cfg, events + [Push(buf, at)]);
            && st1.pending == [] && st1.timer == None
            && exists cause :: st1.written == Run(cfg, events).written + [Write(at, buf, cause)]
  {
    var st := Run(cfg, events);
    assert !st.disposed by { NothingIsLost(cfg, events); }
    RunIsSane(cfg, events);
    EchoOf(cfg, st, Now(events), buf, at);
    OneEvent(cfg, events, Push(buf, at));
  }

  // -------------------------------------------------------------------- write rate

  predicate Unforced(w: Write) {
    w.cause == Quiet || w.cause == Timed
  }

  /** Writes are in time order; one that nothing forced comes a full window after the write
      before it, and one for size carries at least the threshold. */
  ghost predicate Spaced(cfg: Config, written: seq<Write>) {
    && (forall k | 0 < k < |written| ::
          && written[k - 1].at <= written[k].at
          && (Unforced(written[k]) ==> written[k - 1].at + cfg.batchMs <= written[k].at))
    && (forall w | w in written && w.cause == Full :: |w.data| >= cfg.maxBytes)
  }

  lemma SpacedAppend(cfg: Config, written: seq<Write>, w: Write)
    requires Spaced(cfg, written)
    requires w.cause == Full ==> |w.data| >= cfg.maxBytes
    requires written != [] ==>
               var last := written[|written| - 1].at;
               last <= w.at && (Unforced(w) ==> last + cfg.batchMs <= w.at)
    ensures Spaced(cfg, written + [w])
  {
    var more := written + [w];
    forall k | 0 < k < |more|
      ensures more[k - 1].at <= more[k].at && (Unforced(more[k]) ==> more[k - 1].at + cfg.batchMs <= more[k].at)
    {
      assert more[k - 1] == written[k - 1] && (k < |written| ==> more[k] == written[k]);
    }
    assert forall v | v in more :: v in written || v == w;
  }

  lemma SpacedFlush(cfg: Config, st: State, at: int, cause: Cause)
    requires Spaced(cfg, st.written) && st.pendingBytes == |Concat(st.pending)|
    requires st.lastFlushAt == if st.written == [] then None else Some(st.written[|st.written| - 1].at)
    requires NotBefore(at, st.lastFlushAt)
    requires st.pendingBytes > 0 && cause == Full ==> st.pendingBytes >= cfg.maxBytes
    requires st.pendingBytes > 0 && (cause == Quiet || cause == Timed) ==> IsQuiet(cfg, st, at)
    ensures Spaced(cfg, Flushed(st, at, cause).written)
  {
    if st.pendingBytes > 0 {
      SpacedAppend(cfg, st.written, Write(at, Concat(st.pending), cause));
    }
  }

  lemma PushSpaced(cfg: Config, st: State, before: Option<int>, buf: seq<Byte>, at: int)
    requires Sane(cfg, st, before) && NotBefore(at, before) && Spaced(cfg, st.written)
    ensures Spaced(cfg, Pushed(cfg, st, buf, at).written)
  {
    if !st.disposed && buf != [] {
      var st1 := st.(pending := st.pending + [buf], pendingBytes := st.pendingBytes + |buf|);
      ConcatOne(st.pending, buf);
      var after := Pushed(cfg, st, buf, at);
      if st1.pendingBytes >= cfg.maxBytes {
        SpacedFlush(cfg, st1, at, Full);
        assert after == Flushed(st1, at, Full);
      } else if st1.timer == None && IsQuiet(cfg, st1, at) {
        SpacedFlush(cfg, st1, at, Quiet);
        assert after == Flushed(st1, at, Quiet);
      } else {
        assert after.written == st.written;
      }
    }
  }

  lemma {:induction false} WritesAreSpaced(cfg: Config, events: seq<Event>)
    requires Legal(cfg, events)
    ensures Spaced(cfg, Run(cfg, events).written)
  {
    if events != [] {
      var before := events[..|events| - 1];
      var e := events[|events| - 1];
      var st := Run(cfg, before);
      WritesAreSpaced(cfg, before);
      RunIsSane(cfg, before);
      match e
      case Push(buf, at) => PushSpaced(cfg, st, Now(before), buf, at);
      case TimerFires(at) => SpacedFlush(cfg, st, at, Timed);
      case Flush(at) => SpacedFlush(cfg, st, at, Explicit);
      case Dispose(_) =>
    }
  }

  function CountUnforced(written: seq<Write>): nat {
    if written == [] then 0
    else CountUnforced(written[..|written| - 1]) + if Unforced(written[|written| - 1]) then 1 else 0
  }

  function CountCause(written: seq<Write>, cause: Cause): nat {
    if written == [] then 0
    else CountCause(written[..|written| - 1], cause) + if written[|written| - 1].cause == cause then 1 else 0
  }

  lemma {:induction false} CountsAddUp(written: seq<Write>)
    ensures |written| == CountUnforced(written) + CountCause(written, Full) + CountCause(written, Explicit)
  {
    if written != [] {
      CountsAddUp(written[..|written| - 1]);
    }
  }

  /** `c * d`, by addition. */
  function Times(c: nat, d: int): int {
    if c == 0 then 0 else Times(c - 1, d) + d
  }

  lemma {:induction false} UnforcedSpan(cfg: Config, written: seq<Write>)
    requires Spaced(cfg, written) && written != []
    ensures var span := written[|written| - 1].at - written[0].at;
            span >= 0 && (CountUnforced(written) > 0 ==> Times(CountUnforced(written) - 1, cfg.batchMs) <= span)
  {
    if |written| == 1 {
      assert written[..0] == [] && CountUnforced([]) == 0;
    } else {
      var last := |written| - 1;
      UnforcedSpan(cfg, written[..last]);
      assert written[last - 1].at <= written[last].at;
    }
  }

  lemma {:induction false} FullBytes(written: seq<Write>, maxBytes: nat)
    requires forall w | w in written && w.cause == Full :: |w.data| >= maxBytes
    ensures Times(CountCause(written, Full), maxBytes) <= |Data(written)|
  {
    if written != [] {
      FullBytes(written[..|written| - 1], maxBytes);
      assert written[|written| - 1] in written;
    }
  }

  lemma SpacedPart(cfg: Config, written: seq<Write>, i: nat, j: nat)
    requires Spaced(cfg, written) && i <= j <= |written|
    ensures Spaced(cfg, written[i..j])
  {
    var part := written[i..j];
    forall k | 0 < k < |part|
      ensures part[k - 1].at <= part[k].at && (Unforced(part[k]) ==> part[k - 1].at + cfg.batchMs <= part[k].at)
    {
      assert part[k] == written[i + k] && part[k - 1] == written[i + k - 1];
    }
  }

  lemma UnforcedQuotient(cfg: Config, part: seq<Write>)
    requires Spaced(cfg, part) && part != [] && cfg.batchMs > 0
    ensures CountUnforced(part) - 1 <= (part[|part| - 1].at - part[0].at) / cfg.batchMs
  {
    var c, span := CountUnforced(part) - 1, part[|part| - 1].at - part[0].at;
    assert span >= 0 && (c < 0 || Times(c, cfg.batchMs) <= span) by { UnforcedSpan(cfg, part); }
    AtMostQuotient(c, cfg.batchMs, span);
  }

  lemma FullQuotient(cfg: Config, part: seq<Write>)
    requires Spaced(cfg, part) && cfg.maxBytes > 0
    ensures CountCause(part, Full) <= |Data(part)| / cfg.maxBytes
  {
    FullBytes(part, cfg.maxBytes);
    AtMostQuotient(CountCause(part, Full), cfg.maxBytes, |Data(part)|);
  }

  /** A stretch of writes spanning a time W and carrying B bytes has at most
      1 + W / batchMs + B / maxBytes writes besides those `flushes` account for. */
  ghost predicate WithinRate(cfg: Config, part: seq<Write>, flushes: nat)
    requires part != [] && cfg.batchMs > 0 && cfg.maxBytes > 0
  {
    var span := part[|part| - 1].at - part[0].at;
    span >= 0 && |part| <= 1 + span / cfg.batchMs + |Data(part)| / cfg.maxBytes + flushes
  }

  lemma RateOfPart(cfg: Config, part: seq<Write>)
    requires Spaced(cfg, part) && part != [] && cfg.batchMs > 0 && cfg.maxBytes > 0
    ensures WithinRate(cfg, part, CountCause(part, Explicit))
  {
    UnforcedSpan(cfg, part);
    CountsAddUp(part);
    UnforcedQuotient(cfg, part);
    FullQuotient(cfg, part);
  }

  lemma OneMore(c: int, d: int)
    ensures (c + 1) * d == c * d + d
  {}

  lemma {:induction false} TimesIsProduct(c: nat, d: int)
    ensures Times(c, d) == c * d
  {
    if c > 0 {
      TimesIsProduct(c - 1, d);
      OneMore(c - 1, d);
    }
  }

  lemma ProductGrows(a: int, b: int, d: nat)
    requires a <= b
    ensures a * d <= b * d
  {}

  lemma AtMostQuotient(c: int, d: int, total: int)
    requires d > 0 && total >= 0 && (c < 0 || Times(c, d) <= total)
    ensures c <= total / d
  {
    var q := total / d;
    assert total == q * d + total % d;
    OneMore(q, d);
    if c > q {
      TimesIsProduct(c, d);
      ProductGrows(q + 1, c, d);
    }
  }

  /** The calls of `flush` from `since` to `until`. */
  function FlushesWithin(events: seq<Event>, since: int, until: int): nat {
    if events == [] then 0
    else
      var e := events[|events| - 1];
      FlushesWithin(events[..|events| - 1], since, until) + if e.Flush? && since <= e.at <= until then 1 else 0
  }

  lemma {:induction false} LongerSpan(events: seq<Event>, since: int, until: int, later: int)
    requires until <= later
    ensures FlushesWithin(events, since, until) <= FlushesWithin(events, since, later)
  {
    if events != [] {
      LongerSpan(events[..|events| - 1], since, until, later);
    }
  }

  /** One event makes at most one write, for a call of `flush` if it says so. */
  lemma NextWrites(cfg: Config, st: State, e: Event)
    ensures var written := Next(cfg, st, e).written;
            || written == st.written
            || (var n := |st.written|;
                && |written| == n + 1 && written[..n] == st.written
                && written[n].at == e.at && (written[n].cause == Explicit ==> e.Flush?))
  {
    if e.Push? && !st.disposed && e.buf != [] {
      var st1 := st.(pending := st.pending + [e.buf], pendingBytes := st.pendingBytes + |e.buf|);
      var data := Concat(st1.pending);
      assert Flushed(st1, e.at, Full).written == st.written + [Write(e.at, data, Full)];
      assert Flushed(st1, e.at, Quiet).written == st.written + [Write(e.at, data, Quiet)];
    } else if e.TimerFires? || e.Flush? {
      var w := Write(e.at, Concat(st.pending), if e.Flush? then Explicit else Timed);
      assert Next(cfg, st, e).written == st.written || Next(cfg, st, e).written == st.written + [w];
    }
  }

  lemma CountOne(part: seq<Write>, w: Write, cause: Cause)
    ensures CountCause(part + [w], cause) == CountCause(part, cause) + if w.cause == cause then 1 else 0
  {
    assert (part + [w])[..|part|] == part;
  }

  lemma FlushesOne(before: seq<Event>, e: Event, since: int, until: int)
    ensures FlushesWithin(before + [e], since, until) ==
            FlushesWithin(before, since, until) + if e.Flush? && since <= e.at <= until then 1 else 0
  {
    assert (before + [e])[..|before|] == before;
  }

  /** The explicit writes of the stretch are at most the calls of `flush` within its span. */
  ghost predicate Accounted(events: seq<Event>, part: seq<Write>)
    requires part != []
  {
    CountCause(part, Explicit) <= FlushesWithin(events, part[0].at, part[|part| - 1].at)
  }

  /** Adding a write to a stretch adds at most the call of `flush` that made it. */
  lemma OneMoreExplicit(before: seq<Event>, e: Event, part: seq<Write>, w: Write)
    requires w.at == e.at && (w.cause == Explicit ==> e.Flush?)
    requires part != [] ==> part[0].at <= part[|part| - 1].at <= e.at && Accounted(before, part)
    ensures Accounted(before + [e], part + [w])
  {
    var since := (part + [w])[0].at;
    CountOne(part, w, Explicit);
    FlushesOne(before, e, since, e.at);
    if part == [] {
      assert CountCause(part, Explicit) == 0;
    } else {
      LongerSpan(before, since, part[|part| - 1].at, e.at);
    }
  }

  lemma EarlierAccounted(before: seq<Event>, e: Event, part: seq<Write>)
    requires part != [] && Accounted(before, part)
    ensures Accounted(before + [e], part)
  {
    FlushesOne(before, e, part[0].at, part[|part| - 1].at);
  }

  /** A stretch that ends with the latest write. */
  lemma LatestAccounted(cfg: Config, before: seq<Event>, e: Event, sofar: seq<Write>, w: Write, i: nat)
    requires Spaced(cfg, sofar + [w]) && i <= |sofar|
    requires w.at == e.at && (w.cause == Explicit ==> e.Flush?)
    requires i < |sofar| ==> Accounted(before, sofar[i..|sofar|])
    ensures Accounted(before + [e], (sofar + [w])[i..])
  {
    var part := sofar[i..|sofar|];
    assert (sofar + [w])[i..] == part + [w];
    if part != [] {
      SpacedPart(cfg, sofar + [w], i, |sofar|);
      assert (sofar + [w])[i..|sofar|] == part;
      UnforcedSpan(cfg, part);
      assert (sofar + [w])[|sofar| - 1] == part[|part| - 1] && (sofar + [w])[|sofar|] == w;
    }
    OneMoreExplicit(before, e, part, w);
  }

  /** If the stretches made so far are accounted for, so are those after one more event. */
  lemma ExplicitNext(cfg: Config, st: State, before: seq<Event>, e: Event, i: nat, j: nat)
    requires var written := Next(cfg, st, e).written; Spaced(cfg, written) && i < j <= |written|
    requires j <= |st.written| ==> Accounted(before, st.written[i..j])
    requires i < |st.written| < j ==> Accounted(before, st.written[i..|st.written|])
    ensures Accounted(before + [e], Next(cfg, st, e).written[i..j])
  {
    var written := Next(cfg, st, e).written;
    NextWrites(cfg, st, e);
    if j <= |st.written| {
      assert written[i..j] == st.written[i..j];
      EarlierAccounted(before, e, st.written[i..j]);
    } else {
      assert written == st.written + [written[|st.written|]] && written[i..j] == written[i..];
      LatestAccounted(cfg, before, e, st.written, written[|st.written|], i);
    }
  }

  /** The explicit writes of any stretch are at most the calls of `flush` within its span. */
  lemma {:induction false} ExplicitAreFlushes(cfg: Config, events: seq<Event>, i: nat, j: nat)
    requires Legal(cfg, events) && i < j <= |Run(cfg, events).written|
    ensures Accounted(events, Run(cfg, events).written[i..j])
  {
    var before := events[..|events| - 1];
    var st := Run(cfg, before);
    if j <= |st.written| {
      ExplicitAreFlushes(cfg, before, i, j);
    } else if i < |st.written| {
      ExplicitAreFlushes(cfg, before, i, |st.written|);
    }
    WritesAreSpaced(cfg, events);
    ExplicitNext(cfg, st, before, events[|events| - 1], i, j);
    assert events == before + [events[|events| - 1]];
  }

  /** Every stretch of every run's writes keeps to that rate, counting the calls of `flush`
      within its span. */
  lemma WriteRate(cfg: Config, events: seq<Event>, i: nat, j: nat)
    requires Legal(cfg, events) && i < j <= |Run(cfg, events).written|
    requires cfg.batchMs > 0 && cfg.maxBytes > 0
    ensures var part := Run(cfg, events).written[i..j];
            WithinRate(cfg, part, FlushesWithin(events, part[0].at, part[|part| - 1].at))
  {
    WritesAreSpaced(cfg, events);
    SpacedPart(cfg, Run(cfg, events).written, i, j);
    RateOfPart(cfg, Run(cfg, events).written[i..j]);
    ExplicitAreFlushes(cfg, events, i, j);
  }
}
