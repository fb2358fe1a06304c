/**
 * From the child's output to the client: the batcher's writes, each sent as one
 * data frame (dockerfiles/streamd/streamd.js:296-299), and a frame parser at the
 * other end.
 */
module Delivery {
  import opened Framing
  import opened Batcher
  import opened BatcherTheorems
  import opened BatcherSizes

  /** One data frame per write. */
  function DataFrames(written: seq<Write>): seq<Frame> {
    if written == [] then []
    else DataFrames(written[..|written| - 1]) + [Frame(FRAME_DATA, written[|written| - 1].data)]
  }

  /** The frames are data frames, which have type 0, of the first writes. */
  ghost predicate AreDataFrames(frames: seq<Frame>, written: seq<Write>) {
    && |frames| <= |written|
    && forall k | 0 <= k < |frames| :: frames[k] == Frame(0, written[k].data)
  }

  lemma {:induction false} DataFramesAt(written: seq<Write>)
    ensures |DataFrames(written)| == |written|
    ensures forall k | 0 <= k < |written| :: DataFrames(written)[k] == Frame(0, written[k].data)
  {
    if written != [] {
      DataFramesAt(written[..|written| - 1]);
    }
  }

  /** The payloads in order. */
  function Payloads(frames: seq<Frame>): seq<Byte> {
    if frames == [] then [] else Payloads(frames[..|frames| - 1]) + frames[|frames| - 1].payload
  }

  lemma {:induction false} DataFramesCarry(written: seq<Write>)
    ensures Payloads(DataFrames(written)) == Data(written)
    ensures WritesAtMost(written, MAX_FRAME_BYTES) ==> AllFit(DataFrames(written))
  {
    if written != [] {
      var front := written[..|written| - 1];
      DataFramesCarry(front);
      assert DataFrames(written)[..|DataFrames(front)|] == DataFrames(front);
      assert forall w | w in front :: w in written;
      assert written[|written| - 1] in written;
    }
  }

  lemma {:induction false} PayloadsPrefix(frames: seq<Frame>, more: seq<Frame>)
    ensures Payloads(frames) <= Payloads(frames + more)
  {
    if more == [] {
      assert frames + more == frames;
    } else {
      var fewer := more[..|more| - 1];
      PayloadsPrefix(frames, fewer);
      assert (frames + more)[..|frames + more| - 1] == frames + fewer;
    }
  }

  /** The bytes on the socket. */
  function Stream(written: seq<Write>): seq<Byte>
    requires WritesAtMost(written, MAX_FRAME_BYTES)
  {
    DataFramesCarry(written);
    EncodedAll(DataFrames(written))
  }

  /** Feeding a prefix of a stream of frames yields a prefix of the frames, without error. */
  lemma PrefixIsParsed(frames: seq<Frame>, sent: seq<Byte>)
    requires AllFit(frames) && sent <= EncodedAll(frames)
    ensures var p := Parse(sent);
            && !p.oversized && p.frames <= frames
            && (sent == EncodedAll(frames) ==> p.rest == [] && p.frames == frames)
  {
    var more := EncodedAll(frames)[|sent|..];
    ParseEncoded(frames, []);
    assert EncodedAll(frames) + [] == sent + more && frames + [] == frames;
    ParseAppend(sent, more);
    var p := Parse(sent);
    if p.oversized {
      OversizedStays(p.rest, more);
    }
    if sent == EncodedAll(frames) {
      assert sent + [] == sent;
    }
  }

  lemma {:induction false} StreamGivesFrames(written: seq<Write>, chunks: seq<seq<Byte>>)
    requires WritesAtMost(written, MAX_FRAME_BYTES) && Concat(chunks) <= Stream(written)
    ensures var f := Feeding(chunks);
            && !f.oversized && Payloads(f.frames) <= Data(written)
            && f.frames <= DataFrames(written)
            && (Concat(chunks) == Stream(written) ==> f.rest == [] && f.frames == DataFrames(written))
  {
    var frames := DataFrames(written);
    DataFramesCarry(written);
    ChunkingInvariant(chunks);
    PrefixIsParsed(frames, Concat(chunks));
    var got := Feeding(chunks).frames;
    assert frames == got + frames[|got|..];
    PayloadsPrefix(got, frames[|got|..]);
  }

  /** A client fed any part of the stream, in any chunks, sees no error and gets whole data
      frames whose bytes are a prefix of what was written; fed all of it, it gets all. */
  lemma {:induction false} StreamIsParsed(written: seq<Write>, chunks: seq<seq<Byte>>)
    requires WritesAtMost(written, MAX_FRAME_BYTES) && Concat(chunks) <= Stream(written)
    ensures !Feeding(chunks).oversized && AreDataFrames(Feeding(chunks).frames, written)
    ensures Payloads(Feeding(chunks).frames) <= Data(written)
    ensures Concat(chunks) == Stream(written) ==> Feeding(chunks).rest == [] && |Feeding(chunks).frames| == |written|
  {
    StreamGivesFrames(written, chunks);
    DataFramesAt(written);
  }

  /** End to end: while no frame can be oversized, what the client has decoded is a prefix of
      what the child printed; once the whole stream has arrived, all that is missing is
      still pending in the batcher. */
  lemma {:induction false} EndToEnd(cfg: Config, events: seq<Event>, p: nat, chunks: seq<seq<Byte>>)
    requires Legal(cfg, events) && NoDispose(events) && PushesAtMost(events, p)
    requires NeverOversized(cfg, p)
    ensures var st := Run(cfg, events);
            && WritesAtMost(st.written, MAX_FRAME_BYTES)
            && (Concat(chunks) <= Stream(st.written) ==>
                  !Feeding(chunks).oversized && Payloads(Feeding(chunks).frames) <= AllPushed(events))
            && (Concat(chunks) == Stream(st.written) ==>
                  Payloads(Feeding(chunks).frames) + Concat(st.pending) == AllPushed(events))
  {
    var st := Run(cfg, events);
    assert WritesAtMost(st.written, MAX_FRAME_BYTES);
    NothingIsLost(cfg, events);
    DataFramesCarry(st.written);
    if Concat(chunks) <= Stream(st.written) {
      StreamGivesFrames(st.written, chunks);
    }
  }

  /** `flush` is a barrier: a client that has received everything sent up to it, and so
      everything before an exit frame, has decoded all the child printed. */
  lemma {:induction false} FlushIsBarrier(cfg: Config, events: seq<Event>, at: int, p: nat, chunks: seq<seq<Byte>>)
    requires Legal(cfg, events + [Flush(at)]) && NoDispose(events) && PushesAtMost(events, p)
    requires NeverOversized(cfg, p)
    ensures var st := Run(cfg, events + [Flush(at)]);
            && WritesAtMost(st.written, MAX_FRAME_BYTES)
            && (Concat(chunks) == Stream(st.written) ==> Payloads(Feeding(chunks).frames) == AllPushed(events))
  {
    var all := events + [Flush(at)];
    assert all[..|events|] == events;
    EndToEnd(cfg, all, p, chunks);
    RunIsSane(cfg, all);
    assert AllPushed(all) == AllPushed(events) + [];
  }
}
