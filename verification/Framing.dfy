/**
 * The frame codec of terminal streams (dockerfiles/streamd/framing.js):
 * `[1 byte type][4 byte big-endian length][payload]`.
 */
module Framing {
  import opened Text

  type Byte = x: int | 0 <= x < 256

  const FRAME_DATA: Byte := 0
  const FRAME_RESIZE: Byte := 1
  const FRAME_SIGNAL: Byte := 2
  const FRAME_EXIT: Byte := 3

  const HEADER_BYTES := 5
  const MAX_FRAME_BYTES := 1024 * 1024
  const UINT32 := 0x1_0000_0000

  datatype Frame = Frame(kind: Byte, payload: seq<Byte>)

  /** The lowest `k` bytes of `n`, highest first. */
  function BigEndian(n: nat, k: nat): (b: seq<Byte>)
    ensures |b| == k
  {
    if k == 0 then [] else BigEndian(n / 256, k - 1) + [n % 256]
  }

  function ReadBigEndian(b: seq<Byte>): nat {
    if b == [] then 0 else ReadBigEndian(b[..|b| - 1]) * 256 + b[|b| - 1] as int
  }

  function Pow256(k: nat): nat {
    if k == 0 then 1 else 256 * Pow256(k - 1)
  }

  /** The payload length a header announces. */
  function Announced(buf: seq<Byte>): nat
    requires |buf| >= HEADER_BYTES
  {
    ReadBigEndian(buf[1..HEADER_BYTES])
  }

  /** None where the header writes throw a range error. */
  function EncodeFrame(kind: int, body: seq<Byte>): Option<seq<Byte>> {
    if 0 <= kind < 256 && |body| < UINT32 then Some([kind] + BigEndian(|body|, 4) + body) else None
  }

  datatype Fed = Frames(frames: seq<Frame>) | TooLarge(length: nat)

  /** What the parser's loop makes of a buffer: the complete frames, what is left, and
      whether it stopped at an oversized header. */
  datatype Parsed = Parsed(frames: seq<Frame>, rest: seq<Byte>, oversized: bool)

  function Parse(buf: seq<Byte>): (p: Parsed)
    ensures p.oversized ==> |p.rest| >= HEADER_BYTES && Announced(p.rest) > MAX_FRAME_BYTES
    ensures !p.oversized ==> |p.rest| <= MAX_FRAME_BYTES + 4
  {
    if |buf| < HEADER_BYTES then Parsed([], buf, false)
    else
      var length := Announced(buf);
      if length > MAX_FRAME_BYTES then Parsed([], buf, true)
      else if |buf| < HEADER_BYTES + length then Parsed([], buf, false)
      else
        var p := Parse(buf[HEADER_BYTES + length..]);
        Parsed([Frame(buf[0], buf[HEADER_BYTES..HEADER_BYTES + length])] + p.frames, p.rest, p.oversized)
  }

  /** `frames` already taken, followed by what is still to be parsed. */
  function Glue(frames: seq<Frame>, p: Parsed): Parsed {
    Parsed(frames + p.frames, p.rest, p.oversized)
  }

  /** `buf` starts with a complete frame. */
  predicate Ready(buf: seq<Byte>) {
    && |buf| >= HEADER_BYTES && Announced(buf) <= MAX_FRAME_BYTES
    && |buf| >= HEADER_BYTES + Announced(buf)
  }

  lemma TakeFrame(frames: seq<Frame>, buf: seq<Byte>)
    requires Ready(buf)
    ensures var n := HEADER_BYTES + Announced(buf);
            Glue(frames, Parse(buf)) == Glue(frames + [Frame(buf[0], buf[HEADER_BYTES..n])], Parse(buf[n..]))
  {
    var n := HEADER_BYTES + Announced(buf);
    var p := Parse(buf[n..]);
    var f := Frame(buf[0], buf[HEADER_BYTES..n]);
    assert Parse(buf) == Parsed([f] + p.frames, p.rest, p.oversized);
    assert frames + ([f] + p.frames) == frames + [f] + p.frames;
  }

  lemma NotReady(frames: seq<Frame>, buf: seq<Byte>)
    requires !Ready(buf)
    ensures Glue(frames, Parse(buf)) ==
            Parsed(frames, buf, |buf| >= HEADER_BYTES && Announced(buf) > MAX_FRAME_BYTES)
  {
    assert frames + [] == frames;
  }

  class FrameParser {
    var buf: seq<Byte>

    constructor ()
      ensures buf == []
    {
      buf := [];
    }

    /** Every complete frame of what was buffered followed by `chunk`. On an oversized
        header it throws: the frames before it are lost, the header stays buffered. */
    method Feed(chunk: seq<Byte>) returns (r: Fed)
      modifies this
      ensures var p := Parse(old(buf) + chunk);
              && buf == p.rest
              && r == if p.oversized then TooLarge(Announced(p.rest)) else Frames(p.frames)
    {
      ghost var whole := Parse(buf + chunk);
      buf := if |buf| == 0 then chunk else buf + chunk;
      assert old(buf) + chunk == buf;
      var frames: seq<Frame> := [];
      while true
        invariant whole == Glue(frames, Parse(buf))
        decreases |buf|
      {
        if Ready(buf) {
          TakeFrame(frames, buf);
        } else {
          NotReady(frames, buf);
        }
        if |buf| < HEADER_BYTES {
          return Frames(frames);
        }
        var kind := buf[0];
        var length := Announced(buf);
        if length > MAX_FRAME_BYTES {
          return TooLarge(length);
        }
        if |buf| < HEADER_BYTES + length {
          return Frames(frames);
        }
        frames := frames + [Frame(kind, buf[HEADER_BYTES..HEADER_BYTES + length])];
        buf := buf[HEADER_BYTES + length..];
      }
    }
  }

  // ------------------------------------------------------------------ byte order

  /** The header holds the kind and the payload's length, highest byte first; a kind or a
      length that does not fit makes the header writes throw. */
  lemma HeaderIsBigEndian(kind: int, body: seq<Byte>)
    ensures EncodeFrame(kind, body).Some? <==> 0 <= kind <= 255 && |body| <= 4294967295
    ensures EncodeFrame(kind, body).Some? ==>
              var n := |body|;
              EncodeFrame(kind, body).value ==
                [kind, n / 16777216 % 256, n / 65536 % 256, n / 256 % 256, n % 256] + body
  {
    if EncodeFrame(kind, body).Some? {
      FourBytes(|body|);
    }
  }

  lemma DivideTwice(n: nat)
    ensures n / 256 / 256 == n / 65536 && n / 65536 / 256 == n / 16777216
  {}

  lemma FourBytes(n: nat)
    ensures BigEndian(n, 4) == [n / 16777216 % 256, n / 65536 % 256, n / 256 % 256, n % 256]
  {
    DivideTwice(n);
    var a, b, c := n / 256, n / 65536, n / 16777216;
    assert BigEndian(c, 1) == BigEndian(c / 256, 0) + [c % 256];
    assert BigEndian(b, 2) == BigEndian(c, 1) + [b % 256];
    assert BigEndian(a, 3) == BigEndian(b, 2) + [a % 256];
  }

  /** Byte `i` of a number written in `k` bytes. */
  lemma {:induction false} BigEndianDigit(n: nat, k: nat, i: nat)
    requires i < k
    ensures Pow256(k - 1 - i) > 0 && BigEndian(n, k)[i] == n / Pow256(k - 1 - i) % 256
  {
    if i < k - 1 {
      BigEndianDigit(n / 256, k - 1, i);
      DivideTogether(n, Pow256(k - 2 - i));
    }
  }

  lemma DivideTogether(n: nat, p: nat)
    requires p > 0
    ensures n / 256 / p == n / (256 * p)
  {
    var m, a := n / 256, n % 256;
    var q, b := m / p, m % p;
    assert n == 256 * (q * p + b) + a;
    assert n == q * (256 * p) + (256 * b + a);
    QuotientIs(n, 256 * p, q, 256 * b + a);
  }

  lemma QuotientIs(n: nat, d: nat, q: nat, r: nat)
    requires n == q * d + r && r < d
    ensures n / d == q
  {
    var k := n / d;
    assert k * d <= n < (k + 1) * d;
    if k < q {
      ProductGrows(k + 1, q, d);
    } else if k > q {
      ProductGrows(q + 1, k, d);
    }
  }

  lemma ProductGrows(a: nat, b: nat, d: nat)
    requires a <= b
    ensures a * d <= b * d
  {}

  /** A header announces its last four bytes, the highest first. */
  lemma AnnouncedIsBigEndian(buf: seq<Byte>)
    requires |buf| >= HEADER_BYTES
    ensures Announced(buf) == 16777216 * buf[1] as int + 65536 * buf[2] as int + 256 * buf[3] as int + buf[4] as int
  {
    var b := buf[1..HEADER_BYTES];
    assert b == [buf[1], buf[2], buf[3], buf[4]];
    assert b[..3] == [buf[1], buf[2], buf[3]] && b[..2] == [buf[1], buf[2]] && b[..1] == [buf[1]];
    assert b[..3][..2] == b[..2] && b[..2][..1] == b[..1];
    assert ReadBigEndian(b[..1]) == buf[1];
    assert ReadBigEndian(b[..2]) == 256 * buf[1] as int + buf[2] as int;
    assert ReadBigEndian(b[..3]) == 256 * ReadBigEndian(b[..2]) + buf[3] as int;
  }

  // ------------------------------------------------------------------ round trips

  lemma {:induction false} BigEndianRoundTrip(n: nat, k: nat)
    requires n < Pow256(k)
    ensures ReadBigEndian(BigEndian(n, k)) == n
  {
    if k > 0 {
      BigEndianRoundTrip(n / 256, k - 1);
    }
  }

  lemma {:induction false} ReadBigEndianRoundTrip(b: seq<Byte>)
    ensures BigEndian(ReadBigEndian(b), |b|) == b && ReadBigEndian(b) < Pow256(|b|)
  {
    if b != [] {
      ReadBigEndianRoundTrip(b[..|b| - 1]);
      var n := ReadBigEndian(b[..|b| - 1]);
      assert (n * 256 + b[|b| - 1]) / 256 == n;
    }
  }

  /** A frame the parser accepts. */
  predicate Fits(f: Frame) {
    |f.payload| <= MAX_FRAME_BYTES
  }

  predicate AllFit(frames: seq<Frame>) {
    forall f | f in frames :: Fits(f)
  }

  function Encoded(f: Frame): seq<Byte>
    requires Fits(f)
  {
    EncodeFrame(f.kind, f.payload).value
  }

  /** The byte stream of a list of frames. */
  function EncodedAll(frames: seq<Frame>): seq<Byte>
    requires AllFit(frames)
  {
    if frames == [] then [] else Encoded(frames[0]) + EncodedAll(frames[1..])
  }

  lemma HeadOfStream(f: Frame, tail: seq<Byte>)
    requires Fits(f)
    ensures var s := Encoded(f) + tail; var n := HEADER_BYTES + |f.payload|;
            && |s| >= n && Announced(s) == |f.payload|
            && s[0] == f.kind && s[HEADER_BYTES..n] == f.payload && s[n..] == tail
  {
    var s := Encoded(f) + tail;
    assert Pow256(4) == UINT32;
    BigEndianRoundTrip(|f.payload|, 4);
    assert s[1..HEADER_BYTES] == BigEndian(|f.payload|, 4);
  }

  lemma ParseOne(f: Frame, tail: seq<Byte>)
    requires Fits(f)
    ensures Parse(Encoded(f) + tail) == Glue([f], Parse(tail))
  {
    HeadOfStream(f, tail);
  }

  lemma GlueGlue(f: Frame, frames: seq<Frame>, p: Parsed)
    ensures Glue([f], Glue(frames, p)) == Glue([f] + frames, p)
  {
    assert [f] + (frames + p.frames) == [f] + frames + p.frames;
  }

  /** Parsing a stream of frames gives those frames back and goes on with what follows. */
  lemma {:induction false} ParseEncoded(frames: seq<Frame>, tail: seq<Byte>)
    requires AllFit(frames)
    ensures Parse(EncodedAll(frames) + tail) == Glue(frames, Parse(tail))
  {
    if frames == [] {
      assert EncodedAll(frames) + tail == tail;
      assert [] + Parse(tail).frames == Parse(tail).frames;
    } else {
      var next := EncodedAll(frames[1..]) + tail;
      assert EncodedAll(frames) + tail == Encoded(frames[0]) + next;
      ParseOne(frames[0], next);
      ParseEncoded(frames[1..], tail);
      GlueGlue(frames[0], frames[1..], Parse(tail));
      assert [frames[0]] + frames[1..] == frames;
    }
  }

  lemma HeadReencodes(buf: seq<Byte>)
    requires Ready(buf)
    ensures var n := HEADER_BYTES + Announced(buf);
            Encoded(Frame(buf[0], buf[HEADER_BYTES..n])) + buf[n..] == buf
  {
    ReadBigEndianRoundTrip(buf[1..HEADER_BYTES]);
    assert buf == [buf[0]] + buf[1..HEADER_BYTES] + buf[HEADER_BYTES..];
  }

  /** Re-encoding what was parsed, followed by what is left, is the bytes that were fed. */
  lemma {:induction false} ParseReencodes(buf: seq<Byte>)
    ensures var p := Parse(buf); AllFit(p.frames) && EncodedAll(p.frames) + p.rest == buf
    decreases |buf|
  {
    if Ready(buf) {
      var n := HEADER_BYTES + Announced(buf);
      ParseReencodes(buf[n..]);
      HeadReencodes(buf);
      var p := Parse(buf);
      assert p.frames[1..] == Parse(buf[n..]).frames;
    } else {
      assert EncodedAll([]) + buf == buf;
    }
  }

  // ------------------------------------------------------------------- chunking

  /** What is left over parses to nothing further by itself. */
  lemma {:induction false} RestIsStuck(buf: seq<Byte>)
    ensures var p := Parse(buf); Parse(p.rest) == Parsed([], p.rest, p.oversized)
    decreases |buf|
  {
    if Ready(buf) {
      RestIsStuck(buf[HEADER_BYTES + Announced(buf)..]);
    }
  }

  /** More bytes are parsed as if they followed the leftover alone. */
  lemma ParseAppend(a: seq<Byte>, b: seq<Byte>)
    ensures var p := Parse(a); var q := Parse(p.rest + b);
            Parse(a + b) == Parsed(p.frames + q.frames, q.rest, q.oversized)
  {
    var p := Parse(a);
    ParseReencodes(a);
    assert a + b == EncodedAll(p.frames) + (p.rest + b);
    ParseEncoded(p.frames, p.rest + b);
  }

  /** An oversized header stays where it is. */
  lemma OversizedStays(buf: seq<Byte>, more: seq<Byte>)
    requires |buf| >= HEADER_BYTES && Announced(buf) > MAX_FRAME_BYTES
    ensures Parse(buf + more) == Parsed([], buf + more, true)
  {
    assert (buf + more)[1..HEADER_BYTES] == buf[1..HEADER_BYTES];
  }

  function Concat(chunks: seq<seq<Byte>>): seq<Byte> {
    if chunks == [] then [] else Concat(chunks[..|chunks| - 1]) + chunks[|chunks| - 1]
  }

  /** A new parser after feeding it the chunks in turn: everything the calls returned, the
      buffer, and whether the last call threw. */
  function Feeding(chunks: seq<seq<Byte>>): Parsed {
    if chunks == [] then Parsed([], [], false)
    else
      var before := Feeding(chunks[..|chunks| - 1]);
      var p := Parse(before.rest + chunks[|chunks| - 1]);
      Parsed(before.frames + if p.oversized then [] else p.frames, p.rest, p.oversized)
  }

  /** A parser object fed the chunks in turn is in the state `Feeding` gives. */
  method FeedAll(parser: FrameParser, chunks: seq<seq<Byte>>) returns (frames: seq<Frame>, threw: bool)
    requires parser.buf == []
    modifies parser
    ensures Feeding(chunks) == Parsed(frames, parser.buf, threw)
  {
    frames, threw := [], false;
    for i := 0 to |chunks|
      invariant Feeding(chunks[..i]) == Parsed(frames, parser.buf, threw)
    {
      assert chunks[..i + 1][..i] == chunks[..i];
      var r := parser.Feed(chunks[i]);
      threw := r.TooLarge?;
      if r.Frames? {
        frames := frames + r.frames;
      }
    }
    assert chunks[..|chunks|] == chunks;
  }

  /** Chunking does not matter: the buffer and whether the last call throws depend only on
      the bytes fed, and so do all the frames returned while no header is oversized. */
  lemma {:induction false} ChunkingInvariant(chunks: seq<seq<Byte>>)
    ensures var f := Feeding(chunks); var p := Parse(Concat(chunks));
            f.rest == p.rest && f.oversized == p.oversized && (!p.oversized ==> f.frames == p.frames)
  {
    if chunks != [] {
      var front := chunks[..|chunks| - 1];
      var last := chunks[|chunks| - 1];
      ChunkingInvariant(front);
      ParseAppend(Concat(front), last);
      var before := Parse(Concat(front));
      if before.oversized {
        OversizedStays(before.rest, last);
      }
    }
  }

  /** Once a call has thrown, every later one does. */
  lemma ThrowsForGood(chunks: seq<seq<Byte>>, more: seq<Byte>)
    requires Feeding(chunks).oversized
    ensures Feeding(chunks + [more]).oversized && Feeding(chunks + [more]).frames == Feeding(chunks).frames
  {
    var f := Feeding(chunks);
    assert (chunks + [more])[..|chunks|] == chunks;
    ChunkingInvariant(chunks);
    OversizedStays(f.rest, more);
  }

  /** The stream holds whole frames and then a header that announces too much. */
  ghost predicate OversizedAt(s: seq<Byte>, frames: seq<Frame>, header: seq<Byte>) {
    && AllFit(frames) && |header| == HEADER_BYTES && Announced(header) > MAX_FRAME_BYTES
    && EncodedAll(frames) + header <= s
  }

  lemma OversizedIsHeader(s: seq<Byte>)
    requires Parse(s).oversized
    ensures exists frames, header :: OversizedAt(s, frames, header)
  {
    var p := Parse(s);
    ParseReencodes(s);
    var header := p.rest[..HEADER_BYTES];
    assert header[1..HEADER_BYTES] == p.rest[1..HEADER_BYTES];
    assert EncodedAll(p.frames) + header == s[..|EncodedAll(p.frames)| + HEADER_BYTES];
    assert OversizedAt(s, p.frames, header);
  }

  lemma HeaderIsOversized(s: seq<Byte>, frames: seq<Frame>, header: seq<Byte>)
    requires OversizedAt(s, frames, header)
    ensures Parse(s).oversized
  {
    var more := s[|EncodedAll(frames) + header|..];
    assert s == EncodedAll(frames) + (header + more);
    ParseEncoded(frames, header + more);
    OversizedStays(header, more);
  }

  /** A call throws exactly when the bytes fed so far include, at a frame boundary, all five
      bytes of an oversized header; so the first call to throw is the one that delivers the
      fifth byte. Otherwise the buffer holds at most one incomplete frame. */
  lemma ThrowsIffOversizedHeader(chunks: seq<seq<Byte>>)
    ensures var f := Feeding(chunks);
            && (f.oversized <==> exists frames, header :: OversizedAt(Concat(chunks), frames, header))
            && (!f.oversized ==> |f.rest| <= MAX_FRAME_BYTES + 4 && Parse(f.rest).frames == [])
  {
    var s := Concat(chunks);
    ChunkingInvariant(chunks);
    RestIsStuck(s);
    if Parse(s).oversized {
      OversizedIsHeader(s);
    }
    forall frames, header | OversizedAt(s, frames, header)
      ensures Parse(s).oversized
    {
      HeaderIsOversized(s, frames, header);
    }
  }
}
