/**
  Streams of frames through the decoder: feeding a chunk and draining every frame it completes.
 */
module FipcStream {
  import opened Words
  import opened Crc
  import opened Envelope
  import opened FipcCodec

  /** All the frames a buffer starts with, what is left, and what is wrong with that, if anything. */
  datatype Drained = Drained(frames: seq<Frame>, rest: seq<byte>, error: Option<ProtocolError>)

  function Drain(crc: Checksum, lim: Limits, b: seq<byte>): Drained
    decreases |b|
  {
    match NextFrame(crc, lim, b)
    case Incomplete => Drained([], b, None)
    case Malformed(e) => Drained([], b, Some(e))
    case Found(f, n) =>
      var d := Drain(crc, lim, b[n..]);
      d.(frames := [f] + d.frames)
  }

  lemma DrainUnfolds(crc: Checksum, lim: Limits, b: seq<byte>)
    ensures var n, d := NextFrame(crc, lim, b), Drain(crc, lim, b);
      && (n.Incomplete? ==> d == Drained([], b, None))
      && (n.Malformed? ==> d == Drained([], b, Some(n.error)))
      && (n.Found? ==> var e := Drain(crc, lim, b[n.size..]); d == e.(frames := [n.frame] + e.frames))
  {
    hide NextFrame;
  }

  /** Draining in two steps is draining at once. */
  lemma {:induction false} DrainSplit(crc: Checksum, lim: Limits, x: seq<byte>, y: seq<byte>)
    ensures var d, whole := Drain(crc, lim, x), Drain(crc, lim, x + y);
      && (d.error.Some? ==> whole.frames == d.frames && whole.error == d.error)
      && (d.error.None? ==> var e := Drain(crc, lim, d.rest + y); whole == e.(frames := d.frames + e.frames))
    decreases |x|
  {
    hide NextFrame, Drain;
    DrainUnfolds(crc, lim, x);
    DrainUnfolds(crc, lim, x + y);
    var n := NextFrame(crc, lim, x);
    if n.Incomplete? {
      var e := Drain(crc, lim, x + y);
      assert [] + e.frames == e.frames;
    } else {
      NextFrameStable(crc, lim, x, y);
      if n.Found? {
        var rest := x[n.size..];
        assert (x + y)[n.size..] == rest + y;
        DrainSplit(crc, lim, rest, y);
        var d := Drain(crc, lim, rest);
        var e := Drain(crc, lim, d.rest + y);
        assert [n.frame] + (d.frames + e.frames) == [n.frame] + d.frames + e.frames;
      }
    }
  }

  /** What a drain without an error leaves is the beginning of a frame at most. */
  lemma {:induction false} RestIsIncomplete(crc: Checksum, lim: Limits, b: seq<byte>)
    requires Drain(crc, lim, b).error.None?
    ensures NextFrame(crc, lim, Drain(crc, lim, b).rest).Incomplete?
    decreases |b|
  {
    hide NextFrame, Drain;
    DrainUnfolds(crc, lim, b);
    var n := NextFrame(crc, lim, b);
    if n.Found? {
      RestIsIncomplete(crc, lim, b[n.size..]);
    }
  }

  lemma {:induction false} RestIsShort(crc: Checksum, lim: Limits, b: seq<byte>)
    requires HEADER_SIZE <= lim.maxFrameBytes
    ensures var d := Drain(crc, lim, b); |d.rest| <= |b| && (d.error.None? ==> |d.rest| < lim.maxFrameBytes)
    decreases |b|
  {
    hide NextFrame;
    var n := NextFrame(crc, lim, b);
    if n.Found? {
      RestIsShort(crc, lim, b[n.size..]);
    }
  }

  // ---- Feeding the decoder in chunks ----

  /** The decoder's state, the frames delivered so far, and the first error. */
  datatype Pumped = Pumped(state: State, frames: seq<Frame>, error: Option<ProtocolError>)

  function Pump(crc: Checksum, lim: Limits, s: State, chunk: seq<byte>): Pumped {
    if s.closed then Pumped(s, [], Some(AlreadyClosed))
    else if OverLimit(lim, |s.buffer|, |chunk|) then Pumped(s.(closed := true), [], Some(BufferLimitExceeded))
    else
      var d := Drain(crc, lim, s.buffer + chunk);
      Pumped(State(d.rest, d.error.Some?), d.frames, d.error)
  }

  /** `all` is what has been received, the frame in hand if any, and what draining the buffer would give. */
  ghost predicate Received(all: Drained, frames: seq<Frame>, r: Decoded, s: State, d: Drained) {
    match r
    case Ready(f) => !s.closed && all == d.(frames := frames + [f] + d.frames)
    case NeedMore => !s.closed && all == Drained(frames, s.buffer, None)
    case Closed(e) => s.closed && e.Some? && all == Drained(frames, s.buffer, e)
  }

  lemma FeedReceives(crc: Checksum, lim: Limits, s: State, data: seq<byte>, frames: seq<Frame>, all: Drained)
    requires !s.closed && !OverLimit(lim, |s.buffer|, |data|)
    requires var d := Drain(crc, lim, s.buffer + data); all == d.(frames := frames + d.frames)
    ensures var (s', r) := FeedStep(crc, lim, s, data);
      && Received(all, frames, r, s', Drain(crc, lim, s'.buffer))
      && |s'.buffer| <= |s.buffer| + |data| && (r.Ready? ==> |s'.buffer| < |s.buffer| + |data|)
  {
    hide NextFrame;
    var (s', r) := FeedStep(crc, lim, s, data);
    if r.Ready? {
      var d := Drain(crc, lim, s'.buffer);
      assert frames + ([r.frame] + d.frames) == frames + [r.frame] + d.frames;
    } else {
      assert frames + [] == frames;
    }
  }

  const STATUS_EVENT: u16 := 0x0040

  /** The payload of the first status event. */
  function FirstStatus(fs: seq<Frame>): Option<seq<byte>> {
    if fs == [] then None else if fs[0].kind == STATUS_EVENT then Some(fs[0].payload) else FirstStatus(fs[1..])
  }

  lemma {:induction false} FirstStatusConcat(fs: seq<Frame>, gs: seq<Frame>)
    ensures FirstStatus(fs + gs) == if FirstStatus(fs).Some? then FirstStatus(fs) else FirstStatus(gs)
  {
    if fs == [] {
      assert fs + gs == gs;
    } else {
      assert (fs + gs)[0] == fs[0] && (fs + gs)[1..] == fs[1..] + gs;
      FirstStatusConcat(fs[1..], gs);
    }
  }

  /**
    The client's receive loop: feed the chunk, then nothing, until no more frame comes or the buffer is
    empty. A status event ends it at once; without one, it delivers what the buffered bytes complete.
   */
  method PumpChunk(codec: FipcCodec, chunk: seq<byte>)
    returns (frames: seq<Frame>, status: Option<seq<byte>>, error: Option<ProtocolError>)
    modifies codec
    ensures var p := Pump(codec.crc, codec.limits, old(codec.Contents()), chunk);
      && status == FirstStatus(p.frames) && frames <= p.frames
      && (status.None? ==> Pumped(codec.Contents(), frames, error) == p)
      && (status.Some? ==> error.None? && FirstStatus(frames) == status && FirstStatus(frames[..|frames| - 1]).None?)
  {
    hide NextFrame, Drain, FeedStep, FirstStatus;
    frames, status, error := [], None, None;
    NoStatus();
    if codec.closed || OverLimit(codec.limits, |codec.buffer|, |chunk|) {
      FeedRefused(codec.crc, codec.limits, codec.Contents(), chunk);
      var r := codec.Feed(chunk);
      return [], None, r.error;
    }
    ghost var all := Drain(codec.crc, codec.limits, codec.buffer + chunk);
    assert [] + all.frames == all.frames;
    FeedReceives(codec.crc, codec.limits, codec.Contents(), chunk, [], all);
    var r := codec.Feed(chunk);
    while r.Ready?
      invariant |codec.buffer| <= codec.limits.maxSingleAllocation
      invariant FirstStatus(frames).None? && status.None?
      invariant Received(all, frames, r, codec.Contents(), Drain(codec.crc, codec.limits, codec.buffer))
      decreases r.Ready?, |codec.buffer|
    {
      StatusStep(frames, r.frame, Drain(codec.crc, codec.limits, codec.buffer).frames);
      frames := frames + [r.frame];
      if r.frame.kind == STATUS_EVENT {
        return frames, Some(r.frame.payload), None;
      }
      if |codec.buffer| == 0 {
        EmptyIncomplete(codec.crc, codec.limits);
        assert frames + [] == frames;
        r := NeedMore;
      } else {
        assert codec.buffer + [] == codec.buffer;
        FeedReceives(codec.crc, codec.limits, codec.Contents(), [], frames, all);
        r := codec.Feed([]);
      }
    }
    error := if r.Closed? then r.error else None;
  }

  lemma NoStatus()
    ensures FirstStatus([]) == None
  {
  }

  lemma StatusStep(frames: seq<Frame>, f: Frame, more: seq<Frame>)
    requires FirstStatus(frames).None?
    ensures (frames + [f])[..|frames|] == frames
    ensures FirstStatus(frames + [f]) == if f.kind == STATUS_EVENT then Some(f.payload) else None
    ensures f.kind == STATUS_EVENT ==> FirstStatus(frames + [f] + more) == Some(f.payload)
  {
    FirstStatusConcat(frames, [f]);
    assert [f][1..] == [];
    assert FirstStatus([f]) == if f.kind == STATUS_EVENT then Some(f.payload) else None;
    FirstStatusConcat(frames + [f], more);
  }

  lemma FeedRefused(crc: Checksum, lim: Limits, s: State, data: seq<byte>)
    requires s.closed || OverLimit(lim, |s.buffer|, |data|)
    ensures FeedStep(crc, lim, s, data)
         == (s.(closed := true), Closed(Some(if s.closed then AlreadyClosed else BufferLimitExceeded)))
  {
  }

  lemma EmptyIncomplete(crc: Checksum, lim: Limits)
    ensures NextFrame(crc, lim, []) == Incomplete
    ensures Drain(crc, lim, []) == Drained([], [], None)
  {
  }

  function Concat(chunks: seq<seq<byte>>): seq<byte> {
    if chunks == [] then [] else Concat(chunks[..|chunks| - 1]) + chunks[|chunks| - 1]
  }

  function PumpAll(crc: Checksum, lim: Limits, chunks: seq<seq<byte>>): Pumped {
    if chunks == [] then Pumped(State([], false), [], None) else
    var p := PumpAll(crc, lim, chunks[..|chunks| - 1]);
    var q := Pump(crc, lim, p.state, chunks[|chunks| - 1]);
    Pumped(q.state, p.frames + q.frames, if p.error.Some? then p.error else q.error)
  }

  function EncodeStream(crc: Checksum, fs: seq<Frame>): seq<byte> {
    if fs == [] then [] else Encode(crc, fs[0]) + EncodeStream(crc, fs[1..])
  }

  predicate AllFit(lim: Limits, fs: seq<Frame>) {
    forall i :: 0 <= i < |fs| ==> FrameFits(lim, fs[i])
  }

  lemma {:induction false} DrainStream(crc: Checksum, lim: Limits, fs: seq<Frame>)
    requires AllFit(lim, fs)
    ensures Drain(crc, lim, EncodeStream(crc, fs)) == Drained(fs, [], None)
    decreases |fs|
  {
    hide Encode, FrameFits;
    if fs != [] {
      hide NextFrame;
      var e, rest := Encode(crc, fs[0]), EncodeStream(crc, fs[1..]);
      FrameRoundTrip(crc, lim, fs[0], rest);
      assert (e + rest)[|e|..] == rest;
      DrainStream(crc, lim, fs[1..]);
      assert [fs[0]] + fs[1..] == fs;
    }
  }

  /** Any part of a valid stream drains to the frames it completes and an unfinished rest. */
  lemma DrainPart(crc: Checksum, lim: Limits, fs: seq<Frame>, part: seq<byte>)
    requires AllFit(lim, fs) && part <= EncodeStream(crc, fs)
    ensures var d := Drain(crc, lim, part); d.error.None? && d.frames <= fs
  {
    hide Drain, EncodeStream;
    var whole := EncodeStream(crc, fs);
    DrainSplit(crc, lim, part, whole[|part|..]);
    assert part + whole[|part|..] == whole;
    DrainStream(crc, lim, fs);
  }

  /** Chunks small enough never trip the buffer limit, and the decoder is always where one drain would be. */
  lemma {:induction false} ChunksDrain(crc: Checksum, lim: Limits, fs: seq<Frame>, chunks: seq<seq<byte>>)
    requires AllFit(lim, fs) && HEADER_SIZE <= lim.maxFrameBytes <= lim.maxSingleAllocation
    requires Concat(chunks) <= EncodeStream(crc, fs)
    requires forall i :: 0 <= i < |chunks| ==> |chunks[i]| <= lim.maxSingleAllocation - lim.maxFrameBytes
    ensures var d, p := Drain(crc, lim, Concat(chunks)), PumpAll(crc, lim, chunks);
      && p == Pumped(State(d.rest, false), d.frames, None)
      && d.frames <= fs && |d.rest| < lim.maxFrameBytes
    decreases |chunks|
  {
    hide NextFrame, EncodeStream;
    DrainPart(crc, lim, fs, Concat(chunks));
    RestIsShort(crc, lim, Concat(chunks));
    if chunks != [] {
      var front, c := chunks[..|chunks| - 1], chunks[|chunks| - 1];
      assert Concat(front) <= Concat(chunks);
      ChunksDrain(crc, lim, fs, front);
      DrainSplit(crc, lim, Concat(front), c);
      assert |c| <= lim.maxSingleAllocation - lim.maxFrameBytes;
    } else {
      assert Drain(crc, lim, []) == Drained([], [], None) by { EmptyIncomplete(crc, lim); }
    }
  }

  /**
    Any frames within the limits, encoded, joined and cut again into chunks of at most
    maxSingleAllocation - maxFrameBytes bytes, arrive as exactly those frames. The buffer limit is
    never hit, and after any number of chunks less than one frame is buffered.
   */
  lemma StreamRoundTrip(crc: Checksum, lim: Limits, fs: seq<Frame>, chunks: seq<seq<byte>>, k: nat)
    requires AllFit(lim, fs) && HEADER_SIZE <= lim.maxFrameBytes <= lim.maxSingleAllocation
    requires Concat(chunks) == EncodeStream(crc, fs)
    requires forall i :: 0 <= i < |chunks| ==> |chunks[i]| <= lim.maxSingleAllocation - lim.maxFrameBytes
    requires k <= |chunks|
    ensures PumpAll(crc, lim, chunks) == Pumped(State([], false), fs, None)
    ensures var p := PumpAll(crc, lim, chunks[..k]);
      p.error.None? && !p.state.closed && |p.state.buffer| < lim.maxFrameBytes && p.frames <= fs
  {
    hide Drain, PumpAll;
    ChunksDrain(crc, lim, fs, chunks);
    DrainStream(crc, lim, fs);
    ConcatPart(chunks, k);
    ChunksDrain(crc, lim, fs, chunks[..k]);
  }

  lemma {:induction false} ConcatPart(chunks: seq<seq<byte>>, k: nat)
    requires k <= |chunks|
    ensures Concat(chunks[..k]) <= Concat(chunks)
    decreases |chunks|
  {
    if k == |chunks| {
      assert chunks[..k] == chunks;
    } else {
      var front := chunks[..|chunks| - 1];
      ConcatPart(front, k);
      assert front[..k] == chunks[..k];
      assert Concat(front) <= Concat(chunks);
    }
  }
}
