/**
  How the bytes are cut does not matter to a session.
 */
module SessionSplit {
  import opened Words
  import opened Crc
  import opened Envelope
  import opened FipcCodec
  import opened FipcStream
  import opened Session

  lemma {:induction false} ProcessSplit(crc: Checksum, lim: Limits, s: Core, x: seq<byte>, y: seq<byte>)
    ensures var p, whole := Process(crc, lim, s, x), Process(crc, lim, s, x + y);
      && (p.error.Some? ==> whole.core == p.core && whole.error == p.error && p.core.phase == Shut)
      && (p.error.None? ==>
            var q := Process(crc, lim, p.core, p.rest + y); whole == q.(events := p.events + q.events))
    decreases |x|
  {
    hide NextFrame, Apply, Process;
    ProcessUnfolds(crc, lim, s, x);
    ProcessUnfolds(crc, lim, s, x + y);
    var n := NextFrame(crc, lim, x);
    if n.Incomplete? {
      var q := Process(crc, lim, s, x + y);
      assert [] + q.events == q.events;
    } else {
      NextFrameStable(crc, lim, x, y);
      if n.Found? {
        var (s', outcome) := Apply(lim, s, n.frame);
        assert (x + y)[n.size..] == x[n.size..] + y;
        if outcome.Emitted? {
          ProcessSplit(crc, lim, s', x[n.size..], y);
          var p := Process(crc, lim, s', x[n.size..]);
          var q := Process(crc, lim, p.core, p.rest + y);
          assert [outcome.event] + (p.events + q.events) == [outcome.event] + p.events + q.events;
        }
      }
    }
  }

  /** A closed session stays exactly as it is, whatever it is fed. */
  lemma ShutIsAbsorbing(crc: Checksum, lim: Limits, s: Core, codec: State, data: seq<byte>)
    requires s.phase == Shut
    ensures FeedSession(crc, lim, s, codec, data).core == s
    ensures FeedSession(crc, lim, s, codec, data).events == []
  {
    hide NextFrame;
    if !codec.closed && !OverLimit(lim, |codec.buffer|, |data|) {
      ProcessUnfolds(crc, lim, s, codec.buffer + data);
    }
  }

  /** A session fed chunk by chunk: its state, all the events returned, and whether a call failed. */
  datatype Run = Run(core: Core, codec: State, events: seq<Event>, failed: bool)

  function FeedAll(crc: Checksum, lim: Limits, s: Core, buffer: seq<byte>, chunks: seq<seq<byte>>): Run
    decreases |chunks|
  {
    if chunks == [] then Run(s, State(buffer, false), [], false) else
    var r := FeedAll(crc, lim, s, buffer, chunks[..|chunks| - 1]);
    var f := FeedSession(crc, lim, r.core, r.codec, chunks[|chunks| - 1]);
    Run(f.core, f.codec, r.events + f.events, r.failed || f.error.Some?)
  }

  /** No call before the first failure exceeds the buffer limit. */
  predicate WithinLimit(crc: Checksum, lim: Limits, s: Core, buffer: seq<byte>, chunks: seq<seq<byte>>)
    decreases |chunks|
  {
    chunks == [] ||
    var front := chunks[..|chunks| - 1];
    var r := FeedAll(crc, lim, s, buffer, front);
    && WithinLimit(crc, lim, s, buffer, front)
    && (r.failed || !OverLimit(lim, |r.codec.buffer|, |chunks[|chunks| - 1]|))
  }

  /** Feeding in chunks is processing the joined bytes. */
  lemma {:induction false} ChunksProcess(
      crc: Checksum, lim: Limits, s: Core, buffer: seq<byte>, chunks: seq<seq<byte>>)
    requires NextFrame(crc, lim, buffer).Incomplete?
    requires WithinLimit(crc, lim, s, buffer, chunks)
    ensures var r, p := FeedAll(crc, lim, s, buffer, chunks), Process(crc, lim, s, buffer + Concat(chunks));
      && r.core == p.core && r.failed == p.error.Some?
      && (r.failed ==> r.core.phase == Shut)
      && (!r.failed ==> r.codec == State(p.rest, false) && r.events == p.events)
    decreases |chunks|
  {
    hide Process, NextFrame;
    ProcessSplit(crc, lim, s, buffer + Concat(chunks), []);
    if chunks == [] {
      ProcessUnfolds(crc, lim, s, buffer);
      assert buffer + Concat(chunks) == buffer;
    } else {
      var front, c := chunks[..|chunks| - 1], chunks[|chunks| - 1];
      ChunksProcess(crc, lim, s, buffer, front);
      var r := FeedAll(crc, lim, s, buffer, front);
      ProcessSplit(crc, lim, s, buffer + Concat(front), c);
      assert buffer + Concat(chunks) == (buffer + Concat(front)) + c;
      if r.failed {
        ShutIsAbsorbing(crc, lim, r.core, r.codec, c);
      }
    }
  }

  /**
    Split independence: the same bytes cut in any two ways that stay within the buffer limit leave
    a session with the same state, streams, retired generations and tokens; they fail alike; and
    without a failure the concatenated events and the buffered bytes are the same. The session may be
    new or in use: what a call leaves buffered is never a whole frame (`FipcStream.RestIsIncomplete`).
   */
  lemma SplitIndependence(
      crc: Checksum, lim: Limits, s: Core, buffer: seq<byte>, chunks: seq<seq<byte>>, others: seq<seq<byte>>)
    requires NextFrame(crc, lim, buffer).Incomplete?
    requires Concat(chunks) == Concat(others)
    requires WithinLimit(crc, lim, s, buffer, chunks) && WithinLimit(crc, lim, s, buffer, others)
    ensures var a, b := FeedAll(crc, lim, s, buffer, chunks), FeedAll(crc, lim, s, buffer, others);
      && a.core == b.core && a.failed == b.failed
      && (!a.failed ==> a.events == b.events && a.codec == b.codec)
  {
    hide Process, FeedAll, WithinLimit;
    ChunksProcess(crc, lim, s, buffer, chunks);
    ChunksProcess(crc, lim, s, buffer, others);
  }

  /** Without a failure, less than one frame stays buffered. */
  lemma {:induction false} ProcessRestIsShort(crc: Checksum, lim: Limits, s: Core, b: seq<byte>)
    requires HEADER_SIZE <= lim.maxFrameBytes && Process(crc, lim, s, b).error.None?
    ensures |Process(crc, lim, s, b).rest| < lim.maxFrameBytes
    decreases |b|
  {
    hide NextFrame, Apply, Process;
    ProcessUnfolds(crc, lim, s, b);
    var n := NextFrame(crc, lim, b);
    if n.Found? {
      ProcessRestIsShort(crc, lim, Apply(lim, s, n.frame).0, b[n.size..]);
    }
  }

  predicate SmallChunks(lim: Limits, chunks: seq<seq<byte>>) {
    forall i :: 0 <= i < |chunks| ==> |chunks[i]| <= lim.maxSingleAllocation - lim.maxFrameBytes
  }

  /** A condition a caller can check before the calls: small chunks of any bytes never exceed the limit. */
  lemma {:induction false} SmallChunksStayWithin(
      crc: Checksum, lim: Limits, s: Core, buffer: seq<byte>, chunks: seq<seq<byte>>)
    requires NextFrame(crc, lim, buffer).Incomplete?
    requires HEADER_SIZE <= lim.maxFrameBytes <= lim.maxSingleAllocation && SmallChunks(lim, chunks)
    ensures WithinLimit(crc, lim, s, buffer, chunks)
    decreases |chunks|
  {
    hide Process, NextFrame, FeedAll;
    if chunks != [] {
      var front := chunks[..|chunks| - 1];
      SmallChunksStayWithin(crc, lim, s, buffer, front);
      ChunksProcess(crc, lim, s, buffer, front);
      if Process(crc, lim, s, buffer + Concat(front)).error.None? {
        ProcessRestIsShort(crc, lim, s, buffer + Concat(front));
      }
    }
  }

  // ---- The frames behind the bytes ----

  /** Applies frames one after the other until one is refused. */
  function ApplyAll(lim: Limits, s: Core, fs: seq<Frame>): (Core, seq<Event>, Option<SessionError>)
    decreases |fs|
  {
    if fs == [] then (s, [], None) else
    var (s', outcome) := Apply(lim, s, fs[0]);
    if outcome.Failed? then (Shutdown(s'), [], Some(outcome.error)) else
    var (t, events, e) := ApplyAll(lim, s', fs[1..]);
    (t, [outcome.event] + events, e)
  }

  /** How processing ends when the frames are applied with `error` and the bytes drain with `fault`. */
  function Ending(error: Option<SessionError>, fault: Option<ProtocolError>): Option<SessionError> {
    if error.Some? then error else if fault.Some? then Some(Codec(fault.value)) else None
  }

  /**
    For arbitrary bytes, processing is draining the frames and applying them: the first frame refused
    ends it, and if none is, a decoder error closes the session.
   */
  lemma {:induction false} ProcessIsApplied(crc: Checksum, lim: Limits, s: Core, b: seq<byte>)
    ensures var p, d := Process(crc, lim, s, b), Drain(crc, lim, b);
      var (t, events, e) := ApplyAll(lim, s, d.frames);
      && p.core == (if e.None? && d.error.Some? then Shutdown(t) else t)
      && p.events == events && p.error == Ending(e, d.error)
      && (e.None? ==> p.rest == d.rest)
    decreases |b|
  {
    hide NextFrame, Apply, Process, Drain;
    ProcessUnfolds(crc, lim, s, b);
    DrainUnfolds(crc, lim, b);
    var n := NextFrame(crc, lim, b);
    if n.Found? {
      var (s', outcome) := Apply(lim, s, n.frame);
      var rest := Drain(crc, lim, b[n.size..]).frames;
      assert ([n.frame] + rest)[1..] == rest;
      if outcome.Emitted? {
        ProcessIsApplied(crc, lim, s', b[n.size..]);
      }
    }
  }

  /**
    How a feed of arbitrary bytes is answered: the first reason to fail, in order; events only without a
    failure; and the decoder is closed from then on if and only if it is the decoder that failed.
   */
  lemma FeedAnswered(crc: Checksum, lim: Limits, s: Core, codec: State, data: seq<byte>)
    ensures var f, d := FeedSession(crc, lim, s, codec, data), Drain(crc, lim, codec.buffer + data);
      var (t, events, e) := ApplyAll(lim, s, d.frames);
      && f.error == (if codec.closed then Some(Codec(AlreadyClosed))
                     else if |codec.buffer| + |data| > lim.maxSingleAllocation then Some(Codec(BufferLimitExceeded))
                     else Ending(e, d.error))
      && f.events == (if f.error.Some? then [] else events)
      && f.codec.closed == (f.error.Some? && f.error.value.Codec?)
      && (f.error.Some? ==> f.core.phase == Shut)
  {
    hide Process, Drain;
    ProcessIsApplied(crc, lim, s, codec.buffer + data);
    RefusalsAreOurs(lim, s, Drain(crc, lim, codec.buffer + data).frames);
  }

  /** What `ApplyAll` refuses is never a decoder error, and it closes. */
  lemma {:induction false} RefusalsAreOurs(lim: Limits, s: Core, fs: seq<Frame>)
    ensures var (t, _, e) := ApplyAll(lim, s, fs); e.Some? ==> !e.value.Codec? && t.phase == Shut
    decreases |fs|
  {
    hide Apply;
    if fs != [] {
      RefusalsAreOurs(lim, Apply(lim, s, fs[0]).0, fs[1..]);
    }
  }

  /** Encoded frames fed to a session in any admissible chunks have the effect of the frames themselves. */
  lemma ChunkedFramesApply(crc: Checksum, lim: Limits, fs: seq<Frame>, chunks: seq<seq<byte>>)
    requires AllFit(lim, fs) && Concat(chunks) == EncodeStream(crc, fs)
    requires WithinLimit(crc, lim, FRESH, [], chunks)
    ensures var r, (t, events, e) := FeedAll(crc, lim, FRESH, [], chunks), ApplyAll(lim, FRESH, fs);
      r.core == t && r.failed == e.Some? && (e.None? ==> r.events == events)
  {
    hide Process, FeedAll, ApplyAll, EncodeStream, Drain;
    EmptyIncomplete(crc, lim);
    ChunksProcess(crc, lim, FRESH, [], chunks);
    DrainStream(crc, lim, fs);
    ProcessIsApplied(crc, lim, FRESH, EncodeStream(crc, fs));
    assert [] + Concat(chunks) == Concat(chunks);
  }
}
