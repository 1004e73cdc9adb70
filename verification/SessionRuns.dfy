/**
  Whole runs of a session as its owner sees it: bytes of any kind from the peer, in any chunks, mixed
  with local calls. What `SessionTrace` proves about traces is read off such runs here.
 */
module SessionRuns {
  import opened Words
  import opened Crc
  import opened FipcCodec
  import opened FipcStream
  import opened Session
  import opened SessionSplit
  import opened SessionTrace

  datatype Call =
    | Feed(data: seq<byte>)
    | SendCreditCall(id: u32, bytes: u64)
    | ReserveSendCall(id: u32, bytes: u64, terminal: bool)

  /** A new session after the calls, all the events it returned, and whether a feed failed. */
  function CallAll(crc: Checksum, lim: Limits, calls: seq<Call>): Run {
    if calls == [] then Run(FRESH, State([], false), [], false) else
    var r := CallAll(crc, lim, calls[..|calls| - 1]);
    match calls[|calls| - 1]
    case Feed(data) =>
      var f := FeedSession(crc, lim, r.core, r.codec, data);
      Run(f.core, f.codec, r.events + f.events, r.failed || f.error.Some?)
    case SendCreditCall(id, bytes) => r.(core := SendCredit(r.core, id, bytes).0)
    case ReserveSendCall(id, bytes, terminal) => r.(core := ReserveSend(r.core, id, bytes, terminal).0)
  }

  /** Everything fed. */
  function BytesOf(calls: seq<Call>): seq<byte> {
    if calls == [] then [] else
    BytesOf(calls[..|calls| - 1]) + match calls[|calls| - 1] case Feed(data) => data case _ => []
  }

  /**
    The calls did to the session what the run `ops` of the trace machine does. The accepted frames
    are, in order, the first ones in the bytes, and all of them unless a feed failed; the events returned
    are those of the accepted frames, less the last ones when the feed they belong to failed.
   */
  ghost predicate Traced(crc: Checksum, lim: Limits, calls: seq<Call>, ops: seq<Op>) {
    var r, (s, t), d := CallAll(crc, lim, calls), RunOps(lim, ops), Drain(crc, lim, BytesOf(calls));
    && r.core == s && r.events <= Events(t) && Frames(t) <= d.frames
    && if r.failed then s.phase == Shut
       else r.events == Events(t) && Frames(t) == d.frames && d.error.None? && r.codec == State(d.rest, false)
  }

  lemma CallSnoc(crc: Checksum, lim: Limits, calls: seq<Call>, call: Call)
    ensures var r, r' := CallAll(crc, lim, calls), CallAll(crc, lim, calls + [call]);
      match call
      case Feed(data) =>
        && BytesOf(calls + [call]) == BytesOf(calls) + data
        && var f := FeedSession(crc, lim, r.core, r.codec, data);
           r' == Run(f.core, f.codec, r.events + f.events, r.failed || f.error.Some?)
      case SendCreditCall(id, bytes) =>
        BytesOf(calls + [call]) == BytesOf(calls) && r' == r.(core := SendCredit(r.core, id, bytes).0)
      case ReserveSendCall(id, bytes, terminal) =>
        BytesOf(calls + [call]) == BytesOf(calls) && r' == r.(core := ReserveSend(r.core, id, bytes, terminal).0)
  {
    hide FeedSession;
    assert (calls + [call])[..|calls|] == calls;
  }

  lemma OpSnoc(lim: Limits, ops: seq<Op>, op: Op)
    ensures var (s, t) := RunOps(lim, ops); RunOps(lim, ops + [op]) == Step(lim, s, t, op)
  {
    hide Step;
    assert (ops + [op])[..|ops|] == ops;
  }

  /** The frames in more bytes start with the frames in the bytes so far. */
  lemma FramesGrow(crc: Checksum, lim: Limits, x: seq<byte>, y: seq<byte>)
    ensures Drain(crc, lim, x).frames <= Drain(crc, lim, x + y).frames
  {
    hide Drain;
    DrainSplit(crc, lim, x, y);
  }

  /** A feed that stays within the limit, to a session that has not failed. */
  lemma FeedTraced(crc: Checksum, lim: Limits, calls: seq<Call>, data: seq<byte>, ops: seq<Op>) returns (ops': seq<Op>)
    requires Traced(crc, lim, calls, ops) && !CallAll(crc, lim, calls).failed
    requires !OverLimit(lim, |CallAll(crc, lim, calls).codec.buffer|, |data|)
    ensures Traced(crc, lim, calls + [Feed(data)], ops')
  {
    hide CallAll, BytesOf, RunOps, Process, Drain, ApplyAll, Events, Frames, Receives;
    var (s, t) := RunOps(lim, ops);
    var d := Drain(crc, lim, BytesOf(calls));
    CallSnoc(crc, lim, calls, Feed(data));
    DrainSplit(crc, lim, BytesOf(calls), data);
    ProcessIsApplied(crc, lim, s, d.rest + data);
    var e := Drain(crc, lim, d.rest + data);
    FramesRun(lim, ops, e.frames);
    ops' := ops + Receives(e.frames);
    var t' := RunOps(lim, ops').1;
    assert Frames(t) + e.frames[..|t'| - |t|] <= d.frames + e.frames;
    if ApplyAll(lim, s, e.frames).2.None? {
      assert e.frames[..|e.frames|] == e.frames;
      if e.error.Some? {
        OpSnoc(lim, ops', Fault);
        ops' := ops' + [Fault];
      }
    }
  }

  lemma CallTraced(crc: Checksum, lim: Limits, calls: seq<Call>, call: Call, ops: seq<Op>) returns (ops': seq<Op>)
    requires Traced(crc, lim, calls, ops)
    ensures Traced(crc, lim, calls + [call], ops')
  {
    hide CallAll, BytesOf, RunOps, Process, Drain, SendCredit, ReserveSend, Events, Frames;
    var r := CallAll(crc, lim, calls);
    CallSnoc(crc, lim, calls, call);
    match call
    case SendCreditCall(id, bytes) =>
      OpSnoc(lim, ops, Grant(id, bytes));
      GrantTouchesCredit(r.core, id, bytes);
      ops' := ops + [Grant(id, bytes)];
    case ReserveSendCall(id, bytes, terminal) =>
      OpSnoc(lim, ops, Reserve(id, bytes, terminal));
      ReserveTouchesCredit(r.core, id, bytes, terminal);
      ops' := ops + [Reserve(id, bytes, terminal)];
    case Feed(data) =>
      FramesGrow(crc, lim, BytesOf(calls), data);
      if r.failed {
        ShutIsAbsorbing(crc, lim, r.core, r.codec, data);
        ops' := ops;
      } else if OverLimit(lim, |r.codec.buffer|, |data|) {
        OpSnoc(lim, ops, Fault);
        ops' := ops + [Fault];
      } else {
        ops' := FeedTraced(crc, lim, calls, data, ops);
      }
  }

  /**
    Every run of calls, with whatever bytes and in whatever chunks, is a run of the trace machine.
   */
  lemma {:induction false} CallsTraced(crc: Checksum, lim: Limits, calls: seq<Call>) returns (ops: seq<Op>)
    ensures Traced(crc, lim, calls, ops)
  {
    hide Traced;
    if calls == [] {
      NothingTraced(crc, lim);
      ops := [];
    } else {
      var front, last := calls[..|calls| - 1], calls[|calls| - 1];
      ops := CallsTraced(crc, lim, front);
      ops := CallTraced(crc, lim, front, last, ops);
      assert front + [last] == calls;
    }
  }

  lemma NothingTraced(crc: Checksum, lim: Limits)
    ensures Traced(crc, lim, [], [])
  {
    hide Drain;
    EmptyIncomplete(crc, lim);
  }

  /** Once a feed has failed, its own events and all later ones are lost. */
  lemma {:induction false} EventsStopAtFailure(crc: Checksum, lim: Limits, calls: seq<Call>) returns (k: nat)
    requires CallAll(crc, lim, calls).failed
    ensures k < |calls| && !CallAll(crc, lim, calls[..k]).failed && CallAll(crc, lim, calls[..k + 1]).failed
    ensures CallAll(crc, lim, calls).events == CallAll(crc, lim, calls[..k]).events
  {
    hide FeedSession;
    var front, last := calls[..|calls| - 1], calls[|calls| - 1];
    assert calls[..|calls|] == calls;
    var r := CallAll(crc, lim, front);
    if r.failed {
      k := EventsStopAtFailure(crc, lim, front);
      assert front[..k] == calls[..k] && front[..k + 1] == calls[..k + 1];
      if last.Feed? {
        var ops := CallsTraced(crc, lim, front);
        assert r.core.phase == Shut;
        ShutIsAbsorbing(crc, lim, r.core, r.codec, last.data);
        assert r.events + [] == r.events;
      }
    } else {
      k := |calls| - 1;
      if last.Feed? {
        FeedAnswered(crc, lim, r.core, r.codec, last.data);
        assert r.events + [] == r.events;
      }
    }
  }

  // ---- The rules of the protocol, on the bytes ----

  /**
    Whatever is fed, there is a legal trace of the first frames in the bytes, all of them unless a feed
    failed, whose first events are the ones returned; and the session's state agrees with it.
   */
  lemma FedBytesObey(crc: Checksum, lim: Limits, calls: seq<Call>) returns (t: Trace)
    ensures var r, d := CallAll(crc, lim, calls), Drain(crc, lim, BytesOf(calls));
      && Legal(t) && Inv(r.core, t) && r.events <= Events(t) && Frames(t) <= d.frames
      && (!r.failed ==> r.events == Events(t) && Frames(t) == d.frames)
      && (r.failed ==> r.core.phase == Shut)
  {
    hide CallAll, BytesOf, Drain, RunOps, Legal, Mirrors, Remembers, HoldsTokens;
    var ops := CallsTraced(crc, lim, calls);
    RunKeepsInv(lim, ops);
    t := RunOps(lim, ops).1;
  }

  /** Every event returned carries the type, stream, sequence and token of the frame it stands for. */
  lemma EventsAreFrames(crc: Checksum, lim: Limits, calls: seq<Call>, i: nat)
    requires i < |CallAll(crc, lim, calls).events|
    ensures var fs := Drain(crc, lim, BytesOf(calls)).frames;
      && i < |fs|
      && CallAll(crc, lim, calls).events[i] == Event(fs[i].kind, fs[i].streamId, fs[i].sequence, fs[i].token)
  {
    hide CallAll, Drain, BytesOf, RunOps;
    var ops := CallsTraced(crc, lim, calls);
    var t := RunOps(lim, ops).1;
    assert CallAll(crc, lim, calls).events[i] == Events(t)[i];
    assert Drain(crc, lim, BytesOf(calls)).frames[i] == Frames(t)[i];
  }

  /** HELLO on the control stream is the first event any session returns. */
  lemma FirstEventIsHello(crc: Checksum, lim: Limits, calls: seq<Call>)
    ensures var events := CallAll(crc, lim, calls).events;
      events != [] ==> events[0].kind == HELLO && events[0].streamId == 0 && events[0].sequence == 0
  {
    hide CallAll, Drain, BytesOf, RunOps;
    var ops := CallsTraced(crc, lim, calls);
    HelloComesFirst(lim, ops);
    var events, t := CallAll(crc, lim, calls).events, RunOps(lim, ops).1;
    assert events != [] ==> events[0] == Events(t)[0];
  }

  /** While no feed has failed, build requests in the bytes that share a token have equal payloads. */
  lemma FedTokensAgree(crc: Checksum, lim: Limits, calls: seq<Call>, i: nat, j: nat)
    requires !CallAll(crc, lim, calls).failed
    requires i < j < |Drain(crc, lim, BytesOf(calls)).frames|
    requires var fs := Drain(crc, lim, BytesOf(calls)).frames;
      fs[i].kind == fs[j].kind == BUILD_REQUEST && fs[i].token == fs[j].token
    ensures var fs := Drain(crc, lim, BytesOf(calls)).frames; fs[i].payload == fs[j].payload
  {
    hide CallAll, Drain, BytesOf, RunOps;
    var ops := CallsTraced(crc, lim, calls);
    var t := RunOps(lim, ops).1;
    assert Frames(t)[i] == t[i].frame && Frames(t)[j] == t[j].frame;
    TokensAgree(lim, ops, i, j);
  }

  /**
    While no feed has failed, every frame in the bytes on a stream other than the control stream opens
    it, or belongs to the opening in force and is numbered by the frames on the stream since: 0, 1, 2, ...
   */
  lemma FedSequences(crc: Checksum, lim: Limits, calls: seq<Call>, j: nat) returns (t: Trace, i: nat)
    requires !CallAll(crc, lim, calls).failed
    requires j < |Drain(crc, lim, BytesOf(calls)).frames|
    requires Drain(crc, lim, BytesOf(calls)).frames[j].streamId != 0
    ensures Legal(t) && Frames(t) == Drain(crc, lim, BytesOf(calls)).frames
    ensures var fs, id := Frames(t), Frames(t)[j].streamId;
      if t[j].opens then fs[j].kind == OPEN_STREAM
      else
        && InForce(t[..j], i, id) && fs[j].generation == fs[i].generation
        && fs[j].sequence == OnStream(t[..j], i + 1, id)
  {
    hide CallAll, Drain, BytesOf, RunOps, OnStream, InForce;
    var ops := CallsTraced(crc, lim, calls);
    RunKeepsInv(lim, ops);
    t := RunOps(lim, ops).1;
    i := 0;
    assert Frames(t)[j] == t[j].frame;
    if t[j].opens {
      assert MayFollow(t[..j], t[j]);
    } else {
      i := SequencesWithoutGaps(lim, ops, j);
      InForceInside(t[..j], i, t[j].frame.streamId);
    }
  }

  lemma InForceInside(t: Trace, i: nat, id: u32)
    requires InForce(t, i, id)
    ensures i < |t|
  {
  }

  // ---- How the bytes are cut, in a session already in use ----

  function Feeds(chunks: seq<seq<byte>>): (calls: seq<Call>)
    ensures |calls| == |chunks|
  {
    seq(|chunks|, i requires 0 <= i < |chunks| => Feed(chunks[i]))
  }

  lemma {:induction false} FeedsAreFed(crc: Checksum, lim: Limits, calls: seq<Call>, chunks: seq<seq<byte>>)
    requires !CallAll(crc, lim, calls).failed && !CallAll(crc, lim, calls).codec.closed
    ensures var r, r' := CallAll(crc, lim, calls), CallAll(crc, lim, calls + Feeds(chunks));
      var f := FeedAll(crc, lim, r.core, r.codec.buffer, chunks);
      r' == f.(events := r.events + f.events)
    decreases |chunks|
  {
    hide CallAll, FeedSession;
    var r := CallAll(crc, lim, calls);
    if chunks == [] {
      assert calls + Feeds(chunks) == calls && r.events + [] == r.events;
    } else {
      var front, c := chunks[..|chunks| - 1], chunks[|chunks| - 1];
      FeedsAreFed(crc, lim, calls, front);
      CallSnoc(crc, lim, calls + Feeds(front), Feed(c));
      assert calls + Feeds(chunks) == calls + Feeds(front) + [Feed(c)];
      var f, g := FeedAll(crc, lim, r.core, r.codec.buffer, front), FeedAll(crc, lim, r.core, r.codec.buffer, chunks);
      var more := FeedSession(crc, lim, f.core, f.codec, c).events;
      assert r.events + f.events + more == r.events + (f.events + more);
    }
  }

  /**
    Split independence in any run: after any calls that did not fail, the same bytes cut in two ways
    within the limit leave the same session; they fail alike, and without a failure all events and the
    buffered bytes are the same.
   */
  lemma SplitInUse(crc: Checksum, lim: Limits, calls: seq<Call>, chunks: seq<seq<byte>>, others: seq<seq<byte>>)
    requires !CallAll(crc, lim, calls).failed && Concat(chunks) == Concat(others)
    requires var r := CallAll(crc, lim, calls);
      && WithinLimit(crc, lim, r.core, r.codec.buffer, chunks)
      && WithinLimit(crc, lim, r.core, r.codec.buffer, others)
    ensures var a, b := CallAll(crc, lim, calls + Feeds(chunks)), CallAll(crc, lim, calls + Feeds(others));
      && a.core == b.core && a.failed == b.failed
      && (!a.failed ==> a.events == b.events && a.codec == b.codec)
  {
    hide CallAll, BytesOf, Drain, RunOps, FeedAll, WithinLimit, NextFrame;
    var r := CallAll(crc, lim, calls);
    var ops := CallsTraced(crc, lim, calls);
    RestIsIncomplete(crc, lim, BytesOf(calls));
    SplitIndependence(crc, lim, r.core, r.codec.buffer, chunks, others);
    FeedsAreFed(crc, lim, calls, chunks);
    FeedsAreFed(crc, lim, calls, others);
  }
}
