/**
  The FIPC-1 session: handshake, streams with generations and sequence numbers, credit, and
  idempotency tokens; and the loop that feeds it bytes.
 */
module Session {
  import opened Words
  import opened Crc
  import opened Envelope
  import opened FipcCodec
  import opened FipcStream

  const HELLO: u16 := 0x0001
  const OPEN_STREAM: u16 := 0x0010
  const CREDIT: u16 := 0x0011
  const CLOSE_STREAM: u16 := 0x0012
  const BUILD_REQUEST: u16 := 0x0030

  datatype Phase = Accepted | Negotiated | Active | Shut

  datatype Stream = Stream(generation: u32, nextSequence: nat, credit: u64, terminalPending: bool)

  datatype Core = Core(
    phase: Phase, streams: map<u32, Stream>, retired: map<u32, u32>, tokens: map<u64, seq<byte>>)

  datatype Event = Event(kind: u16, streamId: u32, sequence: u64, token: u64)

  datatype SessionError =
    | Codec(error: ProtocolError)
    | ExpectedHello
    | IllegalStreamReuse
    | StreamCapReached
    | FrameAfterClose
    | UnknownStream
    | Nonmonotonic
    | TruncatedCredit
    | CreditForUnknownStream
    | CreditOverflow
    | IdempotencyConflict
    | SendOnUnknownStream
    | InsufficientCredit

  datatype Outcome = Emitted(event: Event) | Failed(error: SessionError)

  const FRESH := Core(Accepted, map[], map[], map[])

  function SendCredit(s: Core, id: u32, bytes: u64): (Core, Option<SessionError>) {
    if id !in s.streams then (s, Some(CreditForUnknownStream)) else
    match CheckedAdd(s.streams[id].credit, bytes)
    case None => (s, Some(CreditOverflow))
    case Some(sum) => (s.(streams := s.streams[id := s.streams[id].(credit := sum)]), None)
  }

  function ReserveSend(s: Core, id: u32, bytes: u64, terminal: bool): (Core, Option<SessionError>) {
    if id !in s.streams then (s, Some(SendOnUnknownStream)) else
    var stream := s.streams[id];
    if stream.credit < bytes then
      if terminal then (s.(streams := s.streams[id := stream.(terminalPending := true)]), None)
      else (s, Some(InsufficientCredit))
    else (s.(streams := s.streams[id := stream.(credit := stream.credit - bytes)]), None)
  }

  function EventOf(f: Frame): Event {
    Event(f.kind, f.streamId, f.sequence, f.token)
  }

  predicate Reuses(s: Core, f: Frame) {
    || f.streamId == 0
    || (f.streamId in s.streams && f.generation <= s.streams[f.streamId].generation)
    || (f.streamId in s.retired && f.generation <= s.retired[f.streamId])
  }

  function Open(lim: Limits, s: Core, f: Frame): (Core, Outcome) {
    if Reuses(s, f) then (s, Failed(IllegalStreamReuse))
    else if |s.streams| >= lim.maxStreams then (s, Failed(StreamCapReached))
    else (s.(streams := s.streams[f.streamId := Stream(f.generation, 0, 0, false)], phase := Active),
          Emitted(EventOf(f)))
  }

  /** The sequence check: it advances the stream before anything else can fail. */
  function Sequenced(s: Core, f: Frame): (Core, Option<SessionError>) {
    if f.streamId !in s.streams then (s, if f.streamId != 0 then Some(UnknownStream) else None) else
    var stream := s.streams[f.streamId];
    if stream.generation != f.generation || stream.nextSequence != f.sequence then (s, Some(Nonmonotonic))
    else (s.(streams := s.streams[f.streamId := stream.(nextSequence := stream.nextSequence + 1)]), None)
  }

  function Credited(s: Core, f: Frame): (Core, Option<SessionError>) {
    if f.kind != CREDIT then (s, None) else
    match ReadAt(f.payload, 0, 8)
    case None => (s, Some(TruncatedCredit))
    case Some(bytes) =>
      Spans();
      WriteRead(f.payload[0..8]);
      SendCredit(s, f.streamId, bytes)
  }

  function Requested(s: Core, f: Frame): (Core, Option<SessionError>) {
    if f.kind != BUILD_REQUEST then (s, None)
    else if f.token in s.tokens && s.tokens[f.token] != f.payload then (s, Some(IdempotencyConflict))
    else (s.(tokens := s.tokens[f.token := f.payload]), None)
  }

  function Retire(s: Core, f: Frame): Core {
    if f.kind != CLOSE_STREAM || f.streamId !in s.streams then s else
    var rest := s.streams - {f.streamId};
    Core(if rest == map[] then Negotiated else Active, rest,
         s.retired[f.streamId := s.streams[f.streamId].generation], s.tokens)
  }

  function Apply(lim: Limits, s: Core, f: Frame): (r: (Core, Outcome))
    ensures r.1.Failed? ==> !r.1.error.Codec?
    ensures r.1.Emitted? ==> r.1.event == EventOf(f)
    ensures s.phase == Shut ==> r == (s, Failed(FrameAfterClose))
  {
    if s.phase == Accepted then
      if f.kind != HELLO || f.streamId != 0 || f.sequence != 0 then (s, Failed(ExpectedHello))
      else (s.(phase := Negotiated), Emitted(EventOf(f)))
    else if s.phase == Negotiated && f.kind == OPEN_STREAM then Open(lim, s, f)
    else if s.phase == Shut then (s, Failed(FrameAfterClose))
    else
      var (s1, e1) := Sequenced(s, f);
      if e1.Some? then (s1, Failed(e1.value)) else
      var (s2, e2) := Credited(s1, f);
      if e2.Some? then (s2, Failed(e2.value)) else
      var (s3, e3) := Requested(s2, f);
      if e3.Some? then (s3, Failed(e3.value)) else
      (Retire(s3, f), Emitted(EventOf(f)))
  }

  // ---- Feeding bytes ----

  datatype Processed = Processed(core: Core, rest: seq<byte>, events: seq<Event>, error: Option<SessionError>)

  function Shutdown(s: Core): Core {
    s.(phase := Shut)
  }

  /** Applies the frames a buffer starts with until it runs out of frames or something fails. */
  function Process(crc: Checksum, lim: Limits, s: Core, b: seq<byte>): Processed
    decreases |b|
  {
    match NextFrame(crc, lim, b)
    case Incomplete => Processed(s, b, [], None)
    case Malformed(e) => Processed(Shutdown(s), b, [], Some(Codec(e)))
    case Found(f, n) =>
      var (s', outcome) := Apply(lim, s, f);
      if outcome.Failed? then Processed(Shutdown(s'), b[n..], [], Some(outcome.error)) else
      var p := Process(crc, lim, s', b[n..]);
      p.(events := [outcome.event] + p.events)
  }

  /** The result of one call: on an error the events gathered so far are not returned. */
  datatype Fed = Fed(core: Core, codec: State, events: seq<Event>, error: Option<SessionError>)

  predicate IsCodecError(e: Option<SessionError>) {
    e.Some? && e.value.Codec?
  }

  function FeedSession(crc: Checksum, lim: Limits, s: Core, codec: State, data: seq<byte>): Fed {
    if codec.closed then Fed(Shutdown(s), codec, [], Some(Codec(AlreadyClosed)))
    else if OverLimit(lim, |codec.buffer|, |data|) then
      Fed(Shutdown(s), codec.(closed := true), [], Some(Codec(BufferLimitExceeded)))
    else
      var p := Process(crc, lim, s, codec.buffer + data);
      Fed(p.core, State(p.rest, IsCodecError(p.error)), if p.error.Some? then [] else p.events, p.error)
  }

  class FipcSession {
    const limits: Limits
    const codec: FipcCodec
    var phase: Phase
    var streams: map<u32, Stream>
    var retired: map<u32, u32>
    var tokens: map<u64, seq<byte>>

    constructor (crc: Checksum, limits: Limits)
      ensures this.limits == limits == codec.limits && codec.crc == crc && fresh(codec)
      ensures Contents() == FRESH && codec.Contents() == State([], false)
    {
      this.limits := limits;
      codec := new FipcCodec(crc, limits);
      phase, streams, retired, tokens := Accepted, map[], map[], map[];
    }

    ghost function Contents(): Core
      reads this
    {
      Core(phase, streams, retired, tokens)
    }

    method GrantCredit(id: u32, bytes: u64) returns (error: Option<SessionError>)
      modifies this
      ensures (Contents(), error) == SendCredit(old(Contents()), id, bytes)
    {
      if id !in streams {
        return Some(CreditForUnknownStream);
      }
      var added := CheckedAdd(streams[id].credit, bytes);
      if added.None? {
        return Some(CreditOverflow);
      }
      streams := streams[id := streams[id].(credit := added.value)];
      error := None;
    }

    method Reserve(id: u32, bytes: u64, terminal: bool) returns (error: Option<SessionError>)
      modifies this
      ensures (Contents(), error) == ReserveSend(old(Contents()), id, bytes, terminal)
    {
      if id !in streams {
        return Some(SendOnUnknownStream);
      }
      if streams[id].credit < bytes {
        if terminal {
          streams := streams[id := streams[id].(terminalPending := true)];
          return None;
        }
        return Some(InsufficientCredit);
      }
      streams := streams[id := streams[id].(credit := streams[id].credit - bytes)];
      error := None;
    }

    method ApplyFrame(f: Frame) returns (outcome: Outcome)
      modifies this
      ensures (Contents(), outcome) == Apply(limits, old(Contents()), f)
    {
      if phase == Accepted {
        if f.kind != HELLO || f.streamId != 0 || f.sequence != 0 {
          return Failed(ExpectedHello);
        }
        phase := Negotiated;
        return Emitted(EventOf(f));
      }
      if phase == Negotiated && f.kind == OPEN_STREAM {
        if || f.streamId == 0
           || (f.streamId in streams && f.generation <= streams[f.streamId].generation)
           || (f.streamId in retired && f.generation <= retired[f.streamId]) {
          return Failed(IllegalStreamReuse);
        }
        if |streams| >= limits.maxStreams {
          return Failed(StreamCapReached);
        }
        streams := streams[f.streamId := Stream(f.generation, 0, 0, false)];
        phase := Active;
        return Emitted(EventOf(f));
      }
      if phase != Active && phase != Negotiated {
        return Failed(FrameAfterClose);
      }
      if f.streamId != 0 && f.streamId !in streams {
        return Failed(UnknownStream);
      }
      if f.streamId in streams {
        var stream := streams[f.streamId];
        if stream.generation != f.generation || stream.nextSequence != f.sequence {
          return Failed(Nonmonotonic);
        }
        streams := streams[f.streamId := stream.(nextSequence := stream.nextSequence + 1)];
      }
      if f.kind == CREDIT {
        var credit := ReadLe(f.payload, 0, 8);
        if credit.None? {
          return Failed(TruncatedCredit);
        }
        Spans();
        var error := GrantCredit(f.streamId, credit.value);
        if error.Some? {
          return Failed(error.value);
        }
      }
      if f.kind == BUILD_REQUEST {
        if f.token in tokens && tokens[f.token] != f.payload {
          return Failed(IdempotencyConflict);
        }
        tokens := tokens[f.token := f.payload];
      }
      if f.kind == CLOSE_STREAM && f.streamId in streams {
        retired := retired[f.streamId := streams[f.streamId].generation];
        streams := streams - {f.streamId};
        phase := if streams == map[] then Negotiated else Active;
      }
      outcome := Emitted(EventOf(f));
    }

    method Feed(data: seq<byte>) returns (events: seq<Event>, error: Option<SessionError>)
      requires codec.limits == limits
      modifies this, codec
      ensures Fed(Contents(), codec.Contents(), events, error)
           == FeedSession(codec.crc, limits, old(Contents()), old(codec.Contents()), data)
    {
      hide NextFrame, Apply, Process;
      ghost var crc := codec.crc;
      var gathered := [];
      if codec.closed || OverLimit(limits, |codec.buffer|, |data|) {
        FeedRefused(crc, limits, codec.Contents(), data);
        var refused := codec.Feed(data);
        phase := Shut;
        return [], Some(Codec(refused.error.value));
      }
      ghost var all := Process(crc, limits, Contents(), codec.buffer + data);
      ghost var input := codec.buffer + data;
      assert input + [] == input;
      var decoded := codec.Feed(data);
      assert [] + all.events == all.events;
      while true
        invariant (codec.Contents(), decoded) == FeedStep(crc, limits, State(input, false), [])
        invariant |input| <= limits.maxSingleAllocation
        invariant var p := Process(crc, limits, Contents(), input); all == p.(events := gathered + p.events)
        decreases |input|
      {
        ProcessUnfolds(crc, limits, Contents(), input);
        assert input + [] == input && gathered + [] == gathered;
        if decoded.NeedMore? {
          return gathered, None;
        }
        if decoded.Closed? {
          phase := Shut;
          return [], Some(Codec(decoded.error.value));
        }
        ghost var before := Contents();
        var outcome := ApplyFrame(decoded.frame);
        if outcome.Failed? {
          phase := Shut;
          return [], Some(outcome.error);
        }
        ghost var p := Process(crc, limits, Contents(), codec.buffer);
        assert gathered + ([outcome.event] + p.events) == gathered + [outcome.event] + p.events;
        gathered := gathered + [outcome.event];
        input := codec.buffer;
        if |codec.buffer| == 0 {
          EmptyIncomplete(crc, limits);
          ProcessUnfolds(crc, limits, Contents(), []);
          assert gathered + [] == gathered;
          return gathered, None;
        }
        assert input + [] == input;
        decoded := codec.Feed([]);
      }
    }
  }

  lemma ProcessUnfolds(crc: Checksum, lim: Limits, s: Core, b: seq<byte>)
    ensures var n, p := NextFrame(crc, lim, b), Process(crc, lim, s, b);
      && (n.Incomplete? ==> p == Processed(s, b, [], None))
      && (n.Malformed? ==> p == Processed(Shutdown(s), b, [], Some(Codec(n.error))))
      && (n.Found? ==>
            var (s', outcome) := Apply(lim, s, n.frame);
            var q := Process(crc, lim, s', b[n.size..]);
            p == if outcome.Failed? then Processed(Shutdown(s'), b[n.size..], [], Some(outcome.error))
                 else q.(events := [outcome.event] + q.events))
  {
    hide NextFrame, Apply;
  }
}
