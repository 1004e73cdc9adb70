/**
  Which frames a session accepts and which local calls it grants, said on the trace of accepted frames and
  the account of the stream: the converse of what `SessionTrace` proves about accepted frames.
 */
module SessionAccepts {
  import opened Words
  import opened FipcCodec
  import opened Session
  import opened SessionTrace

  ghost predicate NoneLive(t: Trace) {
    forall id: u32 :: Live(t, id).None?
  }

  /** The stream was opened before with this generation or a later one. */
  predicate UsedUp(t: Trace, id: u32, generation: u32) {
    exists i :: 0 <= i < |t| && Opens(t[i], id) && generation <= t[i].frame.generation
  }

  /** The token was used before for something else. */
  predicate Conflicts(t: Trace, token: u64, payload: seq<byte>) {
    exists i :: 0 <= i < |t| && Requests(t[i], token) && t[i].frame.payload != payload
  }

  /** The frame, if accepted, opens a stream. */
  ghost predicate WouldOpen(t: Trace, f: Frame) {
    t != [] && f.kind == OPEN_STREAM && NoneLive(t)
  }

  /** Why a frame is refused after the trace, if it is; `a` is the account of its stream. */
  ghost function Refusal(lim: Limits, t: Trace, a: Account, f: Frame): Option<SessionError> {
    var live := Live(t, f.streamId);
    if t == [] then
      if f.kind == HELLO && f.streamId == 0 && f.sequence == 0 then None else Some(ExpectedHello)
    else if WouldOpen(t, f) then
      if f.streamId == 0 || UsedUp(t, f.streamId, f.generation) then Some(IllegalStreamReuse)
      else if lim.maxStreams == 0 then Some(StreamCapReached)
      else None
    else if f.streamId != 0 && live.None? then Some(UnknownStream)
    else if live.Some? && live.value != (f.generation, f.sequence) then Some(Nonmonotonic)
    else if f.kind == CREDIT && |f.payload| < 8 then Some(TruncatedCredit)
    else if f.kind == CREDIT && live.None? then Some(CreditForUnknownStream)
    else if f.kind == CREDIT && a.granted - a.reserved + FromLe(f.payload[..8]) > MAX_U64 then Some(CreditOverflow)
    else if f.kind == BUILD_REQUEST && Conflicts(t, f.token, f.payload) then Some(IdempotencyConflict)
    else None
  }

  // ---- What the session remembers was on the trace ----

  predicate OpenedWith(t: Trace, id: u32, generation: u32) {
    exists i :: 0 <= i < |t| && Opens(t[i], id) && t[i].frame.generation == generation
  }

  predicate RequestedWith(t: Trace, token: u64, payload: seq<byte>) {
    exists i :: 0 <= i < |t| && Requests(t[i], token) && t[i].frame.payload == payload
  }

  ghost predicate Recalls(s: Core, t: Trace) {
    && (forall id :: id in s.streams ==> OpenedWith(t, id, s.streams[id].generation))
    && (forall id :: id in s.retired ==> OpenedWith(t, id, s.retired[id]))
    && (forall token :: token in s.tokens ==> RequestedWith(t, token, s.tokens[token]))
  }

  lemma OpenedGrows(t: Trace, e: Entry, id: u32, generation: u32)
    ensures OpenedWith(t, id, generation) ==> OpenedWith(t + [e], id, generation)
    ensures Opens(e, id) && e.frame.generation == generation ==> OpenedWith(t + [e], id, generation)
  {
    var u := t + [e];
    assert u[|t|] == e;
    if OpenedWith(t, id, generation) {
      var i :| 0 <= i < |t| && Opens(t[i], id) && t[i].frame.generation == generation;
      assert u[i] == t[i];
    }
  }

  lemma RequestedGrows(t: Trace, e: Entry, token: u64, payload: seq<byte>)
    ensures RequestedWith(t, token, payload) ==> RequestedWith(t + [e], token, payload)
    ensures Requests(e, token) && e.frame.payload == payload ==> RequestedWith(t + [e], token, payload)
  {
    var u := t + [e];
    assert u[|t|] == e;
    if RequestedWith(t, token, payload) {
      var i :| 0 <= i < |t| && Requests(t[i], token) && t[i].frame.payload == payload;
      assert u[i] == t[i];
    }
  }

  /** Every stream, retired generation and token is an old one or the entry's own. */
  lemma EntryRecalls(s: Core, s': Core, t: Trace, e: Entry)
    requires Recalls(s, t)
    requires forall id :: id in s'.streams ==>
      || (id in s.streams && s'.streams[id].generation == s.streams[id].generation)
      || (Opens(e, id) && e.frame.generation == s'.streams[id].generation)
    requires forall id :: id in s'.retired ==>
      || (id in s.retired && s'.retired[id] == s.retired[id])
      || (id in s.streams && s'.retired[id] == s.streams[id].generation)
    requires forall token :: token in s'.tokens ==>
      || (token in s.tokens && s'.tokens[token] == s.tokens[token])
      || (Requests(e, token) && e.frame.payload == s'.tokens[token])
    ensures Recalls(s', t + [e])
  {
    hide OpenedWith, RequestedWith, Opens, Requests;
    forall id | id in s'.streams
      ensures OpenedWith(t + [e], id, s'.streams[id].generation)
    {
      OpenedGrows(t, e, id, s'.streams[id].generation);
    }
    forall id | id in s'.retired
      ensures OpenedWith(t + [e], id, s'.retired[id])
    {
      OpenedGrows(t, e, id, s'.retired[id]);
    }
    forall token | token in s'.tokens
      ensures RequestedWith(t + [e], token, s'.tokens[token])
    {
      RequestedGrows(t, e, token, s'.tokens[token]);
    }
  }

  lemma ReceiveRecalls(lim: Limits, s: Core, t: Trace, f: Frame)
    requires Recalls(s, t) && s.phase != Shut && Apply(lim, s, f).1.Emitted?
    ensures var (s', t') := Step(lim, s, t, Receive(f)); Recalls(s', t')
  {
    hide Recalls;
    var s' := Apply(lim, s, f).0;
    var e := Entry(f, s.phase == Negotiated && f.kind == OPEN_STREAM);
    if s.phase != Accepted && !(s.phase == Negotiated && f.kind == OPEN_STREAM) {
      Ordinary(lim, s, f);
    }
    EntryRecalls(s, s', t, e);
  }

  lemma {:induction false} RunRecalls(lim: Limits, ops: seq<Op>)
    ensures var (s, t) := RunOps(lim, ops); s.phase != Shut ==> Recalls(s, t)
  {
    hide Recalls, Apply;
    if ops == [] {
      FreshRecalls();
    } else {
      RunRecalls(lim, ops[..|ops| - 1]);
      var (s, t) := RunOps(lim, ops[..|ops| - 1]);
      match ops[|ops| - 1]
      case Receive(f) =>
        if s.phase != Shut && Apply(lim, s, f).1.Emitted? {
          ReceiveRecalls(lim, s, t, f);
        }
      case Fault =>
      case Grant(id, bytes) =>
        GrantTouchesCredit(s, id, bytes);
        CreditRecalls(s, SendCredit(s, id, bytes).0, t);
      case Reserve(id, bytes, terminal) =>
        ReserveTouchesCredit(s, id, bytes, terminal);
        CreditRecalls(s, ReserveSend(s, id, bytes, terminal).0, t);
    }
  }

  lemma FreshRecalls()
    ensures Recalls(FRESH, [])
  {
  }

  lemma CreditRecalls(s: Core, s': Core, t: Trace)
    requires s'.(streams := s.streams) == s && s'.streams.Keys == s.streams.Keys
    requires forall id :: id in s.streams ==> s'.streams[id].generation == s.streams[id].generation
    ensures Recalls(s, t) ==> Recalls(s', t)
  {
    hide OpenedWith, RequestedWith;
  }

  // ---- The session judges as the trace says ----

  lemma PhaseIs(s: Core, t: Trace)
    requires Mirrors(s, t) && s.phase != Shut
    ensures s.phase == Accepted <==> t == []
    ensures s.phase == Negotiated <==> t != [] && NoneLive(t)
    ensures s.phase == Negotiated ==> s.streams == map[]
  {
    hide Live;
    if s.phase == Active {
      var id :| id in s.streams;
      assert Live(t, id).Some?;
    }
  }

  lemma StreamIs(s: Core, t: Trace, id: u32)
    requires Mirrors(s, t)
    ensures id in s.streams <==> Live(t, id).Some?
    ensures id in s.streams ==>
      id != 0 && Live(t, id) == Some((s.streams[id].generation, s.streams[id].nextSequence))
  {
  }

  lemma ReuseIs(s: Core, t: Trace, f: Frame)
    requires Remembers(s, t) && Recalls(s, t) && s.streams == map[]
    ensures Reuses(s, f) <==> f.streamId == 0 || UsedUp(t, f.streamId, f.generation)
  {
    if f.streamId in s.retired && f.generation <= s.retired[f.streamId] {
      assert OpenedWith(t, f.streamId, s.retired[f.streamId]);
    }
    if UsedUp(t, f.streamId, f.generation) {
      var i :| 0 <= i < |t| && Opens(t[i], f.streamId) && f.generation <= t[i].frame.generation;
      assert t[i].opens;
    }
  }

  lemma ConflictIs(s: Core, t: Trace, f: Frame)
    requires HoldsTokens(s, t) && Recalls(s, t)
    ensures f.token in s.tokens && s.tokens[f.token] != f.payload <==> Conflicts(t, f.token, f.payload)
  {
    if f.token in s.tokens && s.tokens[f.token] != f.payload {
      assert RequestedWith(t, f.token, s.tokens[f.token]);
    }
    if Conflicts(t, f.token, f.payload) {
      var i :| 0 <= i < |t| && Requests(t[i], f.token) && t[i].frame.payload != f.payload;
      assert t[i].frame.kind == BUILD_REQUEST;
    }
  }

  /** The checks after the handshake and apart from openings. */
  lemma OrdinaryJudged(lim: Limits, s: Core, t: Trace, a: Account, f: Frame)
    requires Inv(s, t) && Recalls(s, t) && Balanced(s, f.streamId, a)
    requires s.phase == Active || (s.phase == Negotiated && f.kind != OPEN_STREAM)
    ensures Apply(lim, s, f).1 ==
      match Refusal(lim, t, a, f) case None => Emitted(EventOf(f)) case Some(e) => Failed(e)
  {
    hide Live, Inv, Recalls, UsedUp, Conflicts, NoneLive, FromLe, Mirrors, Remembers, HoldsTokens;
    assert Mirrors(s, t) && Remembers(s, t) && HoldsTokens(s, t) by { InvParts(s, t); }
    PhaseIs(s, t);
    StreamIs(s, t, f.streamId);
    ConflictIs(s, t, f);
    assert |f.payload| >= 8 ==> f.payload[0..8] == f.payload[..8];
    CreditRead(f);
  }

  lemma InvParts(s: Core, t: Trace)
    requires Inv(s, t) && s.phase != Shut
    ensures Mirrors(s, t) && Remembers(s, t) && HoldsTokens(s, t)
  {
  }

  lemma CreditRead(f: Frame)
    ensures |f.payload| >= 8 ==> ReadAt(f.payload, 0, 8) == Some(FromLe(f.payload[..8]))
    ensures |f.payload| < 8 ==> ReadAt(f.payload, 0, 8) == None
  {
    hide FromLe;
    assert |f.payload| >= 8 ==> f.payload[0..8] == f.payload[..8];
  }

  lemma FrameJudged(lim: Limits, s: Core, t: Trace, a: Account, f: Frame)
    requires Inv(s, t) && Recalls(s, t) && Balanced(s, f.streamId, a) && s.phase != Shut
    ensures Apply(lim, s, f).1 ==
      match Refusal(lim, t, a, f) case None => Emitted(EventOf(f)) case Some(e) => Failed(e)
  {
    hide Live, Inv, Recalls, UsedUp, Conflicts, NoneLive, FromLe, Mirrors, Remembers, HoldsTokens, Reuses;
    InvParts(s, t);
    PhaseIs(s, t);
    if s.phase == Negotiated && f.kind == OPEN_STREAM {
      ReuseIs(s, t, f);
    } else if s.phase != Accepted {
      OrdinaryJudged(lim, s, t, a, f);
    }
  }

  /**
    Which frames are accepted, in every run that has not closed the session: exactly those the trace and the
    account give no reason to refuse. A refusal names its reason, adds nothing to the trace and closes.
   */
  lemma ReceivedIff(lim: Limits, ops: seq<Op>, f: Frame)
    requires RunOps(lim, ops).0.phase != Shut
    ensures var (s, t), (s', t') := RunOps(lim, ops), RunOps(lim, ops + [Receive(f)]);
      match Refusal(lim, t, AccountOf(lim, ops, f.streamId), f)
      case None =>
        && Apply(lim, s, f).1 == Emitted(EventOf(f))
        && s'.phase != Shut && t' == t + [Entry(f, WouldOpen(t, f))]
      case Some(e) => Apply(lim, s, f).1 == Failed(e) && s'.phase == Shut && t' == t
  {
    hide Inv, Refusal, AccountOf, Balanced, Apply, NoneLive;
    var (s, t) := RunOps(lim, ops);
    RunKeepsInv(lim, ops);
    RunRecalls(lim, ops);
    CreditBalances(lim, ops, f.streamId);
    FrameJudged(lim, s, t, AccountOf(lim, ops, f.streamId), f);
    InvParts(s, t);
    PhaseIs(s, t);
    StaysOpen(lim, s, f);
    assert (ops + [Receive(f)])[..|ops|] == ops;
  }

  lemma StaysOpen(lim: Limits, s: Core, f: Frame)
    requires s.phase != Shut
    ensures Apply(lim, s, f).1.Emitted? ==> Apply(lim, s, f).0.phase != Shut
  {
  }

  /** The same in the words of the protocol's rules: the frame may follow, and three limits are kept. */
  lemma AcceptedIffMayFollow(lim: Limits, ops: seq<Op>, f: Frame)
    requires RunOps(lim, ops).0.phase != Shut
    ensures var t, a := RunOps(lim, ops).1, AccountOf(lim, ops, f.streamId);
      Refusal(lim, t, a, f).None? <==>
        && MayFollow(t, Entry(f, WouldOpen(t, f)))
        && (WouldOpen(t, f) ==> lim.maxStreams > 0)
        && (f.kind == CREDIT ==>
              && |f.payload| >= 8 && Live(t, f.streamId).Some?
              && a.granted - a.reserved + FromLe(f.payload[..8]) <= MAX_U64)
  {
    hide Inv, AccountOf, Balanced, FromLe;
    var (s, t) := RunOps(lim, ops);
    RunKeepsInv(lim, ops);
    InvParts(s, t);
    StreamIs(s, t, f.streamId);
  }

  /** How local calls are answered, in every run that has not closed the session. */
  lemma LocalCallsAnswered(lim: Limits, ops: seq<Op>, id: u32, bytes: u64, terminal: bool)
    requires RunOps(lim, ops).0.phase != Shut
    ensures var (s, t) := RunOps(lim, ops);
      var a, live := AccountOf(lim, ops, id), Live(t, id).Some?;
      && SendCredit(s, id, bytes).1 == (
           if !live then Some(CreditForUnknownStream)
           else if a.granted - a.reserved + bytes > MAX_U64 then Some(CreditOverflow)
           else None)
      && ReserveSend(s, id, bytes, terminal).1 == (
           if !live then Some(SendOnUnknownStream)
           else if a.granted - a.reserved < bytes && !terminal then Some(InsufficientCredit)
           else None)
      && (live ==> s.streams[id].terminalPending == a.pending)
  {
    hide Inv, AccountOf;
    var (s, t) := RunOps(lim, ops);
    RunKeepsInv(lim, ops);
    InvParts(s, t);
    StreamIs(s, t, id);
    CreditBalances(lim, ops, id);
  }
}
