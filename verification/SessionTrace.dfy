/**
  What every run of a session keeps, over all sequences of received frames and local calls.

  The specification speaks only about the trace of accepted frames; the session's own state is
  tied to it by `Inv`.
 */
module SessionTrace {
  import opened Words
  import opened FipcCodec
  import opened Session
  import opened SessionSplit

  /** An accepted frame, and whether it was accepted as the opening of a stream. */
  datatype Entry = Entry(frame: Frame, opens: bool)

  type Trace = seq<Entry>

  /** `Fault` is what a decoder error does to the session. */
  datatype Op =
    | Receive(frame: Frame)
    | Fault
    | Grant(id: u32, bytes: u64)
    | Reserve(id: u32, bytes: u64, terminal: bool)

  // ---- The rules of the protocol, read off a trace ----

  /** The generation of the opening of stream `id` that is still in force, and the frames accepted since. */
  function Live(t: Trace, id: u32): Option<(u32, nat)> {
    if t == [] then None else
    var e, before := t[|t| - 1], Live(t[..|t| - 1], id);
    if e.frame.streamId != id then before
    else if e.opens then Some((e.frame.generation, 0))
    else if e.frame.kind == CLOSE_STREAM then None
    else if before.Some? then Some((before.value.0, before.value.1 + 1))
    else None
  }

  predicate Opens(e: Entry, id: u32) {
    e.opens && e.frame.streamId == id
  }

  predicate Requests(e: Entry, token: u64) {
    e.frame.kind == BUILD_REQUEST && e.frame.token == token
  }

  /** The entry may follow the trace. */
  ghost predicate MayFollow(t: Trace, e: Entry) {
    var f := e.frame;
    && (t == [] ==> !e.opens && f.kind == HELLO && f.streamId == 0 && f.sequence == 0)
    && (e.opens ==>
          && f.kind == OPEN_STREAM && f.streamId != 0
          && (forall id :: Live(t, id).None?)
          && (forall i :: 0 <= i < |t| && Opens(t[i], f.streamId) ==> t[i].frame.generation < f.generation))
    && (!e.opens && f.streamId != 0 ==> Live(t, f.streamId) == Some((f.generation, f.sequence)))
    && (f.kind == BUILD_REQUEST ==>
          forall i :: 0 <= i < |t| && Requests(t[i], f.token) ==> t[i].frame.payload == f.payload)
  }

  ghost predicate Legal(t: Trace) {
    forall j :: 0 <= j < |t| ==> MayFollow(t[..j], t[j])
  }

  // ---- The session as a machine over the trace ----

  function Step(lim: Limits, s: Core, t: Trace, op: Op): (Core, Trace) {
    match op
    case Receive(f) =>
      var (s', outcome) := Apply(lim, s, f);
      if outcome.Failed? then (Shutdown(s'), t)
      else (s', t + [Entry(f, s.phase == Negotiated && f.kind == OPEN_STREAM)])
    case Fault => (Shutdown(s), t)
    case Grant(id, bytes) => (SendCredit(s, id, bytes).0, t)
    case Reserve(id, bytes, terminal) => (ReserveSend(s, id, bytes, terminal).0, t)
  }

  function RunOps(lim: Limits, ops: seq<Op>): (Core, Trace) {
    if ops == [] then (FRESH, []) else
    var (s, t) := RunOps(lim, ops[..|ops| - 1]);
    Step(lim, s, t, ops[|ops| - 1])
  }

  /** How an open session mirrors its trace. */
  ghost predicate Mirrors(s: Core, t: Trace) {
    && (s.phase == Accepted <==> t == [])
    && (s.phase == Active <==> s.streams != map[])
    && (forall id :: id in s.streams <==> Live(t, id).Some?)
    && (forall id :: id in s.streams ==>
          id != 0 && Live(t, id) == Some((s.streams[id].generation, s.streams[id].nextSequence)))
    && (forall id, other :: id in s.streams && other in s.streams ==> id == other)
  }

  /** Generations already used, whether the stream is still open or not. */
  ghost predicate Remembers(s: Core, t: Trace) {
    forall i :: 0 <= i < |t| && t[i].opens ==>
      var f := t[i].frame;
      if f.streamId in s.streams then f.generation <= s.streams[f.streamId].generation
      else f.streamId in s.retired && f.generation <= s.retired[f.streamId]
  }

  ghost predicate HoldsTokens(s: Core, t: Trace) {
    forall i :: 0 <= i < |t| && t[i].frame.kind == BUILD_REQUEST ==>
      t[i].frame.token in s.tokens && s.tokens[t[i].frame.token] == t[i].frame.payload
  }

  ghost predicate Inv(s: Core, t: Trace) {
    Legal(t) && (s.phase != Shut ==> Mirrors(s, t) && Remembers(s, t) && HoldsTokens(s, t))
  }

  lemma LegalSnoc(t: Trace, e: Entry)
    requires Legal(t) && MayFollow(t, e)
    ensures Legal(t + [e])
  {
    var u := t + [e];
    forall j | 0 <= j < |u|
      ensures MayFollow(u[..j], u[j])
    {
      assert u[..j] == if j < |t| then t[..j] else t;
    }
  }

  lemma LiveSnoc(t: Trace, e: Entry, id: u32)
    ensures var before := Live(t, id);
      Live(t + [e], id) ==
        if e.frame.streamId != id then before
        else if e.opens then Some((e.frame.generation, 0))
        else if e.frame.kind == CLOSE_STREAM then None
        else if before.Some? then Some((before.value.0, before.value.1 + 1))
        else None
  {
    assert (t + [e])[..|t|] == t;
  }

  /** What an accepted frame does that is neither the first HELLO nor an opening. */
  lemma Ordinary(lim: Limits, s: Core, f: Frame)
    requires s.phase == Active || (s.phase == Negotiated && f.kind != OPEN_STREAM)
    requires Apply(lim, s, f).1.Emitted?
    ensures var s', id := Apply(lim, s, f).0, f.streamId;
      && (id !in s.streams ==> id == 0 && s'.streams == s.streams && s'.retired == s.retired && s'.phase == s.phase)
      && (id in s.streams ==> s.streams[id].generation == f.generation && s.streams[id].nextSequence == f.sequence)
      && (id in s.streams && f.kind == CLOSE_STREAM ==>
            && s'.streams == s.streams - {id} && s'.retired == s.retired[id := f.generation]
            && s'.phase == (if s'.streams == map[] then Negotiated else Active))
      && (id in s.streams && f.kind != CLOSE_STREAM ==>
            && s'.streams.Keys == s.streams.Keys && s'.retired == s.retired && s'.phase == s.phase
            && (forall k :: k in s.streams && k != id ==> s'.streams[k] == s.streams[k])
            && s'.streams[id].generation == f.generation && s'.streams[id].nextSequence == f.sequence + 1)
      && (f.kind == BUILD_REQUEST ==>
            && (f.token in s.tokens ==> s.tokens[f.token] == f.payload) && s'.tokens == s.tokens[f.token := f.payload])
      && (f.kind != BUILD_REQUEST ==> s'.tokens == s.tokens)
  {
    hide ReadAt;
    var s1 := Sequenced(s, f).0;
    if f.streamId in s.streams && f.kind == CLOSE_STREAM {
      assert s1.streams - {f.streamId} == s.streams - {f.streamId};
    }
  }

  lemma HelloKeepsInv(s: Core, t: Trace, f: Frame)
    requires Inv(s, t) && s.phase == Accepted
    requires f.kind == HELLO && f.streamId == 0 && f.sequence == 0
    ensures Inv(s.(phase := Negotiated), t + [Entry(f, false)])
  {
    hide Live;
    var e := Entry(f, false);
    LegalSnoc(t, e);
    forall id { LiveSnoc(t, e, id); }
  }

  lemma OpenKeepsInv(lim: Limits, s: Core, t: Trace, f: Frame)
    requires Inv(s, t) && s.phase == Negotiated && f.kind == OPEN_STREAM && Open(lim, s, f).1.Emitted?
    ensures Inv(Open(lim, s, f).0, t + [Entry(f, true)])
  {
    hide Live;
    var e := Entry(f, true);
    assert MayFollow(t, e) by {
      forall i | 0 <= i < |t| && Opens(t[i], f.streamId)
        ensures t[i].frame.generation < f.generation
      {
        assert t[i].opens;
      }
    }
    LegalSnoc(t, e);
    forall id { LiveSnoc(t, e, id); }
  }

  lemma OrdinaryKeepsLegal(lim: Limits, s: Core, t: Trace, f: Frame)
    requires Inv(s, t) && (s.phase == Active || (s.phase == Negotiated && f.kind != OPEN_STREAM))
    requires Apply(lim, s, f).1.Emitted?
    ensures Legal(t + [Entry(f, false)])
  {
    hide Apply;
    Ordinary(lim, s, f);
    var e := Entry(f, false);
    assert MayFollow(t, e) by {
      if f.kind == BUILD_REQUEST {
        forall i | 0 <= i < |t| && Requests(t[i], f.token)
          ensures t[i].frame.payload == f.payload
        {
          assert t[i].frame.kind == BUILD_REQUEST;
        }
      }
    }
    LegalSnoc(t, e);
  }

  lemma OrdinaryKeepsMirror(lim: Limits, s: Core, t: Trace, f: Frame)
    requires Inv(s, t) && (s.phase == Active || (s.phase == Negotiated && f.kind != OPEN_STREAM))
    requires Apply(lim, s, f).1.Emitted?
    ensures var s', t' := Apply(lim, s, f).0, t + [Entry(f, false)];
      Mirrors(s', t') && Remembers(s', t') && HoldsTokens(s', t')
  {
    hide Apply, Live;
    Ordinary(lim, s, f);
    forall id { LiveSnoc(t, Entry(f, false), id); }
  }

  lemma CreditKeepsInv(s: Core, s': Core, t: Trace)
    requires Inv(s, t) && s'.(streams := s.streams) == s && s'.streams.Keys == s.streams.Keys
    requires forall id :: id in s.streams ==>
      s'.streams[id].generation == s.streams[id].generation && s'.streams[id].nextSequence == s.streams[id].nextSequence
    ensures Inv(s', t)
  {
  }

  lemma StepKeepsInv(lim: Limits, s: Core, t: Trace, op: Op)
    requires Inv(s, t)
    ensures var (s', t') := Step(lim, s, t, op); Inv(s', t')
  {
    hide Inv, SendCredit, ReserveSend;
    match op
    case Grant(id, bytes) =>
      GrantTouchesCredit(s, id, bytes);
      CreditKeepsInv(s, SendCredit(s, id, bytes).0, t);
    case Reserve(id, bytes, terminal) =>
      ReserveTouchesCredit(s, id, bytes, terminal);
      CreditKeepsInv(s, ReserveSend(s, id, bytes, terminal).0, t);
    case Receive(f) =>
      ReceiveKeepsInv(lim, s, t, f);
    case Fault =>
      FaultKeepsInv(s, t);
  }

  lemma FaultKeepsInv(s: Core, t: Trace)
    requires Inv(s, t)
    ensures Inv(Shutdown(s), t)
  {
  }

  lemma GrantTouchesCredit(s: Core, id: u32, bytes: u64)
    ensures var s' := SendCredit(s, id, bytes).0;
      && s'.(streams := s.streams) == s && s'.streams.Keys == s.streams.Keys
      && forall k :: k in s.streams ==>
           && s'.streams[k].generation == s.streams[k].generation
           && s'.streams[k].nextSequence == s.streams[k].nextSequence
  {
  }

  lemma ReserveTouchesCredit(s: Core, id: u32, bytes: u64, terminal: bool)
    ensures var s' := ReserveSend(s, id, bytes, terminal).0;
      && s'.(streams := s.streams) == s && s'.streams.Keys == s.streams.Keys
      && forall k :: k in s.streams ==>
           && s'.streams[k].generation == s.streams[k].generation
           && s'.streams[k].nextSequence == s.streams[k].nextSequence
  {
  }

  lemma ReceiveKeepsInv(lim: Limits, s: Core, t: Trace, f: Frame)
    requires Inv(s, t)
    ensures var (s', t') := Step(lim, s, t, Receive(f)); Inv(s', t')
  {
    hide Open, Sequenced, Credited, Requested, Retire, Live;
    var (s', outcome) := Apply(lim, s, f);
    if outcome.Emitted? {
      if s.phase == Accepted {
        HelloKeepsInv(s, t, f);
      } else if s.phase == Negotiated && f.kind == OPEN_STREAM {
        OpenKeepsInv(lim, s, t, f);
      } else {
        OrdinaryKeepsLegal(lim, s, t, f);
        OrdinaryKeepsMirror(lim, s, t, f);
      }
    }
  }

  /** Every run, whatever is received and whatever the local side does, keeps the invariant. */
  lemma {:induction false} RunKeepsInv(lim: Limits, ops: seq<Op>)
    ensures var (s, t) := RunOps(lim, ops); Inv(s, t)
  {
    hide Inv, Step;
    if ops == [] {
      FreshInv();
    } else {
      var (s, t) := RunOps(lim, ops[..|ops| - 1]);
      RunKeepsInv(lim, ops[..|ops| - 1]);
      StepKeepsInv(lim, s, t, ops[|ops| - 1]);
    }
  }

  lemma FreshInv()
    ensures Inv(FRESH, [])
  {
  }

  // ---- The claims, one by one ----

  /** The session state agrees with its streams in every run; at most one stream is ever live. */
  lemma PhasesAgree(lim: Limits, ops: seq<Op>)
    ensures var s := RunOps(lim, ops).0;
      && (s.phase == Active ==> |s.streams| == 1)
      && (s.phase == Negotiated || s.phase == Accepted ==> s.streams == map[])
  {
    RunKeepsInv(lim, ops);
    var s := RunOps(lim, ops).0;
    if s.phase == Active {
      var id :| id in s.streams;
      assert s.streams.Keys == {id};
      assert |s.streams| == |s.streams.Keys|;
    }
  }

  /** HELLO on the control stream is the first accepted frame, if there is any. */
  lemma HelloComesFirst(lim: Limits, ops: seq<Op>)
    ensures var t := RunOps(lim, ops).1;
      t != [] ==> t[0].frame.kind == HELLO && t[0].frame.streamId == 0 && t[0].frame.sequence == 0
  {
    RunKeepsInv(lim, ops);
    var t := RunOps(lim, ops).1;
    assert t != [] ==> MayFollow(t[..0], t[0]);
  }

  /** A closed session accepts nothing more and does not move. */
  lemma {:induction false} ShutStaysShut(lim: Limits, ops: seq<Op>, more: seq<Op>)
    requires RunOps(lim, ops).0.phase == Shut
    ensures var (s, t), (s', t') := RunOps(lim, ops), RunOps(lim, ops + more);
      s'.phase == Shut && t' == t && s'.retired == s.retired && s'.tokens == s.tokens
    decreases |more|
  {
    hide Step;
    if more == [] {
      assert ops + more == ops;
    } else {
      var front := more[..|more| - 1];
      ShutStaysShut(lim, ops, front);
      assert (ops + more)[..|ops + more| - 1] == ops + front;
      var (s, t) := RunOps(lim, ops + front);
      ShutStep(lim, s, t, more[|more| - 1]);
    }
  }

  lemma ShutStep(lim: Limits, s: Core, t: Trace, op: Op)
    requires s.phase == Shut
    ensures var (s', t') := Step(lim, s, t, op);
      s'.phase == Shut && t' == t && s'.retired == s.retired && s'.tokens == s.tokens
  {
    hide Apply;
  }

  /** Per stream id, the generations that open it strictly increase. */
  lemma OpeningsIncrease(lim: Limits, ops: seq<Op>, i: nat, j: nat)
    requires i < j < |RunOps(lim, ops).1|
    requires var t := RunOps(lim, ops).1; t[i].opens && t[j].opens && t[i].frame.streamId == t[j].frame.streamId
    ensures var t := RunOps(lim, ops).1; t[i].frame.generation < t[j].frame.generation
  {
    RunKeepsInv(lim, ops);
    var t := RunOps(lim, ops).1;
    assert MayFollow(t[..j], t[j]);
    assert t[..j][i] == t[i] && Opens(t[..j][i], t[j].frame.streamId);
  }

  /** The entries of `t` on stream `id` since index `from`. */
  function OnStream(t: Trace, from: nat, id: u32): nat {
    if |t| <= from then 0
    else OnStream(t[..|t| - 1], from, id) + (if t[|t| - 1].frame.streamId == id then 1 else 0)
  }

  /** `i` is the opening in force for stream `id` after the trace. */
  predicate InForce(t: Trace, i: nat, id: u32) {
    && i < |t| && Opens(t[i], id)
    && forall k :: i < k < |t| && t[k].frame.streamId == id ==> !t[k].opens && t[k].frame.kind != CLOSE_STREAM
  }

  lemma {:induction false} LiveCounts(t: Trace, id: u32) returns (i: nat)
    requires Live(t, id).Some?
    ensures InForce(t, i, id) && Live(t, id) == Some((t[i].frame.generation, OnStream(t, i + 1, id)))
  {
    var front, e := t[..|t| - 1], t[|t| - 1];
    if Opens(e, id) {
      i := |t| - 1;
    } else {
      i := LiveCounts(front, id);
    }
  }

  /**
    Every accepted frame on a stream belongs to the opening in force, carries its generation, and
    its sequence number is the number of frames accepted on the stream since: 0, 1, 2, ...
   */
  lemma SequencesWithoutGaps(lim: Limits, ops: seq<Op>, j: nat) returns (i: nat)
    requires j < |RunOps(lim, ops).1|
    requires var e := RunOps(lim, ops).1[j]; !e.opens && e.frame.streamId != 0
    ensures var t := RunOps(lim, ops).1;
      && InForce(t[..j], i, t[j].frame.streamId)
      && t[j].frame.generation == t[i].frame.generation
      && t[j].frame.sequence == OnStream(t[..j], i + 1, t[j].frame.streamId)
  {
    RunKeepsInv(lim, ops);
    var t := RunOps(lim, ops).1;
    assert MayFollow(t[..j], t[j]);
    i := LiveCounts(t[..j], t[j].frame.streamId);
  }

  /** Accepted build requests that share a token have equal payloads. */
  lemma TokensAgree(lim: Limits, ops: seq<Op>, i: nat, j: nat)
    requires i < j < |RunOps(lim, ops).1|
    requires var t := RunOps(lim, ops).1;
      t[i].frame.kind == t[j].frame.kind == BUILD_REQUEST && t[i].frame.token == t[j].frame.token
    ensures var t := RunOps(lim, ops).1; t[i].frame.payload == t[j].frame.payload
  {
    RunKeepsInv(lim, ops);
    var t := RunOps(lim, ops).1;
    assert MayFollow(t[..j], t[j]);
    assert t[..j][i] == t[i] && Requests(t[..j][i], t[j].frame.token);
  }

  // ---- The credit of a stream ----

  /**
    The credit granted to a stream and the bytes reserved from it since it was last opened, and whether a
    terminal was sent without credit.
   */
  datatype Account = Account(granted: nat, reserved: nat, pending: bool)

  function Grants(a: Account, bytes: nat): Account {
    if a.granted + bytes <= MAX_U64 + a.reserved then a.(granted := a.granted + bytes) else a
  }

  /** The book-keeper sees the call and how the trace grew, not the session's credit. */
  function Booked(a: Account, id: u32, op: Op, t: Trace, t': Trace): Account {
    match op
    case Fault => a
    case Grant(i, bytes) => if i == id then Grants(a, bytes) else a
    case Reserve(i, bytes, terminal) =>
      if i != id then a
      else if a.reserved + bytes <= a.granted then a.(reserved := a.reserved + bytes)
      else a.(pending := a.pending || terminal)
    case Receive(f) =>
      if |t'| <= |t| || f.streamId != id then a
      else if t'[|t|].opens then Account(0, 0, false)
      else if f.kind == CREDIT && |f.payload| >= 8 then Grants(a, FromLe(f.payload[..8]))
      else a
  }

  function AccountOf(lim: Limits, ops: seq<Op>, id: u32): Account {
    if ops == [] then Account(0, 0, false) else
    var front := ops[..|ops| - 1];
    Booked(AccountOf(lim, front, id), id, ops[|ops| - 1], RunOps(lim, front).1, RunOps(lim, ops).1)
  }

  ghost predicate Balanced(s: Core, id: u32, a: Account) {
    id in s.streams && s.phase != Shut ==>
      && a.reserved <= a.granted && s.streams[id].credit == a.granted - a.reserved
      && s.streams[id].terminalPending == a.pending
  }

  /** What an accepted frame does to the credit of stream `id`. */
  lemma FrameCredit(lim: Limits, s: Core, f: Frame, id: u32)
    requires s.phase != Shut && Apply(lim, s, f).1.Emitted?
    ensures var s', opens := Apply(lim, s, f).0, s.phase == Negotiated && f.kind == OPEN_STREAM;
      id in s'.streams ==>
        && (f.streamId == id && opens ==> s'.streams[id].credit == 0 && !s'.streams[id].terminalPending)
        && (!(f.streamId == id && opens) ==>
              id in s.streams && s'.streams[id].terminalPending == s.streams[id].terminalPending)
        && (f.streamId == id && !opens && f.kind == CREDIT ==>
              |f.payload| >= 8 && s'.streams[id].credit == s.streams[id].credit + FromLe(f.payload[..8]))
        && (f.streamId != id || (!opens && f.kind != CREDIT) ==> s'.streams[id].credit == s.streams[id].credit)
  {
    if s.phase != Accepted && !(s.phase == Negotiated && f.kind == OPEN_STREAM) {
      hide FromLe;
      assert f.kind == CREDIT && |f.payload| >= 8 ==> f.payload[0..8] == f.payload[..8];
    }
  }

  lemma ReceiveBalances(lim: Limits, s: Core, t: Trace, f: Frame, id: u32, a: Account)
    requires Balanced(s, id, a)
    ensures var (s', t') := Step(lim, s, t, Receive(f)); Balanced(s', id, Booked(a, id, Receive(f), t, t'))
  {
    hide Apply, FromLe;
    if s.phase != Shut && Apply(lim, s, f).1.Emitted? {
      FrameCredit(lim, s, f, id);
    }
  }

  lemma StepBalances(lim: Limits, s: Core, t: Trace, op: Op, id: u32, a: Account)
    requires Balanced(s, id, a)
    ensures var (s', t') := Step(lim, s, t, op); Balanced(s', id, Booked(a, id, op, t, t'))
  {
    hide Apply, FromLe;
    if op.Receive? {
      ReceiveBalances(lim, s, t, op.frame, id, a);
    }
  }

  /**
    Credit is conserved: in every run, an open stream's credit is what was granted since it was
    opened, by CREDIT frames or locally, less what was reserved; it never goes below zero or overflows.
    A terminal is pending exactly when one was sent without credit.
   */
  lemma {:induction false} CreditBalances(lim: Limits, ops: seq<Op>, id: u32)
    ensures Balanced(RunOps(lim, ops).0, id, AccountOf(lim, ops, id))
  {
    hide Step, Booked;
    if ops != [] {
      var front := ops[..|ops| - 1];
      CreditBalances(lim, front, id);
      var (s, t) := RunOps(lim, front);
      StepBalances(lim, s, t, ops[|ops| - 1], id, AccountOf(lim, front, id));
    }
  }

  // ---- From frames to traces ----

  function Receives(fs: seq<Frame>): (ops: seq<Op>)
    ensures |ops| == |fs|
  {
    seq(|fs|, i requires 0 <= i < |fs| => Receive(fs[i]))
  }

  function Events(t: Trace): (events: seq<Event>)
    ensures |events| == |t|
  {
    seq(|t|, i requires 0 <= i < |t| => EventOf(t[i].frame))
  }

  lemma {:induction false} ApplyAllSnoc(lim: Limits, s: Core, fs: seq<Frame>, f: Frame)
    ensures var (u, events, e) := ApplyAll(lim, s, fs);
      var (v, more, e') := ApplyAll(lim, s, fs + [f]);
      var (u', outcome) := Apply(lim, u, f);
      && (e.Some? ==> v == u && more == events && e' == e)
      && (e.None? && outcome.Failed? ==> v == Shutdown(u') && more == events && e' == Some(outcome.error))
      && (e.None? && outcome.Emitted? ==> v == u' && more == events + [outcome.event] && e' == None)
    decreases |fs|
  {
    hide Apply;
    if fs == [] {
      assert (fs + [f])[1..] == [];
      assert ApplyAll(lim, Apply(lim, s, f).0, []) == (Apply(lim, s, f).0, [], None);
    } else {
      assert (fs + [f])[1..] == fs[1..] + [f];
      ApplyAllSnoc(lim, Apply(lim, s, fs[0]).0, fs[1..], f);
    }
  }

  function Frames(t: Trace): (fs: seq<Frame>)
    ensures |fs| == |t|
  {
    seq(|t|, i requires 0 <= i < |t| => t[i].frame)
  }

  /** One received frame, as the session and as the trace see it. */
  lemma FrameTraced(lim: Limits, ops: seq<Op>, f: Frame)
    ensures var (s, t), (s', t') := RunOps(lim, ops), RunOps(lim, ops + [Receive(f)]);
      var (u, outcome) := Apply(lim, s, f);
      && (outcome.Failed? ==> s' == Shutdown(u) && t' == t)
      && (outcome.Emitted? ==>
            s' == u && Events(t') == Events(t) + [outcome.event] && Frames(t') == Frames(t) + [f])
      && (s.phase == Shut ==> s' == s && t' == t)
  {
    hide Apply;
    assert (ops + [Receive(f)])[..|ops|] == ops;
  }

  /**
    What a session, after any run, does with further frames it decodes is a run of the machine above:
    same state, the events are those of the entries added to the trace, and without a refusal the
    entries are exactly the frames.
   */
  lemma {:induction false} FramesRun(lim: Limits, ops: seq<Op>, fs: seq<Frame>)
    ensures var (s, t), (s', t') := RunOps(lim, ops), RunOps(lim, ops + Receives(fs));
      var (u, events, e) := ApplyAll(lim, s, fs);
      && s' == u && Events(t') == Events(t) + events && (e.Some? ==> s'.phase == Shut)
      && |t'| <= |t| + |fs| && Frames(t') == Frames(t) + fs[..|t'| - |t|]
      && (e.None? ==> |t'| == |t| + |fs|)
    decreases |fs|
  {
    hide Apply, RunOps, ApplyAll, Events, Frames, Receives;
    var (s, t) := RunOps(lim, ops);
    if fs == [] {
      assert ops + Receives(fs) == ops;
      assert ApplyAll(lim, s, fs) == (s, [], None) by { ApplyNothing(lim, s); }
    } else {
      var front, f := fs[..|fs| - 1], fs[|fs| - 1];
      var ops' := ops + Receives(front);
      FramesRun(lim, ops, front);
      ApplyAllSnoc(lim, s, front, f);
      assert front + [f] == fs;
      FrameTraced(lim, ops', f);
      ReceivesSnoc(front, f);
      assert ops + Receives(fs) == ops' + [Receive(f)];
      var (s1, t1) := RunOps(lim, ops');
      var t2 := RunOps(lim, ops' + [Receive(f)]).1;
      var k := |t1| - |t|;
      assert front[..k] == fs[..k];
      if ApplyAll(lim, s, front).2.Some? {
        assert s1.phase == Shut && t2 == t1;
      } else if Apply(lim, s1, f).1.Emitted? {
        assert |Frames(t2)| == |t1| + 1 && k == |front|;
        assert fs[..k] + [f] == fs[..k + 1];
      }
    }
  }

  lemma ApplyNothing(lim: Limits, s: Core)
    ensures ApplyAll(lim, s, []) == (s, [], None)
  {
  }

  lemma ReceivesSnoc(fs: seq<Frame>, f: Frame)
    ensures Receives(fs + [f]) == Receives(fs) + [Receive(f)]
  {
  }
}
