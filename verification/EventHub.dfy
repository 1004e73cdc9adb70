/**
  Event streams under byte credit.
 */
module EventHubs {
  import opened Words

  datatype EventKind = Progress | Gap | Queued | Running | Succeeded | Failed | Cancelled

  datatype BuildEvent = BuildEvent(kind: EventKind, message: string, terminal: bool, bytes: u64)

  datatype Stream = Stream(credit: u64, queued: seq<BuildEvent>, gapEmitted: bool)

  const GAP := BuildEvent(Gap, "progress omitted by credit backpressure", false, 0)

  /** Publishes on one stream; the second component says whether the event was accepted. */
  function PublishOn(s: Stream, e: BuildEvent): (Stream, bool) {
    if e.bytes <= s.credit then (s.(credit := s.credit - e.bytes, queued := s.queued + [e]), true)
    else if e.terminal then (s.(queued := s.queued + [e]), true)
    else if !s.gapEmitted then (s.(gapEmitted := true, queued := s.queued + [GAP]), false)
    else (s, false)
  }

  class EventHub {
    var streams: map<u32, Stream>

    constructor ()
      ensures streams == map[]
    {
      streams := map[];
    }

    method OpenStream(id: u32, credit: u64) returns (ok: bool)
      modifies this
      ensures ok <==> id != 0 && id !in old(streams)
      ensures streams == if ok then old(streams)[id := Stream(credit, [], false)] else old(streams)
    {
      if id == 0 || id in streams {
        return false;
      }
      streams := streams[id := Stream(credit, [], false)];
      ok := true;
    }

    method AddCredit(id: u32, credit: u64) returns (ok: bool)
      modifies this
      ensures ok <==> id in old(streams) && old(streams)[id].credit + credit <= MAX_U64
      ensures streams ==
        if ok then old(streams)[id := old(streams)[id].(credit := old(streams)[id].credit + credit)] else old(streams)
    {
      if id !in streams {
        return false;
      }
      var added := CheckedAdd(streams[id].credit, credit);
      if added.None? {
        return false;
      }
      streams := streams[id := streams[id].(credit := added.value)];
      ok := true;
    }

    method Publish(id: u32, e: BuildEvent) returns (ok: bool)
      modifies this
      ensures id !in old(streams) ==> !ok && streams == old(streams)
      ensures id in old(streams) ==>
        var (s, accepted) := PublishOn(old(streams)[id], e); ok == accepted && streams == old(streams)[id := s]
    {
      if id !in streams {
        return false;
      }
      var stream := streams[id];
      if e.bytes <= stream.credit {
        streams := streams[id := stream.(credit := stream.credit - e.bytes, queued := stream.queued + [e])];
        return true;
      }
      if e.terminal {
        streams := streams[id := stream.(queued := stream.queued + [e])];
        return true;
      }
      if !stream.gapEmitted {
        streams := streams[id := stream.(gapEmitted := true, queued := stream.queued + [GAP])];
      }
      ok := false;
    }

    method Drain(id: u32) returns (out: seq<BuildEvent>)
      modifies this
      ensures id !in old(streams) ==> out == [] && streams == old(streams)
      ensures id in old(streams) ==>
        out == old(streams)[id].queued && streams == old(streams)[id := old(streams)[id].(queued := [])]
    {
      out := [];
      if id in streams {
        ghost var all := streams[id].queued;
        while streams[id].queued != []
          invariant id in streams && streams == old(streams)[id := old(streams)[id].(queued := streams[id].queued)]
          invariant out + streams[id].queued == all
          decreases |streams[id].queued|
        {
          var stream := streams[id];
          out := out + [stream.queued[0]];
          streams := streams[id := stream.(queued := stream.queued[1..])];
        }
      }
    }
  }

  // ---- Runs of one stream against an account book ----

  datatype Op = Credit(amount: u64) | Emit(event: BuildEvent) | Flush

  datatype Verdict = Charged | Retained | Dropped

  /** The book of a stream: the balance, and every published event with what became of it. */
  datatype Book = Book(balance: nat, granted: nat, entries: seq<(BuildEvent, Verdict)>)

  function Judge(balance: nat, e: BuildEvent): Verdict {
    if e.bytes <= balance then Charged else if e.terminal then Retained else Dropped
  }

  function Keep(initial: u64, ops: seq<Op>): Book {
    if ops == [] then Book(initial, 0, []) else
    var b := Keep(initial, ops[..|ops| - 1]);
    match ops[|ops| - 1]
    case Credit(n) => if b.balance + n <= MAX_U64 then b.(balance := b.balance + n, granted := b.granted + n) else b
    case Emit(e) =>
      var v := Judge(b.balance, e);
      Book(if v == Charged then b.balance - e.bytes else b.balance, b.granted, b.entries + [(e, v)])
    case Flush => b
  }

  function ChargedBytes(entries: seq<(BuildEvent, Verdict)>): nat {
    if entries == [] then 0 else
    var (e, v) := entries[|entries| - 1];
    ChargedBytes(entries[..|entries| - 1]) + if v == Charged then e.bytes else 0
  }

  predicate AnyDropped(entries: seq<(BuildEvent, Verdict)>) {
    exists i :: 0 <= i < |entries| && entries[i].1 == Dropped
  }

  /** What the client must see: every accepted event in order, and one gap where the first was dropped. */
  function Visible(entries: seq<(BuildEvent, Verdict)>): seq<BuildEvent> {
    if entries == [] then [] else
    var front, (e, v) := entries[..|entries| - 1], entries[|entries| - 1];
    Visible(front) + if v != Dropped then [e] else if AnyDropped(front) then [] else [GAP]
  }

  /** The stream itself, everything drained from it, and the events it accepted or refused. */
  function Simulate(initial: u64, ops: seq<Op>): (Stream, seq<BuildEvent>) {
    if ops == [] then (Stream(initial, [], false), []) else
    var (s, out) := Simulate(initial, ops[..|ops| - 1]);
    match ops[|ops| - 1]
    case Credit(n) => (match CheckedAdd(s.credit, n) case None => (s, out) case Some(c) => (s.(credit := c), out))
    case Emit(e) => (PublishOn(s, e).0, out)
    case Flush => (s.(queued := []), out + s.queued)
  }

  /**
    In every run the stream's credit is the book's balance; what was drained followed by what is
    queued is exactly what must be visible; and a gap was emitted if and only if an event was dropped.
   */
  lemma {:induction false} StreamKeepsBook(initial: u64, ops: seq<Op>)
    ensures var (s, out), b := Simulate(initial, ops), Keep(initial, ops);
      s.credit == b.balance && out + s.queued == Visible(b.entries) && (s.gapEmitted <==> AnyDropped(b.entries))
  {
    hide Visible, AnyDropped;
    if ops == [] {
      NothingVisible();
    } else {
      var front := ops[..|ops| - 1];
      StreamKeepsBook(initial, front);
      var (s, out) := Simulate(initial, front);
      var b := Keep(initial, front);
      if ops[|ops| - 1].Emit? {
        var e := ops[|ops| - 1].event;
        var v := Judge(b.balance, e);
        VisibleSnoc(b.entries, e, v);
        var added := PublishOn(s, e).0.queued[|s.queued|..];
        assert out + (s.queued + added) == out + s.queued + added;
        assert Visible(b.entries) + [] == Visible(b.entries);
      } else {
        assert out + s.queued + [] == out + s.queued;
      }
    }
  }

  lemma NothingVisible()
    ensures Visible([]) == [] && !AnyDropped([])
  {
  }

  lemma VisibleSnoc(entries: seq<(BuildEvent, Verdict)>, e: BuildEvent, v: Verdict)
    ensures Visible(entries + [(e, v)])
         == Visible(entries) + if v != Dropped then [e] else if AnyDropped(entries) then [] else [GAP]
    ensures AnyDropped(entries + [(e, v)]) <==> AnyDropped(entries) || v == Dropped
  {
    hide AnyDropped;
    assert (entries + [(e, v)])[..|entries|] == entries;
    DroppedSnoc(entries, (e, v));
  }

  lemma DroppedSnoc(entries: seq<(BuildEvent, Verdict)>, entry: (BuildEvent, Verdict))
    ensures AnyDropped(entries + [entry]) <==> AnyDropped(entries) || entry.1 == Dropped
  {
    var longer := entries + [entry];
    assert longer[|entries|] == entry;
    if AnyDropped(entries) {
      var i :| 0 <= i < |entries| && entries[i].1 == Dropped;
      assert longer[i].1 == Dropped;
    }
  }

  /** In every run an event is accepted exactly when the book does not drop it, and credit when it fits. */
  lemma AnswersMatchBook(initial: u64, ops: seq<Op>, e: BuildEvent, n: u64)
    ensures var s, b := Simulate(initial, ops).0, Keep(initial, ops);
      && (PublishOn(s, e).1 <==> e.bytes <= b.balance || e.terminal)
      && (PublishOn(s, e).1 <==> Judge(b.balance, e) != Dropped)
      && (CheckedAdd(s.credit, n).Some? <==> Keep(initial, ops + [Credit(n)]).granted == b.granted + n)
  {
    StreamKeepsBook(initial, ops);
    assert (ops + [Credit(n)])[..|ops|] == ops;
  }

  /** Credit is conserved: balance plus bytes charged is initial plus granted credit, and never overflows. */
  lemma {:induction false} CreditConserved(initial: u64, ops: seq<Op>)
    ensures var b := Keep(initial, ops);
      b.balance + ChargedBytes(b.entries) == initial + b.granted && b.balance <= MAX_U64
  {
    if ops != [] {
      var b := Keep(initial, ops[..|ops| - 1]);
      CreditConserved(initial, ops[..|ops| - 1]);
      if ops[|ops| - 1].Emit? {
        var e := ops[|ops| - 1].event;
        assert (b.entries + [(e, Judge(b.balance, e))])[..|b.entries|] == b.entries;
      }
    }
  }

  function Terminals(events: seq<BuildEvent>): seq<BuildEvent> {
    if events == [] then [] else
    var last := events[|events| - 1];
    Terminals(events[..|events| - 1]) + if last.terminal then [last] else []
  }

  function Emitted(ops: seq<Op>): seq<BuildEvent> {
    if ops == [] then [] else
    Emitted(ops[..|ops| - 1]) + match ops[|ops| - 1] case Emit(e) => [e] case _ => []
  }

  lemma TerminalsSnoc(events: seq<BuildEvent>, e: BuildEvent)
    ensures Terminals(events + [e]) == Terminals(events) + if e.terminal then [e] else []
  {
    assert (events + [e])[..|events|] == events;
  }

  /** No terminal event is ever lost, duplicated or reordered, whatever the credit. */
  lemma {:induction false} TerminalsDelivered(initial: u64, ops: seq<Op>)
    ensures var (s, out) := Simulate(initial, ops); Terminals(out + s.queued) == Terminals(Emitted(ops))
  {
    hide Terminals;
    if ops == [] {
      assert [] + Simulate(initial, ops).0.queued == [];
    } else {
      var front := ops[..|ops| - 1];
      TerminalsDelivered(initial, front);
      var (s, out) := Simulate(initial, front);
      match ops[|ops| - 1] {
        case Emit(e) =>
          assert out + (s.queued + [e]) == out + s.queued + [e];
          assert out + (s.queued + [GAP]) == out + s.queued + [GAP];
          TerminalsSnoc(out + s.queued, e);
          TerminalsSnoc(out + s.queued, GAP);
          TerminalsSnoc(Emitted(front), e);
        case Credit(_) =>
          assert Emitted(ops) == Emitted(front);
        case Flush =>
          assert out + s.queued + [] == out + s.queued;
          assert Emitted(ops) == Emitted(front);
      }
    }
  }
}
