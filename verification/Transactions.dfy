/**
  FST-1 transactions: what the writer appends, and what replay makes of it, whole or torn.
 */
module Transactions {
  import opened Words
  import opened Crc
  import opened Envelope
  import opened StateCodec
  import opened Recovery

  /** One call of the writer. */
  datatype Txn = Txn(id: u64, baseSequence: u64, newSequence: u64, records: seq<Record>)

  predicate IsControl(r: Record) {
    r.kind == TXN_BEGIN || r.kind == TXN_COMMIT
  }

  predicate Plain(rs: seq<Record>) {
    forall i :: 0 <= i < |rs| ==> !IsControl(rs[i])
  }

  predicate AllFit(rs: seq<Record>) {
    forall i :: 0 <= i < |rs| ==> Fits(rs[i])
  }

  /** The records, each with its transaction id replaced. */
  function Stamped(rs: seq<Record>, id: u64): (s: seq<Record>)
    ensures |s| == |rs|
    ensures forall i :: 0 <= i < |rs| ==> s[i] == rs[i].(txnId := id)
  {
    seq(|rs|, i requires 0 <= i < |rs| => rs[i].(txnId := id))
  }

  function BeginWith(t: Txn, count: nat): Record {
    Record(TXN_BEGIN, t.id, t.baseSequence, 0, Le(count, 8))
  }

  function CommitWith(t: Txn, digest: nat): Record {
    Record(TXN_COMMIT, t.id, 0, t.newSequence, Le(digest, 8))
  }

  function Begin(t: Txn): Record {
    BeginWith(t, |t.records|)
  }

  /** The commit record: its digest covers the whole log before it. */
  function Commit(crc: Checksum, t: Txn, before: seq<byte>): Record {
    CommitWith(t, crc(before))
  }

  /** The encoded size of the records. */
  function Size(rs: seq<Record>): nat {
    if rs == [] then 0 else Padded(HEADER_SIZE + |rs[0].payload|) + Size(rs[1..])
  }

  function EncodeAll(crc: Checksum, rs: seq<Record>): (b: seq<byte>)
    ensures |b| == Size(rs)
  {
    if rs == [] then [] else Encode(crc, rs[0]) + EncodeAll(crc, rs[1..])
  }

  lemma {:induction false} SizeAppend(rs: seq<Record>, qs: seq<Record>)
    ensures Size(rs + qs) == Size(rs) + Size(qs)
  {
    hide Padded;
    if rs == [] {
      assert rs + qs == qs;
    } else {
      assert (rs + qs)[0] == rs[0] && (rs + qs)[1..] == rs[1..] + qs;
      SizeAppend(rs[1..], qs);
    }
  }

  lemma {:induction false} EncodeAllAppend(crc: Checksum, rs: seq<Record>, qs: seq<Record>)
    ensures EncodeAll(crc, rs + qs) == EncodeAll(crc, rs) + EncodeAll(crc, qs)
  {
    hide Encode;
    if rs == [] {
      assert rs + qs == qs;
    } else {
      assert (rs + qs)[0] == rs[0] && (rs + qs)[1..] == rs[1..] + qs;
      EncodeAllAppend(crc, rs[1..], qs);
    }
  }

  /** The records before the commit, in the order they are written. */
  function Opening(t: Txn): seq<Record> {
    [Begin(t)] + Stamped(t.records, t.id)
  }

  function TailSize(t: Txn): nat {
    Size(Opening(t)) + 48
  }

  /** The bytes a transaction adds to `log`. */
  function Tail(crc: Checksum, log: seq<byte>, t: Txn): (tail: seq<byte>)
    ensures |tail| == TailSize(t)
  {
    var opening := EncodeAll(crc, Opening(t));
    opening + Encode(crc, Commit(crc, t, log + opening))
  }

  // ---- Replaying a whole transaction ----

  lemma {:induction false} ReplayStaged(crc: Checksum, done: seq<byte>, rs: seq<Record>, more: seq<byte>, st: State)
    requires st.inTxn && Plain(rs) && AllFit(rs)
    ensures Replay(crc, done, EncodeAll(crc, rs) + more, st)
         == Replay(crc, done + EncodeAll(crc, rs), more, st.(staged := st.staged + rs))
    decreases |rs|
  {
    hide Encode, Decode, Replay;
    if rs == [] {
      assert EncodeAll(crc, rs) + more == more && done + EncodeAll(crc, rs) == done && st.staged + rs == st.staged;
    } else {
      var e, tail := Encode(crc, rs[0]), EncodeAll(crc, rs[1..]);
      assert EncodeAll(crc, rs) + more == e + (tail + more);
      ReplayRecord(crc, done, rs[0], tail + more, st);
      var st' := st.(staged := st.staged + [rs[0]]);
      ReplayStaged(crc, done + e, rs[1..], more, st');
      assert done + e + tail == done + EncodeAll(crc, rs);
      assert st'.staged + rs[1..] == st.staged + rs;
    }
  }

  lemma StampedKeeps(rs: seq<Record>, id: u64)
    ensures Plain(rs) ==> Plain(Stamped(rs, id))
    ensures AllFit(rs) ==> AllFit(Stamped(rs, id))
  {
  }

  /** A transaction in memory: its record count and its records fit their fields. */
  predicate Encodable(t: Txn) {
    |t.records| <= MAX_U64 && AllFit(t.records)
  }

  lemma CountRead(n: nat)
    requires n <= MAX_U64
    ensures ReadAt(Le(n, 8), 0, 8) == Some(n)
  {
    Spans();
    ReadWritten(n, 8);
    assert Le(n, 8)[0..8] == Le(n, 8);
  }

  lemma TailSplit(crc: Checksum, log: seq<byte>, t: Txn)
    ensures var opening, rest := EncodeAll(crc, Opening(t)), EncodeAll(crc, Stamped(t.records, t.id));
      && opening == Encode(crc, Begin(t)) + rest
      && Tail(crc, log, t) == Encode(crc, Begin(t)) + (rest + Encode(crc, Commit(crc, t, log + opening)))
  {
    hide Encode, Le;
    assert Opening(t)[0] == Begin(t) && Opening(t)[1..] == Stamped(t.records, t.id);
  }

  /** A begin record opens a transaction, whatever was going on before. */
  lemma ReplayBegin(crc: Checksum, log: seq<byte>, t: Txn, count: u64, more: seq<byte>, st: State)
    ensures var e := Encode(crc, BeginWith(t, count));
      Replay(crc, log, e + more, st)
        == Replay(crc, log + e, more, st.(inTxn := true, txnId := t.id, declared := count, staged := []))
  {
    hide Encode, Decode, Le, ReadAt, Replay;
    CountRead(count);
    ReplayRecord(crc, log, BeginWith(t, count), more, st);
  }

  /** What a closing commit makes of what is staged. */
  function Closed(st: State, t: Txn, agrees: bool): State {
    var idle := st.(inTxn := false, staged := []);
    if |st.staged| != st.declared then Diagnosed(idle, CountMismatch)
    else if !agrees then Diagnosed(idle, DigestMismatch)
    else idle.(committed := st.committed + st.staged, sequence := t.newSequence)
  }

  lemma ReplayCommit(crc: Checksum, done: seq<byte>, t: Txn, digest: u64, st: State)
    requires st.inTxn && st.txnId == t.id
    ensures Replay(crc, done, Encode(crc, CommitWith(t, digest)), st)
         == Closed(st, t, digest % 0x1_0000_0000 == crc(done))
  {
    hide Encode, Decode, Le, ReadAt, Replay;
    var c := CommitWith(t, digest);
    CountRead(digest);
    assert Encode(crc, c) + [] == Encode(crc, c);
    ReplayRecord(crc, done, c, [], st);
    ReplayNothing(crc, done + Encode(crc, c), Step(crc, done, st, c).1);
  }

  /**
    A begin record that declares any count, records, and a commit that carries any digest: the records and
    the sequence are published if and only if the count is that of the records and the digest is the
    checksum of everything before the commit. Otherwise one diagnostic is all that is left of it.
   */
  lemma ReplayDeclared(crc: Checksum, log: seq<byte>, t: Txn, count: u64, digest: u64, st: State)
    requires AllFit(t.records) && Plain(t.records)
    ensures var opening := Encode(crc, BeginWith(t, count)) + EncodeAll(crc, Stamped(t.records, t.id));
      var idle := st.(inTxn := false, txnId := t.id, declared := count, staged := []);
      Replay(crc, log, opening + Encode(crc, CommitWith(t, digest)), st) ==
        if count != |t.records| then Diagnosed(idle, CountMismatch)
        else if digest % 0x1_0000_0000 != crc(log + opening) then Diagnosed(idle, DigestMismatch)
        else idle.(committed := st.committed + Stamped(t.records, t.id), sequence := t.newSequence)
  {
    hide Encode, Decode, Replay, EncodeAll, BeginWith, CommitWith, Size;
    var rs, e, commit := Stamped(t.records, t.id), Encode(crc, BeginWith(t, count)), Encode(crc, CommitWith(t, digest));
    var body := EncodeAll(crc, rs);
    StampedKeeps(t.records, t.id);
    var st1 := st.(inTxn := true, txnId := t.id, declared := count, staged := []);
    assert e + body + commit == e + (body + commit);
    ReplayBegin(crc, log, t, count, body + commit, st);
    ReplayStaged(crc, log + e, rs, commit, st1);
    assert log + e + body == log + (e + body);
    assert [] + rs == rs;
    ReplayCommit(crc, log + (e + body), t, digest, st1.(staged := rs));
  }

  /** A transaction replayed from the log it was written for commits exactly its records. */
  lemma ReplayTransaction(crc: Checksum, log: seq<byte>, t: Txn, st: State)
    requires Encodable(t) && Plain(t.records)
    ensures Replay(crc, log, Tail(crc, log, t), st)
         == st.(inTxn := false, txnId := t.id, declared := |t.records|, staged := [],
                committed := st.committed + Stamped(t.records, t.id), sequence := t.newSequence)
  {
    hide Encode, Decode, Replay, EncodeAll, BeginWith, CommitWith, Size;
    TailSplit(crc, log, t);
    var opening := EncodeAll(crc, Opening(t));
    ReplayDeclared(crc, log, t, |t.records|, crc(log + opening), st);
  }

  // ---- Replaying a torn transaction ----

  /** Replay committed nothing new and noticed that something is missing. */
  predicate Torn(before: State, after: State) {
    && after.committed == before.committed && after.sequence == before.sequence
    && (after.inTxn || before.diagnostics < after.diagnostics)
  }

  lemma ReplayTornRecord(crc: Checksum, done: seq<byte>, r: Record, cut: nat, st: State)
    requires Fits(r) && 0 < cut < |Encode(crc, r)|
    ensures var b := Encode(crc, r)[..cut];
      || (exists e :: Replay(crc, done, b, st) == Diagnosed(st, Undecodable(e)))
      || (|r.payload| % 8 != 0 && var (stop, st') := Step(crc, done, st, r);
           Replay(crc, done, b, st) == st')
  {
    hide Encode, Decode, Step;
    var b := Encode(crc, r)[..cut];
    if cut < HEADER_SIZE + |r.payload| {
      TornRecordRejected(crc, r, cut);
      assert Replay(crc, done, b, st) == Diagnosed(st, Undecodable(Decode(crc, b).error));
    } else {
      TornPaddingAccepted(crc, r, cut);
      assert b[cut..] == [];
    }
  }

  /** Inside a transaction, data records and a final unfinished commit leave it torn. */
  lemma {:induction false} ReplayTornBody(
      crc: Checksum, done: seq<byte>, rs: seq<Record>, commit: Record, cut: nat, st: State)
    requires st.inTxn && Plain(rs) && AllFit(rs) && |commit.payload| == 8
    requires cut < |EncodeAll(crc, rs) + Encode(crc, commit)|
    ensures Torn(st, Replay(crc, done, (EncodeAll(crc, rs) + Encode(crc, commit))[..cut], st))
    decreases |rs|
  {
    hide Encode, Decode, Replay, Size;
    var whole := EncodeAll(crc, rs) + Encode(crc, commit);
    if cut == 0 {
      assert whole[..cut] == [];
      ReplayNothing(crc, done, st);
    } else if rs == [] {
      assert whole == Encode(crc, commit);
      ReplayTornRecord(crc, done, commit, cut, st);
    } else {
      var r, e, tail := rs[0], Encode(crc, rs[0]), EncodeAll(crc, rs[1..]) + Encode(crc, commit);
      assert whole == e + tail;
      if cut < |e| {
        assert whole[..cut] == e[..cut];
        ReplayTornRecord(crc, done, r, cut, st);
      } else {
        assert whole[..cut] == e + tail[..cut - |e|];
        ReplayRecord(crc, done, r, tail[..cut - |e|], st);
        ReplayTornBody(crc, done + e, rs[1..], commit, cut - |e|, st.(staged := st.staged + [r]));
      }
    }
  }

  /** A transaction cut anywhere before its last byte commits nothing; a non-empty piece is noticed. */
  lemma ReplayTornTail(crc: Checksum, log: seq<byte>, t: Txn, cut: nat, st: State)
    requires Encodable(t) && Plain(t.records) && 0 < cut < |Tail(crc, log, t)|
    ensures Torn(st, Replay(crc, log, Tail(crc, log, t)[..cut], st))
  {
    hide Encode, Decode, Le, ReadAt, EncodeAll;
    var rs, e := Stamped(t.records, t.id), Encode(crc, Begin(t));
    var commit := Commit(crc, t, log + EncodeAll(crc, Opening(t)));
    TailSplit(crc, log, t);
    StampedKeeps(t.records, t.id);
    var body := EncodeAll(crc, rs) + Encode(crc, commit);
    if cut < |e| {
      assert (e + body)[..cut] == e[..cut];
      CountRead(|t.records|);
      ReplayTornRecord(crc, log, Begin(t), cut, st);
    } else {
      assert (e + body)[..cut] == e + body[..cut - |e|];
      ReplayBegin(crc, log, t, |t.records|, body[..cut - |e|], st);
      var st1 := st.(inTxn := true, txnId := t.id, declared := |t.records|, staged := []);
      ReplayTornBody(crc, log + e, rs, commit, cut - |e|, st1);
    }
  }

  // ---- What is in the bytes ----

  /** The records found one after the other, as far as they decode. */
  function DecodeAll(crc: Checksum, b: seq<byte>): seq<Record>
    decreases |b|
  {
    if b == [] then [] else
    match Decode(crc, b)
    case Rejected(_) => []
    case Accepted(r, n) => [r] + DecodeAll(crc, b[n..])
  }

  lemma {:induction false} RecordsRoundTrip(crc: Checksum, rs: seq<Record>)
    requires AllFit(rs)
    ensures DecodeAll(crc, EncodeAll(crc, rs)) == rs
    decreases |rs|
  {
    hide Encode, Decode, Size;
    if rs != [] {
      var e, rest := Encode(crc, rs[0]), EncodeAll(crc, rs[1..]);
      RecordRoundTrip(crc, rs[0], rest);
      assert (e + rest)[|e|..] == rest;
      RecordsRoundTrip(crc, rs[1..]);
    }
  }

  /**
    What a transaction adds to a log decodes to its begin record, with its id, base sequence and count, its
    records under its id, and its commit, with its id, its new sequence and the checksum of all before it.
   */
  lemma TailDecodes(crc: Checksum, log: seq<byte>, t: Txn)
    requires Encodable(t)
    ensures var opening := EncodeAll(crc, Opening(t));
      DecodeAll(crc, Tail(crc, log, t)) ==
        [Record(TXN_BEGIN, t.id, t.baseSequence, 0, Le(|t.records|, 8))] + Stamped(t.records, t.id)
        + [Record(TXN_COMMIT, t.id, 0, t.newSequence, Le(crc(log + opening), 8))]
  {
    hide Encode, Le, EncodeAll, Size;
    var opening := EncodeAll(crc, Opening(t));
    var commit := Commit(crc, t, log + opening);
    var all := Opening(t) + [commit];
    EncodeAllAppend(crc, Opening(t), [commit]);
    SingleEncoded(crc, commit);
    StampedKeeps(t.records, t.id);
    assert AllFit(all) by {
      forall i | 0 <= i < |all|
        ensures Fits(all[i])
      {
        if 0 < i < |all| - 1 {
          assert all[i] == Stamped(t.records, t.id)[i - 1];
        }
      }
    }
    RecordsRoundTrip(crc, all);
  }

  lemma SingleEncoded(crc: Checksum, r: Record)
    ensures EncodeAll(crc, [r]) == Encode(crc, r)
  {
    hide Encode;
    assert EncodeAll(crc, [r]) == Encode(crc, r) + EncodeAll(crc, []);
  }
}
