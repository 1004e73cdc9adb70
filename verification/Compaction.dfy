/**
  Repair of a damaged log: what `clean_log_bytes` returns, and why comparing sizes is
  enough to tell that it changed something.
 */
module Compaction {
  import opened Words
  import opened Crc
  import opened Envelope
  import opened StateCodec
  import opened Recovery
  import opened Transactions

  const COMPACTION_TXN: u64 := 0xc0_ffee

  /** A log holding this one transaction; control records among the data are refused. */
  function EncodeTransaction(crc: Checksum, t: Txn): Option<seq<byte>> {
    if Plain(t.records) then Some(Tail(crc, [], t)) else None
  }

  function Compacted(r: Recovered): Txn {
    Txn(COMPACTION_TXN, 0, r.sequence, r.committed)
  }

  function CleanLog(crc: Checksum, log: seq<byte>): Option<seq<byte>> {
    var r := Recover(crc, log);
    if log == [] || r.diagnostics == [] then Some(log)
    else if r.committed == [] then Some([])
    else EncodeTransaction(crc, Compacted(r))
  }

  // ---- Size ----

  /** Bytes that must have been read to reach this state, leaving out an open transaction. */
  function Weight(st: State): nat {
    (if st.committed == [] then 0 else 96 + Size(st.committed)) + (if st.diagnostics == [] then 0 else 1)
  }

  function Open(st: State): nat {
    if st.inTxn then 48 else 0
  }

  predicate Weighed(done: nat, rest: nat, st: State) {
    && Weight(st) + Open(st) <= done
    && (rest > 0 && st.inTxn ==> Weight(st) + 48 + Size(st.staged) <= done)
  }

  lemma PaddedAtLeast(n: nat)
    ensures n <= Padded(n) < n + 8
  {
  }

  lemma StepWeighed(crc: Checksum, done: seq<byte>, rest: nat, st: State, r: Record, n: nat)
    requires Weighed(|done|, rest, st) && HEADER_SIZE + |r.payload| <= rest
    requires n == Consumed(rest, HEADER_SIZE + |r.payload|)
    ensures Weighed(|done| + n, rest - n, Step(crc, done, st, r).1)
  {
    hide Padded, Consumed, Size;
    PaddedAtLeast(HEADER_SIZE + |r.payload|);
    SizeAppend(st.committed, st.staged);
    SizeAppend(st.staged, [r]);
    SingleSize(r);
    assert Size([]) == 0 by { NoSize(); }
  }

  lemma SingleSize(r: Record)
    ensures Size([r]) == Padded(HEADER_SIZE + |r.payload|)
  {
    assert Size([r]) == Padded(HEADER_SIZE + |r.payload|) + Size([]);
  }

  lemma NoSize()
    ensures Size([]) == 0
  {
  }

  lemma {:induction false} ReplayWeighed(crc: Checksum, done: seq<byte>, rest: seq<byte>, st: State)
    requires Weighed(|done|, |rest|, st)
    ensures var st' := Replay(crc, done, rest, st); Weight(st') + Open(st') <= |done| + |rest|
    decreases |rest|
  {
    hide Decode, Step, Padded, Consumed;
    if rest != [] && Decode(crc, rest).Accepted? {
      var Accepted(r, n) := Decode(crc, rest);
      StepWeighed(crc, done, |rest|, st, r, n);
      var (stop, st') := Step(crc, done, st, r);
      if !stop {
        ReplayWeighed(crc, done + rest[..n], rest[n..], st');
      }
    }
  }

  /**
    Whatever bytes recovery diagnoses, repair returns strictly fewer; so a repair of the same
    size is no repair, and comparing sizes detects every change.
   */
  lemma RepairShrinks(crc: Checksum, log: seq<byte>)
    requires CleanLog(crc, log).Some?
    ensures Recover(crc, log).diagnostics != [] ==> |CleanLog(crc, log).value| < |log|
    ensures |CleanLog(crc, log).value| == |log| <==> CleanLog(crc, log).value == log
  {
    hide Decode, Step, Replay;
    ReplayWeighed(crc, [], log, INITIAL);
    var r := Recover(crc, log);
    if r.diagnostics != [] {
      assert log != [] by { assert Replay(crc, [], [], INITIAL) == INITIAL by { ReplayNothing(crc, [], INITIAL); } }
      CompactedSize(r);
    }
  }

  /** A rewritten log holds one transaction: the committed records under the compaction id, from base sequence 0. */
  lemma RepairDecodes(crc: Checksum, log: seq<byte>)
    requires log != [] && Recover(crc, log).diagnostics != [] && Recover(crc, log).committed != []
    requires CleanLog(crc, log).Some? && Encodable(Compacted(Recover(crc, log)))
    ensures var r := Recover(crc, log);
      var opening := EncodeAll(crc, Opening(Compacted(r)));
      DecodeAll(crc, CleanLog(crc, log).value) ==
        [Record(TXN_BEGIN, 0xc0_ffee, 0, 0, Le(|r.committed|, 8))] + Stamped(r.committed, 0xc0_ffee)
        + [Record(TXN_COMMIT, 0xc0_ffee, 0, r.sequence, Le(crc(opening), 8))]
  {
    hide Recover, EncodeAll, Tail, DecodeAll, Le;
    var t := Compacted(Recover(crc, log));
    TailDecodes(crc, [], t);
    assert [] + EncodeAll(crc, Opening(t)) == EncodeAll(crc, Opening(t));
  }

  lemma StampedSize(rs: seq<Record>, id: u64)
    ensures Size(Stamped(rs, id)) == Size(rs)
  {
    if rs != [] {
      StampedSize(rs[1..], id);
      assert Stamped(rs, id)[1..] == Stamped(rs[1..], id);
    }
  }

  lemma CompactedSize(r: Recovered)
    ensures TailSize(Compacted(r)) == 96 + Size(r.committed)
  {
    var t := Compacted(r);
    StampedSize(t.records, t.id);
    assert Opening(t)[0] == Begin(t) && Opening(t)[1..] == Stamped(t.records, t.id);
  }
}
