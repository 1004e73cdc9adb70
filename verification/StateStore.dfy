/**
  The state store over an abstract disk of two files, the log and the checkpoint.

  Replacing a file is one atomic step; an append may stop after any number of bytes.
 */
module StateStore {
  import opened Words
  import opened Crc
  import opened Envelope
  import opened StateCodec
  import opened Recovery
  import opened Transactions
  import opened Compaction

  datatype Disk = Disk(log: seq<byte>, checkpoint: seq<byte>)

  function Prefix<T>(s: seq<T>, n: nat): seq<T> {
    if n < |s| then s[..n] else s
  }

  /**
    The log after a call of the writer of whose tail `reach` bytes get to the disk: the log is
    repaired first, and stays repaired when the records are refused.
   */
  function AppendTo(crc: Checksum, log: seq<byte>, t: Txn, reach: nat): seq<byte> {
    match CleanLog(crc, log)
    case None => log
    case Some(clean) => if Plain(t.records) then clean + Prefix(Tail(crc, clean, t), reach) else clean
  }

  function CheckpointTxn(sequence: u64, payload: seq<byte>): Txn {
    Txn(COMPACTION_TXN, 0, sequence, [Record(CHECKPOINT, 0, 0, 0, payload)])
  }

  function CheckpointFile(crc: Checksum, sequence: u64, payload: seq<byte>): seq<byte> {
    Tail(crc, [], CheckpointTxn(sequence, payload))
  }

  function RecoverDisk(crc: Checksum, d: Disk): Recovered {
    var base, tail := Recover(crc, d.checkpoint), Recover(crc, d.log);
    Recovered(if tail.committed != [] then tail.sequence else base.sequence,
              base.committed + tail.committed, base.diagnostics + tail.diagnostics)
  }

  /** On any disk, what the checkpoint gives comes before what the log gives, diagnostics included. */
  lemma CheckpointComesFirst(crc: Checksum, d: Disk)
    ensures var base, tail, r := Recover(crc, d.checkpoint), Recover(crc, d.log), RecoverDisk(crc, d);
      && base.committed <= r.committed && r.committed[|base.committed|..] == tail.committed
      && base.diagnostics <= r.diagnostics && r.diagnostics[|base.diagnostics|..] == tail.diagnostics
  {
    hide Recover;
  }

  // ---- The classes ----

  class AppendLog {
    const crc: Checksum
    var bytes: seq<byte>

    constructor (crc: Checksum)
      ensures this.crc == crc && bytes == []
    {
      this.crc := crc;
      bytes := [];
    }

    method ReplaceBytes(b: seq<byte>)
      modifies this
      ensures bytes == b
    {
      bytes := b;
    }

    method Append(r: Record)
      modifies this
      ensures bytes == old(bytes) + Encode(crc, r)
    {
      var encoded := EncodeRecord(crc, r);
      bytes := bytes + encoded;
    }

    method BeginTxn(id: u64, baseSequence: u64, count: nat)
      modifies this
      ensures bytes == old(bytes) + Encode(crc, Record(TXN_BEGIN, id, baseSequence, 0, Le(count, 8)))
    {
      var payload := AppendLe([], count, 8);
      assert payload == Le(count, 8);
      Append(Record(TXN_BEGIN, id, baseSequence, 0, payload));
    }

    method CommitTxn(id: u64, newSequence: u64)
      modifies this
      ensures bytes == old(bytes) + Encode(crc, Record(TXN_COMMIT, id, 0, newSequence, Le(crc(old(bytes)), 8)))
    {
      var payload := AppendLe([], crc(bytes), 8);
      assert payload == Le(crc(bytes), 8);
      Append(Record(TXN_COMMIT, id, 0, newSequence, payload));
    }

    /** The begin record, the stamped records and the commit; stops at a control record. */
    method WriteTransaction(t: Txn) returns (ok: bool)
      modifies this
      ensures ok <==> Plain(t.records)
      ensures ok ==> bytes == old(bytes) + Tail(crc, old(bytes), t)
    {
      hide Encode, Le, EncodeAll, Size, Padded, IsControl, Tail;
      BeginTxn(t.id, t.baseSequence, |t.records|);
      SingleEncoded(crc, Begin(t));
      ghost var before := old(bytes);
      ghost var all := Opening(t);
      assert all[..1] == [Begin(t)];
      for i := 0 to |t.records|
        invariant Plain(t.records[..i])
        invariant bytes == before + EncodeAll(crc, all[..i + 1])
      {
        var record := t.records[i];
        if IsControl(record) {
          return false;
        }
        record := record.(txnId := t.id);
        assert record == all[i + 1];
        NextEncoded(crc, before, all, i + 1);
        assert t.records[..i + 1] == t.records[..i] + [t.records[i]];
        Append(record);
      }
      assert t.records[..|t.records|] == t.records && all[..|t.records| + 1] == all;
      CommitTail(crc, before, t);
      CommitTxn(t.id, t.newSequence);
      ok := true;
    }
  }

  lemma CommitTail(crc: Checksum, before: seq<byte>, t: Txn)
    ensures var done := before + EncodeAll(crc, Opening(t));
      done + Encode(crc, Record(TXN_COMMIT, t.id, 0, t.newSequence, Le(crc(done), 8))) == before + Tail(crc, before, t)
  {
    hide Encode, EncodeAll, Le, Size;
  }

  lemma NextEncoded(crc: Checksum, before: seq<byte>, rs: seq<Record>, i: nat)
    requires i < |rs|
    ensures before + EncodeAll(crc, rs[..i]) + Encode(crc, rs[i]) == before + EncodeAll(crc, rs[..i + 1])
  {
    hide Encode, EncodeAll;
    EncodeAllAppend(crc, rs[..i], [rs[i]]);
    SingleEncoded(crc, rs[i]);
    assert rs[..i + 1] == rs[..i] + [rs[i]];
  }

  class FileStateStore {
    const crc: Checksum
    var log: seq<byte>
    var checkpoint: seq<byte>

    constructor (crc: Checksum, disk: Disk)
      ensures this.crc == crc && Contents() == disk
    {
      this.crc := crc;
      log, checkpoint := disk.log, disk.checkpoint;
    }

    ghost function Contents(): Disk
      reads this
    {
      Disk(log, checkpoint)
    }

    method CleanLogBytes(bytes: seq<byte>) returns (clean: Option<seq<byte>>)
      ensures clean == CleanLog(crc, bytes)
    {
      hide Tail, Recover;
      if bytes == [] {
        return Some([]);
      }
      var recovered := RecoverLog(crc, bytes);
      if recovered.diagnostics == [] {
        return Some(bytes);
      }
      if recovered.committed == [] {
        return Some([]);
      }
      var local := new AppendLog(crc);
      var ok := local.WriteTransaction(Compacted(recovered));
      assert [] + Tail(crc, [], Compacted(recovered)) == Tail(crc, [], Compacted(recovered));
      clean := if ok then Some(local.bytes) else None;
    }

    /**
      Repairs the log, then appends the transaction. Only sizes are compared before the repair is
      written, and the commit digest is computed over the repaired bytes in memory: the new log is
      nevertheless the tail for exactly what is on disk. The process may stop when `reach` bytes of
      the tail are written.
     */
    method AppendTransaction(t: Txn, reach: nat) returns (ok: bool)
      modifies this
      ensures checkpoint == old(checkpoint)
      ensures log == AppendTo(crc, old(log), t, reach)
      ensures ok <==> CleanLog(crc, old(log)).Some? && Plain(t.records)
    {
      hide CleanLog, Tail;
      var clean := CleanLogBytes(log);
      if clean.None? {
        return false;
      }
      RepairShrinks(crc, log);
      if |clean.value| != |log| {
        log := clean.value;
      }
      var memory := new AppendLog(crc);
      memory.ReplaceBytes(clean.value);
      ok := memory.WriteTransaction(t);
      if ok {
        var tail := memory.bytes[|clean.value|..];
        assert tail == Tail(crc, clean.value, t);
        log := log + Prefix(tail, reach);
      }
    }

    /** Publishes the checkpoint, then empties the log; the process may stop in between. */
    method WriteCheckpoint(sequence: u64, payload: seq<byte>, crashBetween: bool)
      modifies this
      ensures checkpoint == CheckpointFile(crc, sequence, payload)
      ensures log == if crashBetween then old(log) else []
    {
      hide Tail;
      var local := new AppendLog(crc);
      var ok := local.WriteTransaction(CheckpointTxn(sequence, payload));
      assert [] + CheckpointFile(crc, sequence, payload) == CheckpointFile(crc, sequence, payload);
      checkpoint := local.bytes;
      if !crashBetween {
        log := [];
      }
    }

    method RecoverStore() returns (result: Recovered)
      ensures result == RecoverDisk(crc, Contents())
    {
      ReplayNothing(crc, [], INITIAL);
      result := Recovered(0, [], []);
      if checkpoint != [] {
        var base := RecoverLog(crc, checkpoint);
        result := base;
      }
      if log != [] {
        var tail := RecoverLog(crc, log);
        result := Recovered(if tail.committed != [] then tail.sequence else result.sequence,
                            result.committed + tail.committed, result.diagnostics + tail.diagnostics);
      }
    }
  }

  /** A checkpoint file holds one transaction with the checkpoint record, from base sequence 0. */
  lemma CheckpointDecodes(crc: Checksum, sequence: u64, payload: seq<byte>)
    requires Encodable(CheckpointTxn(sequence, payload))
    ensures var opening := EncodeAll(crc, Opening(CheckpointTxn(sequence, payload)));
      DecodeAll(crc, CheckpointFile(crc, sequence, payload)) == [
        Record(TXN_BEGIN, 0xc0_ffee, 0, 0, Le(1, 8)),
        Record(CHECKPOINT, 0xc0_ffee, 0, 0, payload),
        Record(TXN_COMMIT, 0xc0_ffee, 0, sequence, Le(crc(opening), 8))]
  {
    hide EncodeAll, Tail, DecodeAll, Le;
    var t := CheckpointTxn(sequence, payload);
    TailDecodes(crc, [], t);
    assert [] + EncodeAll(crc, Opening(t)) == EncodeAll(crc, Opening(t));
    assert Stamped(t.records, t.id) == [Record(CHECKPOINT, 0xc0_ffee, 0, 0, payload)];
  }

  /** The digest of a completed transaction covers every byte before its commit record on disk. */
  lemma CommitCoversDisk(crc: Checksum, log: seq<byte>, t: Txn, reach: nat)
    requires CleanLog(crc, log).Some? && Plain(t.records) && TailSize(t) <= reach
    ensures var after := AppendTo(crc, log, t, reach);
      && |after| >= 48
      && var before := after[..|after| - 48]; after == before + Encode(crc, Commit(crc, t, before))
  {
    hide CleanLog, Encode, EncodeAll, Le;
    var clean := CleanLog(crc, log).value;
    var before := clean + EncodeAll(crc, Opening(t));
    var after := AppendTo(crc, log, t, reach);
    assert after == before + Encode(crc, Commit(crc, t, before));
    assert |Encode(crc, Commit(crc, t, before))| == 48;
    assert after[..|after| - 48] == before;
  }
}
