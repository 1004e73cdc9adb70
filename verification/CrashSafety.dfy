/**
  Whole runs of the state store with a crash possible inside every call, and what recovery
  returns after them.
 */
module CrashSafety {
  import opened Words
  import opened Crc
  import opened StateCodec
  import opened Recovery
  import opened Transactions
  import opened Compaction
  import opened StateStore

  /** A call of the store, with the point where the process stops, if it does. */
  datatype Op =
    | Append(t: Txn, reach: nat)
    | WriteCheckpoint(sequence: u64, payload: seq<byte>, crashBetween: bool)

  function Exec(crc: Checksum, d: Disk, op: Op): Disk {
    match op
    case Append(t, reach) => Disk(AppendTo(crc, d.log, t, reach), d.checkpoint)
    case WriteCheckpoint(s, p, crash) => Disk(if crash then d.log else [], CheckpointFile(crc, s, p))
  }

  function Run(crc: Checksum, d: Disk, ops: seq<Op>): Disk
    decreases |ops|
  {
    if ops == [] then d else Run(crc, Exec(crc, d, ops[0]), ops[1..])
  }

  // ---- The abstract machine: no bytes, no checksums ----

  /** What a file stands for: committed records, sequence, and whether a torn piece follows them. */
  datatype History = History(records: seq<Record>, sequence: u64, torn: bool)

  datatype Store = Store(base: History, tail: History)

  const EMPTY := History([], 0, false)

  /** Repair keeps the records under the compaction id; with no records it forgets the sequence. */
  function Repaired(h: History): History {
    if !h.torn then h
    else if h.records == [] then EMPTY
    else History(Stamped(h.records, COMPACTION_TXN), h.sequence, false)
  }

  function Appended(h: History, t: Txn, reach: nat): History {
    var clean := Repaired(h);
    if !Plain(t.records) || reach == 0 then clean
    else if reach < TailSize(t) then clean.(torn := true)
    else History(clean.records + Stamped(t.records, t.id), t.newSequence, false)
  }

  function Next(s: Store, op: Op): Store {
    match op
    case Append(t, reach) => s.(tail := Appended(s.tail, t, reach))
    case WriteCheckpoint(n, p, crash) =>
      Store(History(Stamped(CheckpointTxn(n, p).records, COMPACTION_TXN), n, false), if crash then s.tail else EMPTY)
  }

  function RunStore(s: Store, ops: seq<Op>): Store
    decreases |ops|
  {
    if ops == [] then s else RunStore(Next(s, ops[0]), ops[1..])
  }

  /** Payload lengths fit 32 bits and record counts 64 bits, as the memory of any machine makes sure. */
  predicate Runnable(s: Store, ops: seq<Op>)
    decreases |ops|
  {
    ops == [] ||
    (&& (match ops[0]
         case Append(t, _) => Encodable(t) && |s.tail.records| <= MAX_U64
         case WriteCheckpoint(n, p, _) => Encodable(CheckpointTxn(n, p)))
     && Runnable(Next(s, ops[0]), ops[1..]))
  }

  // ---- Refinement ----

  function HistoryOf(crc: Checksum, file: seq<byte>): History {
    var r := Recover(crc, file);
    History(r.committed, r.sequence, r.diagnostics != [])
  }

  /** A file an append can be trusted on: whole eight-byte units or visibly torn, and data records only. */
  predicate Sound(crc: Checksum, file: seq<byte>) {
    && Plain(Recover(crc, file).committed)
    && (|file| % 8 == 0 || Recover(crc, file).diagnostics != [])
  }

  lemma {:induction false} CommittedFits(crc: Checksum, done: seq<byte>, rest: seq<byte>, st: State)
    requires AllFit(st.staged) && AllFit(st.committed)
    ensures AllFit(Replay(crc, done, rest, st).committed)
    decreases |rest|
  {
    hide Decode, Fits;
    if rest != [] && Decode(crc, rest).Accepted? {
      var Accepted(r, n) := Decode(crc, rest);
      var (stop, st') := Step(crc, done, st, r);
      if !stop {
        CommittedFits(crc, done + rest[..n], rest[n..], st');
      }
    }
  }

  lemma {:induction false} SizeIsAligned(rs: seq<Record>)
    ensures Size(rs) % 8 == 0
  {
    if rs != [] {
      SizeIsAligned(rs[1..]);
    }
  }

  lemma PlainAppend(rs: seq<Record>, qs: seq<Record>)
    requires Plain(rs) && Plain(qs)
    ensures Plain(rs + qs)
  {
  }

  /** A clean log replays without a diagnostic and outside any transaction. */
  predicate Clean(crc: Checksum, log: seq<byte>) {
    && |log| % 8 == 0
    && var st := Replay(crc, [], log, INITIAL); !st.inTxn && st.diagnostics == []
  }

  /** A transaction written to a clean log, as far as it gets. */
  lemma AppendToClean(crc: Checksum, log: seq<byte>, t: Txn, reach: nat)
    requires Clean(crc, log) && Encodable(t) && Plain(t.records)
    requires Plain(Recover(crc, log).committed)
    ensures var after := log + Prefix(Tail(crc, log, t), reach);
      && HistoryOf(crc, after) == Appended(HistoryOf(crc, log), t, reach)
      && Sound(crc, after)
      && (TailSize(t) <= reach ==> Clean(crc, after))
  {
    hide Replay, Decode, Tail, EncodeAll, Encode;
    var tail := Tail(crc, log, t);
    var piece := Prefix(tail, reach);
    var st := Replay(crc, [], log, INITIAL);
    ReplayResumes(crc, [], log, piece, INITIAL);
    assert [] + log == log;
    SizeIsAligned(Opening(t));
    if TailSize(t) <= reach {
      ReplayTransaction(crc, log, t, st);
      StampedKeeps(t.records, t.id);
      PlainAppend(st.committed, Stamped(t.records, t.id));
    } else if reach == 0 {
      ReplayNothing(crc, log, st);
      assert log + piece == log;
    } else {
      ReplayTornTail(crc, log, t, reach, st);
    }
  }

  lemma RepairIsClean(crc: Checksum, log: seq<byte>)
    requires Sound(crc, log) && |Recover(crc, log).committed| <= MAX_U64
    ensures CleanLog(crc, log).Some?
    ensures var clean := CleanLog(crc, log).value;
      && Clean(crc, clean) && Plain(Recover(crc, clean).committed)
      && HistoryOf(crc, clean) == Repaired(HistoryOf(crc, log))
  {
    hide Replay, Decode, Tail;
    var r := Recover(crc, log);
    ReplayNothing(crc, [], INITIAL);
    if log != [] && r.diagnostics != [] && r.committed != [] {
      var t := Compacted(r);
      CommittedFits(crc, [], log, INITIAL);
      assert Clean(crc, []);
      AppendToClean(crc, [], t, TailSize(t));
      assert [] + Prefix(Tail(crc, [], t), TailSize(t)) == Tail(crc, [], t);
      assert [] + Stamped(t.records, t.id) == Stamped(t.records, t.id);
    }
  }

  /** One call of the writer does to the bytes what the abstract machine does to the history. */
  lemma AppendRefines(crc: Checksum, log: seq<byte>, t: Txn, reach: nat)
    requires Sound(crc, log) && Encodable(t) && |Recover(crc, log).committed| <= MAX_U64
    ensures HistoryOf(crc, AppendTo(crc, log, t, reach)) == Appended(HistoryOf(crc, log), t, reach)
    ensures Sound(crc, AppendTo(crc, log, t, reach))
  {
    hide Replay, Decode, Tail, CleanLog, Recover;
    RepairIsClean(crc, log);
    var clean := CleanLog(crc, log).value;
    if Plain(t.records) {
      AppendToClean(crc, clean, t, reach);
    }
  }

  lemma CheckpointRefines(crc: Checksum, sequence: u64, payload: seq<byte>)
    requires Encodable(CheckpointTxn(sequence, payload))
    ensures var t := CheckpointTxn(sequence, payload);
      HistoryOf(crc, CheckpointFile(crc, sequence, payload))
        == History(Stamped(t.records, COMPACTION_TXN), sequence, false)
  {
    hide Replay, Decode, Tail;
    var t := CheckpointTxn(sequence, payload);
    ReplayNothing(crc, [], INITIAL);
    AppendToClean(crc, [], t, TailSize(t));
    assert [] + Prefix(Tail(crc, [], t), TailSize(t)) == Tail(crc, [], t);
    assert [] + Stamped(t.records, t.id) == Stamped(t.records, t.id);
  }

  function StoreOf(crc: Checksum, d: Disk): Store {
    Store(HistoryOf(crc, d.checkpoint), HistoryOf(crc, d.log))
  }

  /** Every run over every sound disk, crashing wherever it may, follows the abstract machine. */
  lemma {:induction false} RunRefines(crc: Checksum, d: Disk, ops: seq<Op>)
    requires Sound(crc, d.log) && Runnable(StoreOf(crc, d), ops)
    ensures StoreOf(crc, Run(crc, d, ops)) == RunStore(StoreOf(crc, d), ops)
    ensures Sound(crc, Run(crc, d, ops).log)
    decreases |ops|
  {
    hide Recover, AppendTo, CheckpointFile, Appended;
    if ops != [] {
      match ops[0] {
        case Append(t, reach) =>
          AppendRefines(crc, d.log, t, reach);
        case WriteCheckpoint(n, p, crash) =>
          CheckpointRefines(crc, n, p);
          EmptyIsSound(crc);
      }
      RunRefines(crc, Exec(crc, d, ops[0]), ops[1..]);
    }
  }

  lemma EmptyIsSound(crc: Checksum)
    ensures HistoryOf(crc, []) == EMPTY && Sound(crc, [])
  {
    ReplayNothing(crc, [], INITIAL);
  }

  /** Recovery after any run is read off the abstract machine. */
  lemma RecoverAfterRun(crc: Checksum, d: Disk, ops: seq<Op>)
    requires Sound(crc, d.log) && Runnable(StoreOf(crc, d), ops)
    ensures var s, r := RunStore(StoreOf(crc, d), ops), RecoverDisk(crc, Run(crc, d, ops));
      && r.committed == s.base.records + s.tail.records
      && r.sequence == (if s.tail.records != [] then s.tail.sequence else s.base.sequence)
      && (r.diagnostics == [] <==> !s.base.torn && !s.tail.torn)
  {
    hide Recover, Run;
    RunRefines(crc, d, ops);
  }

  // ---- What that means for the caller ----

  predicate Completed(op: Op) {
    op.Append? && Plain(op.t.records) && TailSize(op.t) <= op.reach
  }

  predicate AppendsOnly(ops: seq<Op>) {
    forall i :: 0 <= i < |ops| ==> ops[i].Append?
  }

  /** The data records of the transactions whose commit record was fully written, in order. */
  function Data(ops: seq<Op>): seq<Record>
    decreases |ops|
  {
    if ops == [] then [] else (if Completed(ops[0]) then ops[0].t.records else []) + Data(ops[1..])
  }

  /** The sequence of the last such transaction. */
  function LastSequence(ops: seq<Op>, start: u64): u64
    decreases |ops|
  {
    if ops == [] then start
    else LastSequence(ops[1..], if Completed(ops[0]) then ops[0].t.newSequence else start)
  }

  /** Records up to the transaction id, which repair rewrites. */
  function Unstamped(rs: seq<Record>): seq<Record> {
    Stamped(rs, 0)
  }

  lemma UnstampedParts(rs: seq<Record>, qs: seq<Record>, id: u64)
    ensures Unstamped(rs + qs) == Unstamped(rs) + Unstamped(qs)
    ensures Unstamped(Stamped(rs, id)) == Unstamped(rs)
    ensures |Unstamped(rs)| == |rs|
  {
    var l, r := Unstamped(rs + qs), Unstamped(rs) + Unstamped(qs);
    assert |l| == |r| && forall i :: 0 <= i < |l| ==> l[i] == r[i];
    var u, v := Unstamped(Stamped(rs, id)), Unstamped(rs);
    assert |u| == |v| && forall i :: 0 <= i < |u| ==> u[i] == v[i];
  }

  lemma {:induction false} StartForgotten(ops: seq<Op>, a: u64, b: u64)
    requires Data(ops) != []
    ensures LastSequence(ops, a) == LastSequence(ops, b)
    decreases |ops|
  {
    if !Completed(ops[0]) {
      StartForgotten(ops[1..], a, b);
    }
  }

  lemma RepairedRecords(h: History)
    ensures var h' := Repaired(h);
      && Unstamped(h'.records) == Unstamped(h.records) && |h'.records| == |h.records|
      && (h.records != [] ==> h'.sequence == h.sequence)
  {
    hide Unstamped;
    UnstampedParts(h.records, [], COMPACTION_TXN);
  }

  /** What one call adds to the records, up to their transaction id, and what it leaves as the sequence. */
  lemma AppendedRecords(h: History, t: Txn, reach: nat)
    ensures var h' := Appended(h, t, reach);
      if Completed(Append(t, reach)) then
        Unstamped(h'.records) == Unstamped(h.records) + Unstamped(t.records) && h'.sequence == t.newSequence
      else
        && Unstamped(h'.records) == Unstamped(h.records) && |h'.records| == |h.records|
        && (h.records != [] ==> h'.sequence == h.sequence)
  {
    hide Unstamped, Repaired, Stamped, Size;
    RepairedRecords(h);
    UnstampedParts(Repaired(h).records, Stamped(t.records, t.id), 0);
    UnstampedParts(t.records, [], t.id);
  }

  lemma DataParts(op: Op, rest: seq<Op>)
    ensures Unstamped(Data([op] + rest)) ==
      (if Completed(op) then Unstamped(op.t.records) else []) + Unstamped(Data(rest))
  {
    hide Unstamped;
    assert ([op] + rest)[1..] == rest;
    UnstampedParts(if Completed(op) then op.t.records else [], Data(rest), 0);
    UnstampedParts([], [], 0);
  }

  /** Over any calls of the writer the records grow by exactly the data of the completed ones. */
  lemma {:induction false} AppendRun(s: Store, ops: seq<Op>)
    requires AppendsOnly(ops)
    ensures var s' := RunStore(s, ops);
      s'.base == s.base && Unstamped(s'.tail.records) == Unstamped(s.tail.records) + Unstamped(Data(ops))
    decreases |ops|
  {
    hide Unstamped, Appended, Completed;
    if ops == [] {
      UnstampedParts([], [], 0);
      assert Unstamped(s.tail.records) + [] == Unstamped(s.tail.records);
    } else {
      hide Data;
      var op, h, rest := ops[0], Unstamped(s.tail.records), Unstamped(Data(ops[1..]));
      var added := if Completed(op) then Unstamped(op.t.records) else [];
      AppendedRecords(s.tail, op.t, op.reach);
      AppendRun(Next(s, op), ops[1..]);
      assert ops == [op] + ops[1..];
      DataParts(op, ops[1..]);
      assert h + added + rest == h + (added + rest);
    }
  }

  /** And once there are records, the sequence is that of the last completed call. */
  lemma {:induction false} SequenceRun(s: Store, ops: seq<Op>)
    requires AppendsOnly(ops)
    ensures var s' := RunStore(s, ops);
      && (s'.tail.records == [] <==> s.tail.records == [] && Data(ops) == [])
      && (s'.tail.records != [] ==> s'.tail.sequence == LastSequence(ops, s.tail.sequence))
    decreases |ops|
  {
    hide Unstamped, Appended, Completed;
    if ops != [] {
      var op := ops[0];
      var h' := Appended(s.tail, op.t, op.reach);
      AppendedRecords(s.tail, op.t, op.reach);
      UnstampedParts(h'.records, [], 0);
      UnstampedParts(s.tail.records, [], 0);
      UnstampedParts(op.t.records, [], 0);
      SequenceRun(Next(s, op), ops[1..]);
      if !Completed(op) && s.tail.records == [] && Data(ops[1..]) != [] {
        StartForgotten(ops[1..], s.tail.sequence, h'.sequence);
      }
    }
  }

  /**
    Crash safety. Start with no files and make any calls of the writer, each completing or losing
    its tail at any byte: recovery returns, in order, exactly the data records of the transactions
    whose commit record was fully written. The sequence is that of the last of those if any of them
    had a record; otherwise `recover` ignores the log and answers zero.
   */
  lemma CrashSafe(crc: Checksum, ops: seq<Op>)
    requires AppendsOnly(ops) && Runnable(Store(EMPTY, EMPTY), ops)
    ensures var r := RecoverDisk(crc, Run(crc, Disk([], []), ops));
      && Unstamped(r.committed) == Unstamped(Data(ops))
      && r.sequence == (if Data(ops) != [] then LastSequence(ops, 0) else 0)
  {
    hide Run, RunStore, Recover, RecoverDisk, Runnable, Sound, HistoryOf, Unstamped, Data, LastSequence;
    EmptyIsSound(crc);
    RecoverAfterRun(crc, Disk([], []), ops);
    AppendRun(Store(EMPTY, EMPTY), ops);
    SequenceRun(Store(EMPTY, EMPTY), ops);
    UnstampedParts([], Data(ops), 0);
    var s := RunStore(Store(EMPTY, EMPTY), ops);
    assert [] + s.tail.records == s.tail.records;
    assert [] + Data(ops) == Data(ops);
  }

  /**
    A completed checkpoint on any disk, then any later calls of the writer: recovery returns the
    checkpoint record followed by exactly the later committed records.
   */
  lemma CheckpointThenAppends(crc: Checksum, d: Disk, sequence: u64, payload: seq<byte>, later: seq<Op>)
    requires AppendsOnly(later) && Encodable(CheckpointTxn(sequence, payload))
    requires Runnable(Next(StoreOf(crc, d), WriteCheckpoint(sequence, payload, false)), later)
    ensures var r := RecoverDisk(crc, Run(crc, d, [WriteCheckpoint(sequence, payload, false)] + later));
      && r.committed != []
      && r.committed[0] == Record(CHECKPOINT, COMPACTION_TXN, 0, 0, payload)
      && Unstamped(r.committed[1..]) == Unstamped(Data(later))
      && r.sequence == if Data(later) != [] then LastSequence(later, 0) else sequence
  {
    hide Recover, CheckpointFile, Unstamped;
    var op := WriteCheckpoint(sequence, payload, false);
    var d', s := Exec(crc, d, op), Next(StoreOf(crc, d), op);
    assert ([op] + later)[1..] == later;
    assert Run(crc, d, [op] + later) == Run(crc, d', later);
    CheckpointRefines(crc, sequence, payload);
    EmptyIsSound(crc);
    RecoverAfterRun(crc, d', later);
    AppendRun(s, later);
    SequenceRun(s, later);
    var s' := RunStore(s, later);
    UnstampedParts([], Data(later), 0);
    assert [] + Data(later) == Data(later);
    assert (s'.base.records + s'.tail.records)[1..] == s'.tail.records;
  }

  /** Stopped between its two file replacements, a checkpoint is recovered together with the whole old log. */
  lemma CheckpointInterrupted(crc: Checksum, d: Disk, sequence: u64, payload: seq<byte>)
    requires Encodable(CheckpointTxn(sequence, payload))
    ensures var was, r := Recover(crc, d.log), RecoverDisk(crc, Exec(crc, d, WriteCheckpoint(sequence, payload, true)));
      && r.committed == [Record(CHECKPOINT, COMPACTION_TXN, 0, 0, payload)] + was.committed
      && r.sequence == if was.committed != [] then was.sequence else sequence
  {
    hide Recover, CheckpointFile;
    CheckpointRefines(crc, sequence, payload);
  }

  /**
    On every log, whatever its bytes, the repair inside an append keeps the recovered sequence exactly
    when nothing is diagnosed, or there are committed records, or there was no sequence to lose.
   */
  lemma RepairKeepsSequence(crc: Checksum, log: seq<byte>, t: Txn)
    requires |Recover(crc, log).committed| <= MAX_U64
    ensures Recover(crc, AppendTo(crc, log, t, 0)).sequence == Recover(crc, log).sequence <==>
      var r := Recover(crc, log); r.diagnostics == [] || r.committed != [] || r.sequence == 0
  {
    hide Replay, Decode, Tail;
    var r := Recover(crc, log);
    ReplayNothing(crc, [], INITIAL);
    var clean := CleanLog(crc, log);
    if clean.Some? {
      assert clean.value + Prefix(Tail(crc, clean.value, t), 0) == clean.value;
      if log != [] && r.diagnostics != [] && r.committed != [] {
        CommittedFits(crc, [], log, INITIAL);
        ReplayTransaction(crc, [], Compacted(r), INITIAL);
      }
    }
  }

  /** A committed transaction without records, then a torn one: the repair of the next append forgets the sequence. */
  lemma SequenceForgotten(crc: Checksum, n: u64)
    ensures var t := Txn(1, 0, n, []);
      var whole := AppendTo(crc, [], t, 96);
      var torn := AppendTo(crc, whole, t, 1);
      && Recover(crc, whole) == Recovered(n, [], [])
      && Recover(crc, torn).sequence == n && Recover(crc, torn).diagnostics != []
      && Recover(crc, AppendTo(crc, torn, t, 0)).sequence == 0
  {
    hide Recover, AppendTo, Sound;
    var t := Txn(1, 0, n, []);
    var whole := AppendTo(crc, [], t, 96);
    var torn := AppendTo(crc, whole, t, 1);
    assert TailSize(t) == 96 by { assert Opening(t) == [Begin(t)] && Size([Begin(t)]) == 48 + Size([]); }
    EmptyIsSound(crc);
    AppendRefines(crc, [], t, 96);
    assert [] + Stamped(t.records, t.id) == [];
    AppendRefines(crc, whole, t, 1);
    AppendRefines(crc, torn, t, 0);
  }

  /** Even unrepaired, the log's sequence is not reported when nothing but a transaction without records is in it. */
  lemma SequenceUnreported(crc: Checksum, n: u64)
    ensures var ops := [Append(Txn(1, 0, n, []), 96)];
      LastSequence(ops, 0) == n && RecoverDisk(crc, Run(crc, Disk([], []), ops)).sequence == 0
  {
    hide Run, RunStore, Recover, RecoverDisk;
    var t := Txn(1, 0, n, []);
    var ops := [Append(t, 96)];
    assert TailSize(t) == 96 by { assert Opening(t) == [Begin(t)] && Size([Begin(t)]) == 48 + Size([]); }
    assert ops[1..] == [] && Completed(ops[0]);
    assert Data([]) == [] && LastSequence([], n) == n;
    assert Data(ops) == [];
    CrashSafe(crc, ops);
  }
}
