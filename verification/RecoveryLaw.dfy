/**
  What recovery commits, said without a state machine: over the list of records the bytes decode to, a
  transaction is published exactly when it is closed by a commit that agrees with its declared count
  and with the checksum of all the bytes before that commit.
 */
module RecoveryLaw {
  import opened Words
  import opened Crc
  import opened StateCodec
  import opened Recovery

  /** A decoded record and where it starts. */
  datatype Item = Item(offset: nat, record: Record)

  /** The records found one after the other from `offset` on, as far as they decode. */
  function Items(crc: Checksum, bytes: seq<byte>, offset: nat): seq<Item>
    requires offset <= |bytes|
    decreases |bytes| - offset
  {
    if offset == |bytes| then [] else
    match Decode(crc, bytes[offset..])
    case Rejected(_) => []
    case Accepted(r, n) => [Item(offset, r)] + Items(crc, bytes, offset + n)
  }

  /** What is wrong where they stop, if anything. */
  function EndFault(crc: Checksum, bytes: seq<byte>, offset: nat): seq<Diagnostic>
    requires offset <= |bytes|
    decreases |bytes| - offset
  {
    if offset == |bytes| then [] else
    match Decode(crc, bytes[offset..])
    case Rejected(e) => [Undecodable(e)]
    case Accepted(_, n) => EndFault(crc, bytes, offset + n)
  }

  predicate IsBegin(x: Item) {
    x.record.kind == TXN_BEGIN
  }

  predicate IsCommitOf(x: Item, begin: Item) {
    x.record.kind == TXN_COMMIT && x.record.txnId == begin.record.txnId
  }

  /** The count of a begin record, the digest of a commit. */
  function Word(x: Item): Option<nat> {
    ReadAt(x.record.payload, 0, 8)
  }

  /** Before item `j`, item `i` is the begin record of an open transaction. */
  ghost predicate InForce(items: seq<Item>, i: nat, j: nat) {
    && i < j <= |items| && IsBegin(items[i])
    && forall k :: i < k < j ==> !IsBegin(items[k]) && !IsCommitOf(items[k], items[i])
  }

  ghost predicate Closes(items: seq<Item>, i: nat, j: nat) {
    j < |items| && InForce(items, i, j) && IsCommitOf(items[j], items[i])
  }

  ghost predicate Closing(items: seq<Item>, j: nat) {
    exists i: nat :: Closes(items, i, j)
  }

  /** Item `j` commits the transaction begun by item `i`: count and digest agree. */
  ghost predicate Sealed(crc: Checksum, bytes: seq<byte>, items: seq<Item>, i: nat, j: nat) {
    && Closes(items, i, j) && Word(items[i]) == Some(j - i - 1)
    && items[j].offset <= |bytes| && Word(items[j]).Some?
    && Word(items[j]).value % 0x1_0000_0000 == crc(bytes[..items[j].offset])
  }

  ghost predicate Commits(crc: Checksum, bytes: seq<byte>, items: seq<Item>, j: nat) {
    exists i: nat :: Sealed(crc, bytes, items, i, j)
  }

  /** A begin record or a closing commit too short for its word ends the replay. */
  ghost predicate Halts(items: seq<Item>, j: nat) {
    j < |items| && Word(items[j]).None? && (IsBegin(items[j]) || Closing(items, j))
  }

  function Records(items: seq<Item>, from: nat, to: nat): (rs: seq<Record>)
    requires from <= to <= |items|
    ensures |rs| == to - from
  {
    seq(to - from, n requires 0 <= n < to - from => items[from + n].record)
  }

  /** What item `j` publishes. */
  ghost function Block(crc: Checksum, bytes: seq<byte>, items: seq<Item>, j: nat): seq<Record> {
    if !Commits(crc, bytes, items, j) then [] else
    var i: nat :| Sealed(crc, bytes, items, i, j);
    Records(items, i + 1, j)
  }

  /** What the first `k` items publish, in order. */
  ghost function Published(crc: Checksum, bytes: seq<byte>, items: seq<Item>, k: nat): seq<Record> {
    if k == 0 then [] else Published(crc, bytes, items, k - 1) + Block(crc, bytes, items, k - 1)
  }

  /** The sequence of the last commit among the first `k` items. */
  ghost function SequenceAt(crc: Checksum, bytes: seq<byte>, items: seq<Item>, k: nat): u64
    requires k <= |items|
  {
    if k == 0 then 0
    else if Commits(crc, bytes, items, k - 1) then items[k - 1].record.newSequence
    else SequenceAt(crc, bytes, items, k - 1)
  }

  /** What is wrong with a closing commit that does not publish. */
  ghost function FaultAt(crc: Checksum, bytes: seq<byte>, items: seq<Item>, j: nat): seq<Diagnostic>
  {
    if !Closing(items, j) || Commits(crc, bytes, items, j) then [] else
    var i: nat :| Closes(items, i, j);
    if Word(items[i]) != Some(j - i - 1) then [CountMismatch] else [DigestMismatch]
  }

  ghost function Faults(crc: Checksum, bytes: seq<byte>, items: seq<Item>, k: nat): seq<Diagnostic> {
    if k == 0 then [] else Faults(crc, bytes, items, k - 1) + FaultAt(crc, bytes, items, k - 1)
  }

  // ---- The state machine against the law ----

  lemma InForceUnique(items: seq<Item>, i: nat, l: nat, j: nat)
    requires InForce(items, i, j) && InForce(items, l, j)
    ensures i == l
  {
  }

  lemma InForceNext(items: seq<Item>, i: nat, j: nat)
    requires j < |items|
    ensures InForce(items, i, j + 1) <==>
      if IsBegin(items[j]) then i == j else InForce(items, i, j) && !IsCommitOf(items[j], items[i])
  {
  }

  lemma BlockIs(crc: Checksum, bytes: seq<byte>, items: seq<Item>, i: nat, j: nat)
    requires Closes(items, i, j)
    ensures Commits(crc, bytes, items, j) <==> Sealed(crc, bytes, items, i, j)
    ensures Sealed(crc, bytes, items, i, j) ==> Block(crc, bytes, items, j) == Records(items, i + 1, j)
    ensures FaultAt(crc, bytes, items, j) ==
      if Sealed(crc, bytes, items, i, j) then []
      else if Word(items[i]) != Some(j - i - 1) then [CountMismatch]
      else [DigestMismatch]
  {
    hide Word;
    forall l: nat | Closes(items, l, j)
      ensures l == i
    {
      InForceUnique(items, i, l, j);
    }
  }

  /** Item `i` is in force before item `k`, and the state holds its id, its count and the records since. */
  ghost predicate Holds(items: seq<Item>, i: nat, k: nat, st: State) {
    && InForce(items, i, k)
    && st.txnId == items[i].record.txnId && Word(items[i]) == Some(st.declared) && st.staged == Records(items, i + 1, k)
  }

  ghost predicate Idle(items: seq<Item>, k: nat) {
    forall i: nat :: !InForce(items, i, k)
  }

  ghost predicate Ongoing(items: seq<Item>, k: nat, st: State) {
    if st.inTxn then exists i: nat :: Holds(items, i, k, st) else Idle(items, k)
  }

  ghost predicate Booked(crc: Checksum, bytes: seq<byte>, items: seq<Item>, k: nat, st: State) {
    && k <= |items|
    && st.committed == Published(crc, bytes, items, k)
    && st.sequence == SequenceAt(crc, bytes, items, k)
    && st.diagnostics == Faults(crc, bytes, items, k)
  }

  lemma PlainBooked(crc: Checksum, bytes: seq<byte>, items: seq<Item>, k: nat, st: State)
    requires Booked(crc, bytes, items, k, st) && k < |items| && !Closing(items, k)
    ensures Booked(crc, bytes, items, k + 1, st)
  {
    hide Word, Closes;
    assert !Commits(crc, bytes, items, k);
  }

  lemma BeginOngoing(items: seq<Item>, k: nat, st: State)
    requires k < |items| && IsBegin(items[k]) && Word(items[k]).Some?
    ensures Ongoing(items, k + 1, st.(inTxn := true, txnId := items[k].record.txnId, declared := Word(items[k]).value,
                                      staged := []))
  {
    hide Word;
    InForceNext(items, k, k);
    var st' := st.(inTxn := true, txnId := items[k].record.txnId, declared := Word(items[k]).value, staged := []);
    assert Holds(items, k, k + 1, st');
  }

  lemma StagedOngoing(items: seq<Item>, i: nat, k: nat, st: State)
    requires k < |items| && Holds(items, i, k, st) && !IsBegin(items[k]) && !IsCommitOf(items[k], items[i])
    ensures Holds(items, i, k + 1, st.(staged := st.staged + [items[k].record]))
  {
    hide Word;
    InForceNext(items, i, k);
    RecordsSnoc(items, i + 1, k);
  }

  lemma IdleNext(items: seq<Item>, k: nat)
    requires k < |items| && Idle(items, k) && !IsBegin(items[k])
    ensures Idle(items, k + 1)
  {
    hide InForce;
    var j := k + 1;
    forall i: nat
      ensures !InForce(items, i, j)
    {
      InForceNext(items, i, k);
    }
  }

  lemma ClosedIdle(items: seq<Item>, i: nat, k: nat)
    requires Closes(items, i, k)
    ensures Idle(items, k + 1)
  {
    var j := k + 1;
    forall l: nat
      ensures !InForce(items, l, j)
    {
      InForceNext(items, l, k);
      if InForce(items, l, k) {
        InForceUnique(items, i, l, k);
      }
    }
  }

  lemma RecordsSnoc(items: seq<Item>, from: nat, to: nat)
    requires from <= to < |items|
    ensures Records(items, from, to + 1) == Records(items, from, to) + [items[to].record]
  {
  }

  /** A commit that closes the open transaction. */
  lemma CloseObeys(crc: Checksum, bytes: seq<byte>, items: seq<Item>, i: nat, k: nat, st: State)
    requires Booked(crc, bytes, items, k, st) && st.inTxn && Holds(items, i, k, st) && Closes(items, i, k)
    requires items[k].offset <= |bytes| && !Halts(items, k)
    ensures var (stop, st') := Step(crc, bytes[..items[k].offset], st, items[k].record);
      !stop && Booked(crc, bytes, items, k + 1, st') && Ongoing(items, k + 1, st')
  {
    hide ReadAt, InForce, Commits, Published, Faults;
    assert Closing(items, k);
    BlockIs(crc, bytes, items, i, k);
    ClosedIdle(items, i, k);
    BookedNext(crc, bytes, items, k);
  }

  lemma BookedNext(crc: Checksum, bytes: seq<byte>, items: seq<Item>, k: nat)
    ensures Published(crc, bytes, items, k + 1) == Published(crc, bytes, items, k) + Block(crc, bytes, items, k)
    ensures Faults(crc, bytes, items, k + 1) == Faults(crc, bytes, items, k) + FaultAt(crc, bytes, items, k)
    ensures !Commits(crc, bytes, items, k) ==> Block(crc, bytes, items, k) == []
  {
    hide Sealed, Closing;
  }

  /** Any record before which replay does not halt: the state goes on as the law says. */
  lemma StepObeys(crc: Checksum, bytes: seq<byte>, items: seq<Item>, k: nat, st: State)
    requires Booked(crc, bytes, items, k, st) && Ongoing(items, k, st)
    requires k < |items| && items[k].offset <= |bytes| && !Halts(items, k)
    ensures var (stop, st') := Step(crc, bytes[..items[k].offset], st, items[k].record);
      !stop && Booked(crc, bytes, items, k + 1, st') && Ongoing(items, k + 1, st')
  {
    hide ReadAt, InForce, Booked, Holds, Idle;
    var x := items[k];
    if IsBegin(x) {
      BeginOngoing(items, k, st);
      NotClosing(items, k);
      PlainBooked(crc, bytes, items, k, st);
      SameBook(crc, bytes, items, k + 1, st, Step(crc, bytes[..x.offset], st, x.record).1);
    } else if st.inTxn {
      var i: nat :| Holds(items, i, k, st);
      HoldsIs(items, i, k, st);
      if IsCommitOf(x, items[i]) {
        CloseObeys(crc, bytes, items, i, k, st);
      } else {
        StagedOngoing(items, i, k, st);
        PlainBooked(crc, bytes, items, k, st);
        SameBook(crc, bytes, items, k + 1, st, st.(staged := st.staged + [x.record]));
      }
    } else {
      IdleNext(items, k);
      NotClosing(items, k);
      PlainBooked(crc, bytes, items, k, st);
    }
  }

  lemma NotClosing(items: seq<Item>, k: nat)
    requires k < |items| && (IsBegin(items[k]) || Idle(items, k))
    ensures !Closing(items, k)
  {
  }

  lemma HoldsIs(items: seq<Item>, i: nat, k: nat, st: State)
    requires Holds(items, i, k, st) && k < |items|
    ensures i < k && InForce(items, i, k) && st.txnId == items[i].record.txnId
    ensures Closing(items, k) <==> IsCommitOf(items[k], items[i])
    ensures IsCommitOf(items[k], items[i]) ==> Closes(items, i, k)
  {
    if l: nat :| Closes(items, l, k) {
      InForceUnique(items, i, l, k);
    }
    assert IsCommitOf(items[k], items[i]) ==> Closes(items, i, k);
  }

  lemma SameBook(crc: Checksum, bytes: seq<byte>, items: seq<Item>, k: nat, st: State, st': State)
    requires Booked(crc, bytes, items, k, st)
    requires st'.committed == st.committed && st'.sequence == st.sequence && st'.diagnostics == st.diagnostics
    ensures Booked(crc, bytes, items, k, st')
  {
  }

  function HaltFault(x: Item): Diagnostic {
    if IsBegin(x) then BeginWithoutCount else CommitWithoutDigest
  }

  lemma HaltStep(crc: Checksum, done: seq<byte>, items: seq<Item>, k: nat, st: State)
    requires Ongoing(items, k, st) && Halts(items, k)
    ensures Step(crc, done, st, items[k].record) == (true, Diagnosed(st, HaltFault(items[k])))
  {
    hide ReadAt, InForce, Holds, Idle;
    if !IsBegin(items[k]) {
      if st.inTxn {
        var i: nat :| Holds(items, i, k, st);
        HoldsIs(items, i, k, st);
      } else {
        NotClosing(items, k);
      }
    }
  }

  /** Replay reads items up to the first that halts it, or to where the bytes stop decoding. */
  ghost predicate ReadsTo(items: seq<Item>, from: nat, h: nat) {
    from <= h <= |items| && (forall j :: from <= j < h ==> !Halts(items, j)) && (h < |items| ==> Halts(items, h))
  }

  /** What is diagnosed last. */
  function Ending(crc: Checksum, bytes: seq<byte>, items: seq<Item>, h: nat): seq<Diagnostic> {
    if h < |items| then [HaltFault(items[h])] else EndFault(crc, bytes, 0)
  }

  lemma {:induction false} ReplayObeys(
      crc: Checksum, bytes: seq<byte>, items: seq<Item>, k: nat, offset: nat, st: State) returns (h: nat)
    requires offset <= |bytes| && k <= |items| && items[k..] == Items(crc, bytes, offset)
    requires EndFault(crc, bytes, offset) == EndFault(crc, bytes, 0)
    requires Booked(crc, bytes, items, k, st) && Ongoing(items, k, st)
    ensures ReadsTo(items, k, h)
    ensures var st', ending := Replay(crc, bytes[..offset], bytes[offset..], st), Ending(crc, bytes, items, h);
      && st'.diagnostics == Faults(crc, bytes, items, h) + ending
      && st'.committed == Published(crc, bytes, items, h) && st'.sequence == SequenceAt(crc, bytes, items, h)
      && Ongoing(items, h, st')
    decreases |bytes| - offset
  {
    hide Decode, Step, Replay, Published, SequenceAt, Faults, Ongoing, Halts;
    if offset == |bytes| {
      assert bytes[offset..] == [];
      ReplayNothing(crc, bytes[..offset], st);
      h := k;
      assert st.diagnostics + [] == st.diagnostics;
      return;
    }
    ReplayUnfolds(crc, bytes, offset, st);
    var d := Decode(crc, bytes[offset..]);
    if d.Rejected? {
      h := k;
      SameOngoing(items, k, st, Diagnosed(st, Undecodable(d.error)));
      return;
    }
    var tail := Items(crc, bytes, offset + d.consumed);
    assert items[k] == items[k..][0] == Item(offset, d.record);
    assert items[k + 1..] == items[k..][1..] == tail;
    if Halts(items, k) {
      h := k;
      HaltStep(crc, bytes[..offset], items, k, st);
      SameOngoing(items, k, st, Diagnosed(st, HaltFault(items[k])));
    } else {
      StepObeys(crc, bytes, items, k, st);
      h := ReplayObeys(crc, bytes, items, k + 1, offset + d.consumed, Step(crc, bytes[..offset], st, d.record).1);
    }
  }

  lemma SameOngoing(items: seq<Item>, k: nat, st: State, st': State)
    requires Ongoing(items, k, st) && st'.(diagnostics := st.diagnostics) == st
    ensures Ongoing(items, k, st')
  {
    hide InForce, Word;
    if st.inTxn {
      var i: nat :| Holds(items, i, k, st);
      assert Holds(items, i, k, st');
    }
  }

  ghost predicate AnyOpen(items: seq<Item>, k: nat) {
    exists i: nat :: InForce(items, i, k)
  }

  /**
    The law of recovery, for arbitrary bytes. Of the decoded records up to the first that halts replay,
    exactly the transactions closed by a commit with the right count and the right digest are published,
    in order; the sequence is that of the last such commit; every other closing commit is diagnosed as a
    count or digest mismatch, then what ended the reading, then an open transaction.
   */
  lemma RecoverObeys(crc: Checksum, bytes: seq<byte>) returns (h: nat)
    ensures var items, r := Items(crc, bytes, 0), Recover(crc, bytes);
      && ReadsTo(items, 0, h)
      && r.committed == Published(crc, bytes, items, h) && r.sequence == SequenceAt(crc, bytes, items, h)
      && r.diagnostics == Faults(crc, bytes, items, h) + Ending(crc, bytes, items, h)
                          + if AnyOpen(items, h) then [PartialTail] else []
  {
    hide Replay, Decode, Items, EndFault, ReadsTo;
    var items := Items(crc, bytes, 0);
    assert items[0..] == items && bytes[..0] == [] && bytes[0..] == bytes;
    assert Booked(crc, bytes, items, 0, INITIAL) && Ongoing(items, 0, INITIAL);
    h := ReplayObeys(crc, bytes, items, 0, 0, INITIAL);
    ReadsBound(items, 0, h);
    var st := Replay(crc, [], bytes, INITIAL);
    assert AnyOpen(items, h) <==> st.inTxn by { OpenIs(items, h, st); }
    assert st.diagnostics + [] == st.diagnostics;
  }

  lemma ReadsBound(items: seq<Item>, from: nat, h: nat)
    requires ReadsTo(items, from, h)
    ensures h <= |items|
  {
  }

  lemma OpenIs(items: seq<Item>, k: nat, st: State)
    requires Ongoing(items, k, st)
    ensures AnyOpen(items, k) <==> st.inTxn
  {
  }

  // ---- Both directions ----

  lemma {:induction false} PublishedIsSealed(
      crc: Checksum, bytes: seq<byte>, items: seq<Item>, k: nat, m: nat) returns (i: nat, j: nat)
    requires m < |Published(crc, bytes, items, k)|
    ensures j < k && Sealed(crc, bytes, items, i, j) && i < j < |items|
    ensures Published(crc, bytes, items, k)[m] in Records(items, i + 1, j)
    decreases k
  {
    hide Sealed, Commits, Block, Records;
    BookedNext(crc, bytes, items, k - 1);
    if m < |Published(crc, bytes, items, k - 1)| {
      i, j := PublishedIsSealed(crc, bytes, items, k - 1, m);
    } else {
      j := k - 1;
      i := SealedAt(crc, bytes, items, j);
      var before, block := Published(crc, bytes, items, j), Block(crc, bytes, items, j);
      assert (before + block)[m] == block[m - |before|];
    }
  }

  lemma SealedBounds(crc: Checksum, bytes: seq<byte>, items: seq<Item>, i: nat, j: nat)
    requires Sealed(crc, bytes, items, i, j)
    ensures Closes(items, i, j) && i < j < |items|
  {
  }

  lemma SealedAt(crc: Checksum, bytes: seq<byte>, items: seq<Item>, j: nat) returns (i: nat)
    requires Commits(crc, bytes, items, j)
    ensures Sealed(crc, bytes, items, i, j) && i < j < |items|
    ensures Block(crc, bytes, items, j) == Records(items, i + 1, j)
  {
    i :| Sealed(crc, bytes, items, i, j);
    BlockIs(crc, bytes, items, i, j);
  }

  /**
    Whatever recovery commits, from whatever bytes, stands between a begin record and a commit record of
    the same transaction whose digest is the checksum of all the bytes before that commit.
   */
  lemma CommittedIsSealed(crc: Checksum, bytes: seq<byte>, m: nat) returns (i: nat, j: nat)
    requires m < |Recover(crc, bytes).committed|
    ensures var items := Items(crc, bytes, 0);
      && Sealed(crc, bytes, items, i, j) && i < j < |items|
      && Recover(crc, bytes).committed[m] in Records(items, i + 1, j)
  {
    hide Recover, Items, Sealed;
    var h := RecoverObeys(crc, bytes);
    i, j := PublishedIsSealed(crc, bytes, Items(crc, bytes, 0), h, m);
  }

  lemma {:induction false} PublishedGrows(crc: Checksum, bytes: seq<byte>, items: seq<Item>, j: nat, k: nat)
    requires j <= k
    ensures Published(crc, bytes, items, j) <= Published(crc, bytes, items, k)
    decreases k
  {
    hide Published, Block, FaultAt, Faults, Commits;
    if j < k {
      BookedNext(crc, bytes, items, k - 1);
      PublishedGrows(crc, bytes, items, j, k - 1);
    }
  }

  /** And every transaction so sealed, before anything that halts replay, is committed as a whole. */
  lemma SealedIsCommitted(crc: Checksum, bytes: seq<byte>, i: nat, j: nat) returns (p: nat)
    requires var items := Items(crc, bytes, 0);
      Sealed(crc, bytes, items, i, j) && forall k :: 0 <= k <= j ==> !Halts(items, k)
    ensures var items, all := Items(crc, bytes, 0), Recover(crc, bytes).committed;
      && i < j < |items| && p + (j - i - 1) <= |all|
      && all[p..p + (j - i - 1)] == Records(items, i + 1, j)
  {
    hide Recover, Items, Halts, Sealed, Published, Block, Records, Faults, Ending;
    var items := Items(crc, bytes, 0);
    var h := RecoverObeys(crc, bytes);
    SealedBounds(crc, bytes, items, i, j);
    assert j < h;
    BlockIs(crc, bytes, items, i, j);
    BookedNext(crc, bytes, items, j);
    PublishedGrows(crc, bytes, items, j + 1, h);
    p := |Published(crc, bytes, items, j)|;
    var before, block := Published(crc, bytes, items, j), Block(crc, bytes, items, j);
    var all := Recover(crc, bytes).committed;
    assert (before + block)[p..] == block;
    assert all[p..p + |block|] == all[..p + |block|][p..];
  }
}
