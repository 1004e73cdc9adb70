/**
  Replay of an FST-1 log: a state machine over the decoded records of arbitrary bytes.
 */
module Recovery {
  import opened Words
  import opened Crc
  import opened StateCodec

  datatype Diagnostic =
    | Undecodable(error: FormatError)
    | BeginWithoutCount
    | CommitWithoutDigest
    | CountMismatch
    | DigestMismatch
    | PartialTail

  /** The local variables of the replay loop. */
  datatype State = State(
    inTxn: bool, txnId: u64, declared: nat, staged: seq<Record>,
    committed: seq<Record>, sequence: u64, diagnostics: seq<Diagnostic>)

  datatype Recovered = Recovered(sequence: u64, committed: seq<Record>, diagnostics: seq<Diagnostic>)

  const INITIAL := State(false, 0, 0, [], [], 0, [])

  function Diagnosed(st: State, d: Diagnostic): State {
    st.(diagnostics := st.diagnostics + [d])
  }

  function Abandoned(st: State, d: Diagnostic): State {
    Diagnosed(st, d).(inTxn := false, staged := [])
  }

  /** The effect of one record found after the bytes `done`; the first component says whether replay stops. */
  function Step(crc: Checksum, done: seq<byte>, st: State, r: Record): (bool, State) {
    if r.kind == TXN_BEGIN then
      match ReadAt(r.payload, 0, 8)
      case None => (true, Diagnosed(st, BeginWithoutCount))
      case Some(count) => (false, st.(inTxn := true, txnId := r.txnId, declared := count, staged := []))
    else if r.kind == TXN_COMMIT && st.inTxn && r.txnId == st.txnId then
      match ReadAt(r.payload, 0, 8)
      case None => (true, Diagnosed(st, CommitWithoutDigest))
      case Some(digest) =>
        if |st.staged| != st.declared then (false, Abandoned(st, CountMismatch))
        else if crc(done) != digest % 0x1_0000_0000 then (false, Abandoned(st, DigestMismatch))
        else
          (false, st.(committed := st.committed + st.staged, sequence := r.newSequence, inTxn := false, staged := []))
    else if st.inTxn then (false, st.(staged := st.staged + [r]))
    else (false, st)
  }

  /** Replays `rest`, the bytes after `done`. */
  function Replay(crc: Checksum, done: seq<byte>, rest: seq<byte>, st: State): State
    decreases |rest|
  {
    if rest == [] then st else
    match Decode(crc, rest)
    case Rejected(e) => Diagnosed(st, Undecodable(e))
    case Accepted(r, n) =>
      var (stop, st') := Step(crc, done, st, r);
      if stop then st' else Replay(crc, done + rest[..n], rest[n..], st')
  }

  function Finish(st: State): Recovered {
    Recovered(st.sequence, st.committed, if st.inTxn then st.diagnostics + [PartialTail] else st.diagnostics)
  }

  function Recover(crc: Checksum, bytes: seq<byte>): Recovered {
    Finish(Replay(crc, [], bytes, INITIAL))
  }

  lemma ReplayUnfolds(crc: Checksum, bytes: seq<byte>, offset: nat, st: State)
    requires offset < |bytes|
    ensures var d, whole := Decode(crc, bytes[offset..]), Replay(crc, bytes[..offset], bytes[offset..], st);
      && (d.Rejected? ==> whole == Diagnosed(st, Undecodable(d.error)))
      && (d.Accepted? ==>
            var (stop, st') := Step(crc, bytes[..offset], st, d.record);
            whole == if stop then st' else Replay(crc, bytes[..offset + d.consumed], bytes[offset + d.consumed..], st'))
  {
    hide Decode, Step;
    var d := Decode(crc, bytes[offset..]);
    if d.Accepted? {
      assert bytes[..offset] + bytes[offset..][..d.consumed] == bytes[..offset + d.consumed];
      assert bytes[offset..][d.consumed..] == bytes[offset + d.consumed..];
    }
  }

  method RecoverLog(crc: Checksum, bytes: seq<byte>) returns (result: Recovered)
    ensures result == Recover(crc, bytes)
  {
    hide Decode, ReadAt, Replay;
    result := Recovered(0, [], []);
    var inTxn, txnId: u64, declared: nat, staged: seq<Record> := false, 0, 0, [];
    var offset := 0;
    assert bytes[..0] == [] && bytes[0..] == bytes;
    while offset < |bytes|
      invariant 0 <= offset <= |bytes|
      invariant Replay(crc, [], bytes, INITIAL) == Replay(crc, bytes[..offset], bytes[offset..],
        State(inTxn, txnId, declared, staged, result.committed, result.sequence, result.diagnostics))
      decreases |bytes| - offset
    {
      ReplayUnfolds(crc, bytes, offset,
        State(inTxn, txnId, declared, staged, result.committed, result.sequence, result.diagnostics));
      var decoded := DecodeRecord(crc, bytes[offset..]);
      if decoded.Rejected? {
        result := result.(diagnostics := result.diagnostics + [Undecodable(decoded.error)]);
        break;
      }
      var record := decoded.record;
      if record.kind == TXN_BEGIN {
        var count := ReadLe(record.payload, 0, 8);
        if count.None? {
          result := result.(diagnostics := result.diagnostics + [BeginWithoutCount]);
          break;
        }
        inTxn, txnId, declared, staged := true, record.txnId, count.value, [];
      } else if record.kind == TXN_COMMIT && inTxn && record.txnId == txnId {
        var digest := ReadLe(record.payload, 0, 8);
        if digest.None? {
          result := result.(diagnostics := result.diagnostics + [CommitWithoutDigest]);
          break;
        }
        if |staged| != declared {
          result := result.(diagnostics := result.diagnostics + [CountMismatch]);
        } else if crc(bytes[..offset]) != digest.value % 0x1_0000_0000 {
          result := result.(diagnostics := result.diagnostics + [DigestMismatch]);
        } else {
          result := result.(committed := result.committed + staged, sequence := record.newSequence);
        }
        inTxn, staged := false, [];
      } else if inTxn {
        staged := staged + [record];
      }
      offset := offset + decoded.consumed;
    }
    assert offset >= |bytes| ==> bytes[offset..] == [];
    ReplayNothing(crc, bytes[..offset],
      State(inTxn, txnId, declared, staged, result.committed, result.sequence, result.diagnostics));
    if inTxn {
      result := result.(diagnostics := result.diagnostics + [PartialTail]);
    }
  }

  lemma ReplayNothing(crc: Checksum, done: seq<byte>, st: State)
    ensures Replay(crc, done, [], st) == st
  {
  }

  // ---- Any bytes: what is committed only grows, and a longer log commits no less ----

  lemma StepGrows(crc: Checksum, done: seq<byte>, st: State, r: Record)
    ensures var (stop, st') := Step(crc, done, st, r);
      st.committed <= st'.committed && st.diagnostics <= st'.diagnostics && (stop ==> st.diagnostics < st'.diagnostics)
  {
  }

  lemma {:induction false} OnlyGrows(crc: Checksum, done: seq<byte>, rest: seq<byte>, st: State)
    ensures st.committed <= Replay(crc, done, rest, st).committed
    ensures st.diagnostics <= Replay(crc, done, rest, st).diagnostics
    decreases |rest|
  {
    hide Decode, Step;
    if rest != [] && Decode(crc, rest).Accepted? {
      var Accepted(r, n) := Decode(crc, rest);
      StepGrows(crc, done, st, r);
      var (stop, st') := Step(crc, done, st, r);
      if !stop {
        OnlyGrows(crc, done + rest[..n], rest[n..], st');
      }
    }
  }

  lemma {:induction false} ReplayMonotone(crc: Checksum, done: seq<byte>, p: seq<byte>, w: seq<byte>, st: State)
    requires p <= w
    ensures Replay(crc, done, p, st).committed <= Replay(crc, done, w, st).committed
    decreases |p|
  {
    hide Decode, Step;
    OnlyGrows(crc, done, w, st);
    if p != [] && Decode(crc, p).Accepted? {
      DecodeExtends(crc, p, w);
      var Accepted(r, n) := Decode(crc, p);
      var m := Decode(crc, w).consumed;
      var (stop, st') := Step(crc, done, st, r);
      if !stop {
        if m == n {
          assert p[..n] == w[..n];
          ReplayMonotone(crc, done + p[..n], p[n..], w[n..], st');
        } else {
          OnlyGrows(crc, done + w[..m], w[m..], st');
        }
      }
    }
  }

  /** Recovery is prefix based: cutting any bytes at any point never adds or reorders committed records. */
  lemma CutLogRecoversPrefix(crc: Checksum, log: seq<byte>, cut: nat)
    requires cut <= |log|
    ensures Recover(crc, log[..cut]).committed <= Recover(crc, log).committed
  {
    ReplayMonotone(crc, [], log[..cut], log, INITIAL);
  }

  // ---- Logs that end on a record boundary ----

  /** An undiagnosed log of whole eight-byte units is replayed as if what follows it started there. */
  lemma {:induction false} ReplayResumes(crc: Checksum, done: seq<byte>, log: seq<byte>, more: seq<byte>, st: State)
    requires |log| % 8 == 0
    requires Replay(crc, done, log, st).diagnostics == st.diagnostics
    ensures Replay(crc, done, log + more, st) == Replay(crc, done + log, more, Replay(crc, done, log, st))
    decreases |log|
  {
    hide Decode, Step, Consumed, Padded;
    if log == [] {
      assert log + more == more && done + log == done;
    } else {
      var d := Decode(crc, log);
      assert d.Accepted?;
      FirstRecordKept(crc, log, more);
      var (stop, st') := Step(crc, done, st, d.record);
      StepGrows(crc, done, st, d.record);
      assert !stop;
      OnlyGrows(crc, done + log[..d.consumed], log[d.consumed..], st');
      ReplayResumes(crc, done + log[..d.consumed], log[d.consumed..], more, st');
      assert done + log[..d.consumed] + log[d.consumed..] == done + log;
    }
  }

  lemma FirstRecordKept(crc: Checksum, log: seq<byte>, more: seq<byte>)
    requires |log| % 8 == 0 && Decode(crc, log).Accepted?
    ensures Decode(crc, log + more) == Decode(crc, log)
    ensures var n := Decode(crc, log).consumed;
      n % 8 == 0 && 0 < n && (log + more)[..n] == log[..n] && (log + more)[n..] == log[n..] + more
  {
    hide Decode;
    DecodeExtends(crc, log, log + more);
  }

  /** An encoded record is one step of replay. */
  lemma ReplayRecord(crc: Checksum, done: seq<byte>, r: Record, more: seq<byte>, st: State)
    requires Fits(r)
    ensures var (stop, st') := Step(crc, done, st, r);
      Replay(crc, done, Encode(crc, r) + more, st)
        == if stop then st' else Replay(crc, done + Encode(crc, r), more, st')
  {
    hide Decode, Step, Padded;
    RecordRoundTrip(crc, r, more);
    var e := Encode(crc, r);
    assert (e + more)[..|e|] == e && (e + more)[|e|..] == more;
  }
}
