/**
  FST-1 records: the sealed envelope, padded with zeros to a multiple of eight bytes.

  Everything here holds for any checksum, except where `DetectsBursts` is asked for.
 */
module StateCodec {
  import opened Words
  import opened Crc
  import opened Envelope

  const TXN_BEGIN: u16 := 0x1000
  const TXN_COMMIT: u16 := 0x10f0
  const CHECKPOINT: u16 := 0x10f1

  datatype Record = Record(kind: u16, txnId: u64, baseSequence: u64, newSequence: u64, payload: seq<byte>)

  datatype FormatError = TruncatedRecord | InvalidLength | HeaderCrcMismatch | PayloadCrcMismatch

  datatype Decoded = Rejected(error: FormatError) | Accepted(record: Record, consumed: nat)

  /** The record fits the 32-bit length field. */
  predicate Fits(r: Record) {
    HEADER_SIZE + |r.payload| < 0x1_0000_0000
  }

  function Padded(n: nat): nat {
    (n + 7) / 8 * 8
  }

  function Zeros(n: nat): (s: seq<byte>)
    ensures |s| == n
  {
    seq(n, _ => 0)
  }

  /** The 32 bytes under the header checksum. The length is cut to 32 bits. */
  function FieldsWith(r: Record, reserved: seq<byte>): (s: seq<byte>)
    requires |reserved| == 2
    ensures |s| == 32
  {
    Le((HEADER_SIZE + |r.payload|) % 0x1_0000_0000, 4) + Le(r.kind, 2) + reserved
    + Le(r.txnId, 8) + Le(r.baseSequence, 8) + Le(r.newSequence, 8)
  }

  /** As written: the two reserved bytes are zero. */
  function Fields(r: Record): (s: seq<byte>)
    ensures |s| == 32
  {
    FieldsWith(r, Le(0, 2))
  }

  function Encode(crc: Checksum, r: Record): (s: seq<byte>)
    ensures |s| == Padded(HEADER_SIZE + |r.payload|)
  {
    Seal(crc, Fields(r), r.payload) + Zeros(Padded(|r.payload|) - |r.payload|)
  }

  /** The padded length of a record of `len` bytes, unless the bytes end inside the padding. */
  function Consumed(size: nat, len: nat): (n: nat)
    requires len <= size
    ensures len <= n <= size
    ensures size % 8 == 0 ==> n == Padded(len)
    ensures n == Padded(len) || n == size < Padded(len)
  {
    if Padded(len) < size then Padded(len) else size
  }

  function Decode(crc: Checksum, b: seq<byte>): (d: Decoded)
    ensures d.Accepted? ==> HEADER_SIZE + |d.record.payload| <= d.consumed <= |b| && Fits(d.record)
    ensures d.Accepted? ==> d.consumed == Consumed(|b|, HEADER_SIZE + |d.record.payload|)
  {
    Spans();
    if |b| < HEADER_SIZE then Rejected(TruncatedRecord) else
    var len := Field(b, 0, 4);
    if len < HEADER_SIZE || len > |b| then Rejected(InvalidLength)
    else if crc(b[..32]) != Field(b, 32, 4) then Rejected(HeaderCrcMismatch)
    else if crc(b[HEADER_SIZE..len]) != Field(b, 36, 4) then Rejected(PayloadCrcMismatch)
    else
      Accepted(Record(Field(b, 4, 2), Field(b, 8, 8), Field(b, 16, 8), Field(b, 24, 8), b[HEADER_SIZE..len]),
               Consumed(|b|, len))
  }

  // ---- The loops ----

  method PadToEight(sealed: seq<byte>) returns (out: seq<byte>)
    ensures out == sealed + Zeros(Padded(|sealed|) - |sealed|)
  {
    out := sealed;
    while |out| % 8 != 0
      invariant |sealed| <= |out| <= Padded(|sealed|)
      invariant out == sealed + Zeros(|out| - |sealed|)
      decreases Padded(|sealed|) - |out|
    {
      out := out + [0];
    }
  }

  method PackFields(r: Record) returns (out: seq<byte>)
    ensures out == Fields(r)
  {
    hide Le;
    out := AppendLe([], (HEADER_SIZE + |r.payload|) % 0x1_0000_0000, 4);
    out := AppendLe(out, r.kind, 2);
    out := AppendLe(out, 0, 2);
    out := AppendLe(out, r.txnId, 8);
    out := AppendLe(out, r.baseSequence, 8);
    out := AppendLe(out, r.newSequence, 8);
  }

  method EncodeRecord(crc: Checksum, r: Record) returns (out: seq<byte>)
    ensures out == Encode(crc, r)
  {
    out := PackFields(r);
    out := SealBuffer(crc, out, r.payload);
    out := PadToEight(out);
  }

  method ConsumedLength(size: nat, len: nat) returns (consumed: nat)
    requires len <= size
    ensures consumed == Consumed(size, len)
  {
    hide Padded;
    PaddedReached(len, len);
    consumed := len;
    while consumed < size && consumed % 8 != 0
      invariant len <= consumed <= size && consumed <= Padded(len)
      invariant consumed % 8 == 0 <==> consumed == Padded(len)
    {
      PaddedReached(len, consumed + 1);
      consumed := consumed + 1;
    }
  }

  /** The padded length is the first multiple of eight that is not smaller. */
  lemma PaddedReached(len: nat, n: nat)
    requires len <= n
    ensures len <= Padded(len)
    ensures n <= Padded(len) ==> (n % 8 == 0 <==> n == Padded(len))
  {
  }

  method DecodeRecord(crc: Checksum, bytes: seq<byte>) returns (d: Decoded)
    ensures d == Decode(crc, bytes)
  {
    if |bytes| < HEADER_SIZE {
      return Rejected(TruncatedRecord);
    }
    Spans();
    var len := ReadLe(bytes, 0, 4);
    assert len.value == Field(bytes, 0, 4);
    if len.value < HEADER_SIZE || len.value > |bytes| {
      return Rejected(InvalidLength);
    }
    var ok := HeaderMatches(crc, bytes);
    if !ok {
      return Rejected(HeaderCrcMismatch);
    }
    var kind := ReadLe(bytes, 4, 2);
    var txnId := ReadLe(bytes, 8, 8);
    var baseSequence := ReadLe(bytes, 16, 8);
    var newSequence := ReadLe(bytes, 24, 8);
    var payloadCrc := ReadLe(bytes, 36, 4);
    var payload := bytes[HEADER_SIZE..len.value];
    if crc(payload) != payloadCrc.value {
      return Rejected(PayloadCrcMismatch);
    }
    var consumed := ConsumedLength(|bytes|, len.value);
    d := Accepted(Record(kind.value, txnId.value, baseSequence.value, newSequence.value, payload), consumed);
  }

  // ---- Round trip ----

  lemma FieldsRead(r: Record, reserved: seq<byte>)
    requires |reserved| == 2
    ensures var b := FieldsWith(r, reserved);
      && Field(b, 0, 4) == (HEADER_SIZE + |r.payload|) % 0x1_0000_0000
      && Field(b, 4, 2) == r.kind
      && Field(b, 8, 8) == r.txnId
      && Field(b, 16, 8) == r.baseSequence
      && Field(b, 24, 8) == r.newSequence
  {
    hide Le, FromLe, Field;
    Spans();
    var n := (HEADER_SIZE + |r.payload|) % 0x1_0000_0000;
    var l, k, z := Le(n, 4), Le(r.kind, 2), reserved;
    var t, s, q := Le(r.txnId, 8), Le(r.baseSequence, 8), Le(r.newSequence, 8);
    var b := FieldsWith(r, reserved);
    assert b == [] + l + (k + z + t + s + q);
    FieldOf([], n, 4, k + z + t + s + q);
    assert b == l + k + (z + t + s + q);
    FieldOf(l, r.kind, 2, z + t + s + q);
    assert b == (l + k + z) + t + (s + q);
    FieldOf(l + k + z, r.txnId, 8, s + q);
    FieldOf(l + k + z + t, r.baseSequence, 8, q);
    assert b == (l + k + z + t + s) + q + [];
    FieldOf(l + k + z + t + s, r.newSequence, 8, []);
  }

  /** What a decoder finds at the start of an encoded record, wherever the bytes stop. */
  lemma EncodedHeader(crc: Checksum, r: Record, reserved: seq<byte>, b: seq<byte>)
    requires |reserved| == 2 && HEADER_SIZE <= |b|
    requires b[..HEADER_SIZE] == Seal(crc, FieldsWith(r, reserved), r.payload)[..HEADER_SIZE]
    ensures b[..32] == FieldsWith(r, reserved)
    ensures Field(b, 0, 4) == (HEADER_SIZE + |r.payload|) % 0x1_0000_0000
    ensures Field(b, 4, 2) == r.kind && Field(b, 8, 8) == r.txnId
    ensures Field(b, 16, 8) == r.baseSequence && Field(b, 24, 8) == r.newSequence
    ensures Field(b, 32, 4) == crc(b[..32]) && Field(b, 36, 4) == crc(r.payload)
  {
    hide Le, FromLe, Span, FieldsWith;
    var s := Seal(crc, FieldsWith(r, reserved), r.payload);
    Sealed(crc, FieldsWith(r, reserved), r.payload, []);
    assert s + [] == s;
    assert b[..32] == b[..HEADER_SIZE][..32] == s[..HEADER_SIZE][..32] == s[..32];
    FieldOfPrefix(b, HEADER_SIZE, 32, 4);
    FieldOfPrefix(s, HEADER_SIZE, 32, 4);
    FieldOfPrefix(b, HEADER_SIZE, 36, 4);
    FieldOfPrefix(s, HEADER_SIZE, 36, 4);
    FieldsRead(r, reserved);
    FieldOfPrefix(b, 32, 0, 4);
    FieldOfPrefix(b, 32, 4, 2);
    FieldOfPrefix(b, 32, 8, 8);
    FieldOfPrefix(b, 32, 16, 8);
    FieldOfPrefix(b, 32, 24, 8);
  }

  /** Bytes that start with the whole sealed record decode to it, with as much of the padding as there is. */
  lemma SealedDecodes(crc: Checksum, r: Record, reserved: seq<byte>, b: seq<byte>)
    requires Fits(r) && |reserved| == 2 && HEADER_SIZE + |r.payload| <= |b|
    requires b[..HEADER_SIZE + |r.payload|] == Seal(crc, FieldsWith(r, reserved), r.payload)
    ensures Decode(crc, b) == Accepted(r, Consumed(|b|, HEADER_SIZE + |r.payload|))
  {
    hide Le, FromLe, Span, FieldsWith, Field, Consumed;
    var s := Seal(crc, FieldsWith(r, reserved), r.payload);
    assert b[..HEADER_SIZE] == b[..|s|][..HEADER_SIZE] == s[..HEADER_SIZE];
    EncodedHeader(crc, r, reserved, b);
    assert b[HEADER_SIZE..|s|] == s[HEADER_SIZE..] == r.payload;
  }

  /**
    Decoding an encoded record followed by anything gives the record back and consumes exactly
    the padded length, if and only if the record fits the length field.
   */
  lemma RecordRoundTrip(crc: Checksum, r: Record, suffix: seq<byte>)
    ensures Fits(r) <==> Decode(crc, Encode(crc, r) + suffix) == Accepted(r, |Encode(crc, r)|)
  {
    hide Decode, Seal, FieldsWith, Le;
    var e, n := Encode(crc, r), HEADER_SIZE + |r.payload|;
    assert (e + suffix)[..n] == Seal(crc, Fields(r), r.payload);
    if Fits(r) {
      SealedDecodes(crc, r, Le(0, 2), e + suffix);
    }
  }

  /** A torn record: cut anywhere before the end of its payload, it is rejected. */
  lemma TornRecordRejected(crc: Checksum, r: Record, cut: nat)
    requires Fits(r) && cut < HEADER_SIZE + |r.payload|
    ensures Decode(crc, Encode(crc, r)[..cut]).Rejected?
  {
    hide Le, FromLe, Span, FieldsWith, Field;
    var b, s := Encode(crc, r)[..cut], Seal(crc, Fields(r), r.payload);
    if HEADER_SIZE <= cut {
      assert b[..HEADER_SIZE] == s[..HEADER_SIZE];
      EncodedHeader(crc, r, Le(0, 2), b);
    }
  }

  /** Cut inside its padding, a record is still accepted, and everything is consumed. */
  lemma TornPaddingAccepted(crc: Checksum, r: Record, cut: nat)
    requires Fits(r) && HEADER_SIZE + |r.payload| <= cut <= |Encode(crc, r)|
    ensures Decode(crc, Encode(crc, r)[..cut]) == Accepted(r, cut)
  {
    hide Decode, Seal, FieldsWith, Le;
    var e, n := Encode(crc, r), HEADER_SIZE + |r.payload|;
    assert e[..cut][..n] == e[..n] == Seal(crc, Fields(r), r.payload);
    SealedDecodes(crc, r, Le(0, 2), e[..cut]);
  }

  /** The padding is zero, and the least that completes a multiple of eight. */
  lemma PaddedWithZeros(crc: Checksum, r: Record)
    ensures var e, n := Encode(crc, r), HEADER_SIZE + |r.payload|;
      && e[..n] == Seal(crc, Fields(r), r.payload)
      && |e| % 8 == 0 && n <= |e| < n + 8 && forall i :: n <= i < |e| ==> e[i] == 0
  {
    hide Seal, Fields;
  }

  // ---- Arbitrary bytes ----

  /** The 32 field bytes are the fields they are read as, and two reserved bytes nobody reads. */
  lemma FieldsWritten(b: seq<byte>, r: Record)
    requires HEADER_SIZE <= |b| && Field(b, 0, 4) == HEADER_SIZE + |r.payload|
    requires Field(b, 4, 2) == r.kind && Field(b, 8, 8) == r.txnId
    requires Field(b, 16, 8) == r.baseSequence && Field(b, 24, 8) == r.newSequence
    ensures FieldsWith(r, b[6..8]) == b[..32]
  {
    hide Le, FromLe;
    Spans();
    WriteRead(b[0..4]);
    WriteRead(b[4..6]);
    WriteRead(b[8..16]);
    WriteRead(b[16..24]);
    WriteRead(b[24..32]);
    assert b[..32] == b[0..4] + b[4..6] + b[6..8] + b[8..16] + b[16..24] + b[24..32];
  }

  /**
    Bytes are accepted as a record if and only if they start with its sealed form, whatever the two reserved
    bytes are; then the padding is consumed, or as much of it as there is.
   */
  lemma AcceptedIff(crc: Checksum, b: seq<byte>, r: Record, n: nat)
    ensures Decode(crc, b) == Accepted(r, n) <==>
      && Fits(r) && HEADER_SIZE + |r.payload| <= |b| && n == Consumed(|b|, HEADER_SIZE + |r.payload|)
      && b[..HEADER_SIZE + |r.payload|] == Seal(crc, FieldsWith(r, b[6..8]), r.payload)
  {
    hide Le, FromLe, FieldsWith, Consumed, Seal;
    if Decode(crc, b) == Accepted(r, n) {
      SealedIs(crc, b, r, n);
    }
    if && Fits(r) && HEADER_SIZE + |r.payload| <= |b|
       && b[..HEADER_SIZE + |r.payload|] == Seal(crc, FieldsWith(r, b[6..8]), r.payload) {
      SealedDecodes(crc, r, b[6..8], b);
    }
  }

  lemma SealedIs(crc: Checksum, b: seq<byte>, r: Record, n: nat)
    requires Decode(crc, b) == Accepted(r, n)
    ensures b[..HEADER_SIZE + |r.payload|] == Seal(crc, FieldsWith(r, b[6..8]), r.payload)
  {
    hide Le, FromLe, FieldsWith, Consumed;
    Spans();
    var len := HEADER_SIZE + |r.payload|;
    FieldsWritten(b, r);
    WriteRead(b[32..36]);
    WriteRead(b[36..40]);
    assert b[..len] == b[..32] + b[32..36] + b[36..40] + b[40..len];
  }

  /** Why bytes are refused. */
  lemma RejectedIff(crc: Checksum, b: seq<byte>, e: FormatError)
    ensures Decode(crc, b) == Rejected(e) <==>
      if |b| < HEADER_SIZE then e == TruncatedRecord
      else if !(HEADER_SIZE <= FromLe(b[..4]) <= |b|) then e == InvalidLength
      else if Le(crc(b[..32]), 4) != b[32..36] then e == HeaderCrcMismatch
      else Le(crc(b[HEADER_SIZE..FromLe(b[..4])]), 4) != b[36..40] && e == PayloadCrcMismatch
  {
    hide FromLe, Le;
    Spans();
    if HEADER_SIZE <= |b| {
      assert b[0..4] == b[..4];
      StoredMatches(b, 32, crc(b[..32]));
      if HEADER_SIZE <= FromLe(b[..4]) <= |b| {
        StoredMatches(b, 36, crc(b[HEADER_SIZE..FromLe(b[..4])]));
      }
    }
  }

  /** An accepted record stays accepted when bytes are added; only cut padding can be completed. */
  lemma DecodeExtends(crc: Checksum, p: seq<byte>, w: seq<byte>)
    requires p <= w && Decode(crc, p).Accepted?
    ensures Decode(crc, w).Accepted? && Decode(crc, w).record == Decode(crc, p).record
    ensures Decode(crc, w).consumed == Decode(crc, p).consumed
         || (Decode(crc, p).consumed == |p| <= Decode(crc, w).consumed)
    ensures |p| % 8 == 0 ==> Decode(crc, w) == Decode(crc, p)
  {
    hide FromLe, Field, Span;
    assert p == w[..|p|];
    FieldOfPrefix(w, |p|, 0, 4);
    FieldOfPrefix(w, |p|, 4, 2);
    FieldOfPrefix(w, |p|, 8, 8);
    FieldOfPrefix(w, |p|, 16, 8);
    FieldOfPrefix(w, |p|, 24, 8);
    FieldOfPrefix(w, |p|, 32, 4);
    FieldOfPrefix(w, |p|, 36, 4);
    var len := Field(p, 0, 4);
    assert p[..32] == w[..32] && p[HEADER_SIZE..len] == w[HEADER_SIZE..len];
  }

  lemma BrokenSealRejected(crc: Checksum, b: seq<byte>, len: nat)
    requires HEADER_SIZE <= len <= |b| && !Intact(crc, b, len)
    requires crc(b[..32]) != Field(b, 32, 4) || Field(b, 0, 4) == len
    ensures Decode(crc, b).Rejected?
  {
  }

  /** Damage inside one detectable window of an encoded record is always rejected. */
  lemma DamagedRecordRejected(crc: Checksum, r: Record, suffix: seq<byte>, b: seq<byte>, lo: nat, hi: nat)
    requires DetectsBursts(crc) && Fits(r)
    requires DiffersWithin(Encode(crc, r) + suffix, b, lo, hi)
    requires DetectableWindow(HEADER_SIZE + |r.payload|, lo, hi)
    ensures Decode(crc, b).Rejected?
  {
    var a, len := Encode(crc, r) + suffix, HEADER_SIZE + |r.payload|;
    assert Intact(crc, a, len) && Field(a, 0, 4) == len by {
      RecordRoundTrip(crc, r, suffix);
    }
    DamageBreaksSeal(crc, a, b, len, lo, hi);
    if 32 <= lo {
      OutsideAgrees(a, b, lo, hi, 0, 4);
    } else {
      OutsideAgrees(a, b, lo, hi, HEADER_SIZE, len);
      OutsideAgrees(a, b, lo, hi, 36, 40);
    }
    BrokenSealRejected(crc, b, len);
  }

  /** With CRC32C the condition on the checksum is met. */
  lemma Crc32cRecordDamageRejected(r: Record, suffix: seq<byte>, b: seq<byte>, lo: nat, hi: nat)
    requires Fits(r)
    requires DiffersWithin(Encode(Crc32c, r) + suffix, b, lo, hi)
    requires DetectableWindow(HEADER_SIZE + |r.payload|, lo, hi)
    ensures Decode(Crc32c, b).Rejected?
  {
    hide Encode, Decode, DetectsBursts;
    Crc32cDetectsBursts();
    DamagedRecordRejected(Crc32c, r, suffix, b, lo, hi);
  }
}
