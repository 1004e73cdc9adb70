/**
  FIPC-1 frames and their incremental decoder.
 */
module FipcCodec {
  import opened Words
  import opened Crc
  import opened Envelope

  datatype Frame = Frame(
    kind: u16, flags: u16, streamId: u32, generation: u32, sequence: u64, token: u64, payload: seq<byte>)

  datatype Limits = Limits(maxFrameBytes: u32, maxPayloadBytes: u32, maxStreams: u32, maxSingleAllocation: u32)

  datatype ProtocolError =
    | AlreadyClosed
    | BufferLimitExceeded
    | InvalidFrameLength
    | HeaderCrcMismatch
    | PayloadCrcMismatch
    | TruncatedAtEof

  /** What the bytes of a buffer start with. */
  datatype Next = Incomplete | Malformed(error: ProtocolError) | Found(frame: Frame, size: nat)

  /** The frame meets the limits of the receiver. */
  predicate FrameFits(lim: Limits, f: Frame) {
    HEADER_SIZE + |f.payload| <= lim.maxFrameBytes && |f.payload| <= lim.maxPayloadBytes
  }

  /** The 32 bytes under the header checksum. The length is cut to 32 bits. */
  function Fields(f: Frame): (s: seq<byte>)
    ensures |s| == 32
  {
    Le((HEADER_SIZE + |f.payload|) % 0x1_0000_0000, 4) + Le(f.kind, 2) + Le(f.flags, 2)
    + Le(f.streamId, 4) + Le(f.generation, 4) + Le(f.sequence, 8) + Le(f.token, 8)
  }

  function Encode(crc: Checksum, f: Frame): (s: seq<byte>)
    ensures |s| == HEADER_SIZE + |f.payload|
  {
    Seal(crc, Fields(f), f.payload)
  }

  function NextFrame(crc: Checksum, lim: Limits, b: seq<byte>): (n: Next)
    ensures n.Found? ==> HEADER_SIZE <= n.size == HEADER_SIZE + |n.frame.payload| <= |b| && FrameFits(lim, n.frame)
    ensures n.Incomplete? ==> |b| < HEADER_SIZE || |b| < lim.maxFrameBytes
  {
    Spans();
    if |b| < HEADER_SIZE then Incomplete else
    var len := Field(b, 0, 4);
    if len < HEADER_SIZE || len > lim.maxFrameBytes then Malformed(InvalidFrameLength)
    else if |b| < len then Incomplete
    else if crc(b[..32]) != Field(b, 32, 4) then Malformed(HeaderCrcMismatch)
    else if len - HEADER_SIZE > lim.maxPayloadBytes || crc(b[HEADER_SIZE..len]) != Field(b, 36, 4) then
      Malformed(PayloadCrcMismatch)
    else
      Found(Frame(Field(b, 4, 2), Field(b, 6, 2), Field(b, 8, 4), Field(b, 12, 4), Field(b, 16, 8), Field(b, 24, 8),
                  b[HEADER_SIZE..len]), len)
  }

  // ---- The decoder object ----

  datatype Decoded = NeedMore | Ready(frame: Frame) | Closed(error: Option<ProtocolError>)

  method PackFields(f: Frame) returns (out: seq<byte>)
    ensures out == Fields(f)
  {
    hide Le;
    out := AppendLe([], (HEADER_SIZE + |f.payload|) % 0x1_0000_0000, 4);
    out := AppendLe(out, f.kind, 2);
    out := AppendLe(out, f.flags, 2);
    out := AppendLe(out, f.streamId, 4);
    out := AppendLe(out, f.generation, 4);
    out := AppendLe(out, f.sequence, 8);
    out := AppendLe(out, f.token, 8);
  }

  method EncodeFrame(crc: Checksum, f: Frame) returns (out: seq<byte>)
    ensures out == Encode(crc, f)
  {
    hide Fields;
    out := PackFields(f);
    out := SealBuffer(crc, out, f.payload);
  }

  /** The decoder's state is its buffer and whether it has given up. */
  datatype State = State(buffer: seq<byte>, closed: bool)

  predicate OverLimit(lim: Limits, buffered: nat, size: nat) {
    size > lim.maxSingleAllocation || buffered > lim.maxSingleAllocation - size
  }

  function FeedStep(crc: Checksum, lim: Limits, s: State, data: seq<byte>): (State, Decoded) {
    if s.closed then (s, Closed(Some(AlreadyClosed)))
    else if OverLimit(lim, |s.buffer|, |data|) then (s.(closed := true), Closed(Some(BufferLimitExceeded)))
    else
      var b := s.buffer + data;
      match NextFrame(crc, lim, b)
      case Incomplete => (State(b, false), NeedMore)
      case Malformed(e) => (State(b, true), Closed(Some(e)))
      case Found(f, n) => (State(b[n..], false), Ready(f))
  }

  class FipcCodec {
    const crc: Checksum
    const limits: Limits
    var buffer: seq<byte>
    var closed: bool

    constructor (crc: Checksum, limits: Limits)
      ensures this.crc == crc && this.limits == limits && Contents() == State([], false)
    {
      this.crc, this.limits := crc, limits;
      buffer, closed := [], false;
    }

    ghost function Contents(): State
      reads this
    {
      State(buffer, closed)
    }

    method Feed(data: seq<byte>) returns (r: Decoded)
      modifies this
      ensures (Contents(), r) == FeedStep(crc, limits, old(Contents()), data)
    {
      if closed {
        return Closed(Some(AlreadyClosed));
      }
      if |data| > limits.maxSingleAllocation || |buffer| > limits.maxSingleAllocation - |data| {
        closed := true;
        return Closed(Some(BufferLimitExceeded));
      }
      buffer := buffer + data;
      if |buffer| < HEADER_SIZE {
        return NeedMore;
      }
      Spans();
      var len := ReadLe(buffer, 0, 4);
      assert len.value == Field(buffer, 0, 4);
      if len.value < HEADER_SIZE || len.value > limits.maxFrameBytes {
        closed := true;
        return Closed(Some(InvalidFrameLength));
      }
      if |buffer| < len.value {
        return NeedMore;
      }
      var ok := HeaderMatches(crc, buffer);
      if !ok {
        closed := true;
        return Closed(Some(HeaderCrcMismatch));
      }
      var frame, payloadCrc := ReadFields(buffer, len.value);
      if |frame.payload| > limits.maxPayloadBytes || crc(frame.payload) != payloadCrc {
        closed := true;
        return Closed(Some(PayloadCrcMismatch));
      }
      buffer := buffer[len.value..];
      r := Ready(frame);
    }

    method Eof() returns (r: Decoded)
      modifies this
      ensures closed && buffer == old(buffer)
      ensures r == Closed(if buffer == [] then None else Some(TruncatedAtEof))
    {
      closed := true;
      r := Closed(if buffer != [] then Some(TruncatedAtEof) else None);
    }
  }

  method ReadFields(b: seq<byte>, len: nat) returns (f: Frame, payloadCrc: u32)
    requires HEADER_SIZE <= len <= |b|
    ensures f.kind == Field(b, 4, 2) && f.flags == Field(b, 6, 2)
    ensures f.streamId == Field(b, 8, 4) && f.generation == Field(b, 12, 4)
    ensures f.sequence == Field(b, 16, 8) && f.token == Field(b, 24, 8)
    ensures f.payload == b[HEADER_SIZE..len] && payloadCrc == Field(b, 36, 4)
  {
    hide FromLe;
    Spans();
    var kind := ReadLe(b, 4, 2);
    var flags := ReadLe(b, 6, 2);
    var streamId := ReadLe(b, 8, 4);
    var generation := ReadLe(b, 12, 4);
    var sequence := ReadLe(b, 16, 8);
    var token := ReadLe(b, 24, 8);
    var check := ReadLe(b, 36, 4);
    f := Frame(kind.value, flags.value, streamId.value, generation.value, sequence.value, token.value,
               b[HEADER_SIZE..len]);
    payloadCrc := check.value;
  }

  // ---- One frame ----

  lemma FieldsRead(f: Frame)
    ensures var b := Fields(f);
      && Field(b, 0, 4) == (HEADER_SIZE + |f.payload|) % 0x1_0000_0000
      && Field(b, 4, 2) == f.kind
      && Field(b, 6, 2) == f.flags
      && Field(b, 8, 4) == f.streamId
      && Field(b, 12, 4) == f.generation
      && Field(b, 16, 8) == f.sequence
      && Field(b, 24, 8) == f.token
  {
    hide Le, FromLe, Field;
    Spans();
    var n := (HEADER_SIZE + |f.payload|) % 0x1_0000_0000;
    var l, k, g := Le(n, 4), Le(f.kind, 2), Le(f.flags, 2);
    var s, e, q, t := Le(f.streamId, 4), Le(f.generation, 4), Le(f.sequence, 8), Le(f.token, 8);
    var b := Fields(f);
    assert b == [] + l + (k + g + s + e + q + t);
    FieldOf([], n, 4, k + g + s + e + q + t);
    assert b == l + k + (g + s + e + q + t);
    FieldOf(l, f.kind, 2, g + s + e + q + t);
    assert b == (l + k) + g + (s + e + q + t);
    FieldOf(l + k, f.flags, 2, s + e + q + t);
    assert b == (l + k + g) + s + (e + q + t);
    FieldOf(l + k + g, f.streamId, 4, e + q + t);
    assert b == (l + k + g + s) + e + (q + t);
    FieldOf(l + k + g + s, f.generation, 4, q + t);
    assert b == (l + k + g + s + e) + q + t;
    FieldOf(l + k + g + s + e, f.sequence, 8, t);
    assert b == (l + k + g + s + e + q) + t + [];
    FieldOf(l + k + g + s + e + q, f.token, 8, []);
  }

  lemma EncodedHeader(crc: Checksum, f: Frame, suffix: seq<byte>)
    ensures var b := Encode(crc, f) + suffix;
      && b[..32] == Fields(f) && b[HEADER_SIZE..HEADER_SIZE + |f.payload|] == f.payload
      && Field(b, 0, 4) == (HEADER_SIZE + |f.payload|) % 0x1_0000_0000
      && Field(b, 4, 2) == f.kind && Field(b, 6, 2) == f.flags
      && Field(b, 8, 4) == f.streamId && Field(b, 12, 4) == f.generation
      && Field(b, 16, 8) == f.sequence && Field(b, 24, 8) == f.token
      && Field(b, 32, 4) == crc(Fields(f)) && Field(b, 36, 4) == crc(f.payload)
  {
    hide Fields, Field, Seal;
    var b := Encode(crc, f) + suffix;
    Sealed(crc, Fields(f), f.payload, suffix);
    FieldsRead(f);
    FieldOfPrefix(b, 32, 0, 4);
    FieldOfPrefix(b, 32, 4, 2);
    FieldOfPrefix(b, 32, 6, 2);
    FieldOfPrefix(b, 32, 8, 4);
    FieldOfPrefix(b, 32, 12, 4);
    FieldOfPrefix(b, 32, 16, 8);
    FieldOfPrefix(b, 32, 24, 8);
  }

  /** An encoded frame followed by anything is found again if and only if it is within the limits. */
  lemma FrameRoundTrip(crc: Checksum, lim: Limits, f: Frame, suffix: seq<byte>)
    ensures FrameFits(lim, f) <==> NextFrame(crc, lim, Encode(crc, f) + suffix) == Found(f, |Encode(crc, f)|)
  {
    hide Fields, Field, Seal;
    EncodedHeader(crc, f, suffix);
  }

  /** The announced length: the little-endian word of the first four bytes. */
  function Announced(b: seq<byte>): nat
    requires 4 <= |b|
  {
    FromLe(b[..4])
  }

  predicate PossibleLength(lim: Limits, len: nat) {
    HEADER_SIZE <= len <= lim.maxFrameBytes
  }

  /**
    More bytes are waited for if and only if the header is not there, or it announces a possible length that
    is not there yet. An impossible length is refused as soon as the header is there.
   */
  lemma WaitsIff(crc: Checksum, lim: Limits, b: seq<byte>)
    ensures NextFrame(crc, lim, b) == Incomplete <==>
      |b| < HEADER_SIZE || (PossibleLength(lim, Announced(b)) && |b| < Announced(b))
    ensures NextFrame(crc, lim, b) == Malformed(InvalidFrameLength) <==>
      HEADER_SIZE <= |b| && !PossibleLength(lim, Announced(b))
  {
    hide FromLe;
    if HEADER_SIZE <= |b| {
      assert b[0..4] == b[..4];
    }
  }

  /** Of a whole frame the header checksum is judged first, then the payload's size and checksum. */
  lemma MismatchIff(crc: Checksum, lim: Limits, b: seq<byte>)
    requires HEADER_SIZE <= |b| && PossibleLength(lim, Announced(b)) && Announced(b) <= |b|
    ensures var len, n := Announced(b), NextFrame(crc, lim, b);
      && (n == Malformed(HeaderCrcMismatch) <==> Le(crc(b[..32]), 4) != b[32..36])
      && (n == Malformed(PayloadCrcMismatch) <==>
            && Le(crc(b[..32]), 4) == b[32..36]
            && (len - HEADER_SIZE > lim.maxPayloadBytes || Le(crc(b[HEADER_SIZE..len]), 4) != b[36..40]))
      && (n.Found? || n == Malformed(HeaderCrcMismatch) || n == Malformed(PayloadCrcMismatch))
  {
    hide FromLe, Le;
    Spans();
    assert b[0..4] == b[..4];
    StoredMatches(b, 32, crc(b[..32]));
    StoredMatches(b, 36, crc(b[HEADER_SIZE..Announced(b)]));
  }

  /** The 32 field bytes are the fields they are read as. */
  lemma FieldsWritten(b: seq<byte>, f: Frame)
    requires HEADER_SIZE <= |b| && Field(b, 0, 4) == HEADER_SIZE + |f.payload|
    requires Field(b, 4, 2) == f.kind && Field(b, 6, 2) == f.flags
    requires Field(b, 8, 4) == f.streamId && Field(b, 12, 4) == f.generation
    requires Field(b, 16, 8) == f.sequence && Field(b, 24, 8) == f.token
    ensures Fields(f) == b[..32]
  {
    hide Le, FromLe;
    Spans();
    WriteRead(b[0..4]);
    WriteRead(b[4..6]);
    WriteRead(b[6..8]);
    WriteRead(b[8..12]);
    WriteRead(b[12..16]);
    WriteRead(b[16..24]);
    WriteRead(b[24..32]);
    assert b[..32] == b[0..4] + b[4..6] + b[6..8] + b[8..12] + b[12..16] + b[16..24] + b[24..32];
  }

  /** A frame is found if and only if the bytes start with its encoding and it is within the limits. */
  lemma FoundIff(crc: Checksum, lim: Limits, b: seq<byte>, f: Frame)
    ensures NextFrame(crc, lim, b) == Found(f, HEADER_SIZE + |f.payload|) <==>
      FrameFits(lim, f) && Encode(crc, f) <= b
  {
    hide Fields, Field, Seal;
    if NextFrame(crc, lim, b) == Found(f, HEADER_SIZE + |f.payload|) {
      SealedIs(crc, lim, b, f);
    }
    if FrameFits(lim, f) && Encode(crc, f) <= b {
      FrameRoundTrip(crc, lim, f, b[|Encode(crc, f)|..]);
      assert Encode(crc, f) + b[|Encode(crc, f)|..] == b;
    }
  }

  lemma SealedIs(crc: Checksum, lim: Limits, b: seq<byte>, f: Frame)
    requires NextFrame(crc, lim, b) == Found(f, HEADER_SIZE + |f.payload|)
    ensures Encode(crc, f) == b[..HEADER_SIZE + |f.payload|]
  {
    hide Fields, Le, FromLe;
    Spans();
    var len := HEADER_SIZE + |f.payload|;
    FieldsWritten(b, f);
    WriteRead(b[32..36]);
    WriteRead(b[36..40]);
    assert b[..len] == b[..32] + b[32..36] + b[36..40] + b[40..len];
  }

  /** A decoder with a header of impossible length in its buffer closes at once, whatever is fed. */
  lemma ImpossibleLengthCloses(crc: Checksum, lim: Limits, s: State, data: seq<byte>)
    requires !s.closed && !OverLimit(lim, |s.buffer|, |data|)
    requires var b := s.buffer + data; HEADER_SIZE <= |b| && !PossibleLength(lim, Announced(b))
    ensures FeedStep(crc, lim, s, data) == (State(s.buffer + data, true), Closed(Some(InvalidFrameLength)))
  {
    hide NextFrame;
    WaitsIff(crc, lim, s.buffer + data);
  }

  // ---- Runs of the decoder ----

  /** A decoder fed any chunks, one call each. */
  function FeedRun(crc: Checksum, lim: Limits, chunks: seq<seq<byte>>): State {
    if chunks == [] then State([], false)
    else FeedStep(crc, lim, FeedRun(crc, lim, chunks[..|chunks| - 1]), chunks[|chunks| - 1]).0
  }

  /**
    In every run the buffer stays within the limit; a feed that would exceed it closes the decoder and
    keeps the buffer; and a closed decoder answers every feed with an error and does not change.
   */
  lemma {:induction false} BufferStaysWithin(crc: Checksum, lim: Limits, chunks: seq<seq<byte>>, data: seq<byte>)
    ensures var s := FeedRun(crc, lim, chunks);
      && |s.buffer| <= lim.maxSingleAllocation
      && (s.closed ==> FeedStep(crc, lim, s, data) == (s, Closed(Some(AlreadyClosed))))
      && (!s.closed && |s.buffer| + |data| > lim.maxSingleAllocation ==>
            FeedStep(crc, lim, s, data) == (State(s.buffer, true), Closed(Some(BufferLimitExceeded))))
      && (!s.closed && |s.buffer| + |data| <= lim.maxSingleAllocation ==>
            FeedStep(crc, lim, s, data).1 != Closed(Some(BufferLimitExceeded)))
    decreases |chunks|
  {
    hide NextFrame;
    NoOtherLimitError(crc, lim, FeedRun(crc, lim, chunks).buffer + data);
    if chunks != [] {
      BufferStaysWithin(crc, lim, chunks[..|chunks| - 1], chunks[|chunks| - 1]);
    }
  }

  lemma NoOtherLimitError(crc: Checksum, lim: Limits, b: seq<byte>)
    ensures NextFrame(crc, lim, b) != Malformed(BufferLimitExceeded)
  {
    hide Field;
  }

  /** More bytes never change what was found or what was wrong; `Incomplete` is the only open verdict. */
  lemma NextFrameStable(crc: Checksum, lim: Limits, b: seq<byte>, more: seq<byte>)
    requires !NextFrame(crc, lim, b).Incomplete?
    ensures NextFrame(crc, lim, b + more) == NextFrame(crc, lim, b)
  {
    hide Field;
    var w := b + more;
    assert w[..|b|] == b;
    FieldOfPrefix(w, |b|, 0, 4);
    FieldOfPrefix(w, |b|, 4, 2);
    FieldOfPrefix(w, |b|, 6, 2);
    FieldOfPrefix(w, |b|, 8, 4);
    FieldOfPrefix(w, |b|, 12, 4);
    FieldOfPrefix(w, |b|, 16, 8);
    FieldOfPrefix(w, |b|, 24, 8);
    FieldOfPrefix(w, |b|, 32, 4);
    FieldOfPrefix(w, |b|, 36, 4);
    var len := Field(b, 0, 4);
    assert w[..32] == b[..32];
    if HEADER_SIZE <= len <= |b| {
      assert w[HEADER_SIZE..len] == b[HEADER_SIZE..len];
    }
  }

  lemma BrokenSealNotFound(crc: Checksum, lim: Limits, b: seq<byte>, len: nat)
    requires HEADER_SIZE <= len <= |b| && !Intact(crc, b, len)
    requires crc(b[..32]) != Field(b, 32, 4) || Field(b, 0, 4) == len
    ensures !NextFrame(crc, lim, b).Found?
  {
  }

  /**
    Damage inside one detectable window of an encoded frame: the frame is never delivered. Unless
    the length itself was damaged, the decoder closes; a damaged length may leave it waiting.
   */
  lemma DamagedFrameNotFound(
      crc: Checksum, lim: Limits, f: Frame, suffix: seq<byte>, b: seq<byte>, lo: nat, hi: nat)
    requires DetectsBursts(crc) && FrameFits(lim, f)
    requires DiffersWithin(Encode(crc, f) + suffix, b, lo, hi)
    requires DetectableWindow(HEADER_SIZE + |f.payload|, lo, hi)
    ensures !NextFrame(crc, lim, b).Found?
    ensures 4 <= lo ==> NextFrame(crc, lim, b).Malformed?
  {
    hide Fields, Seal;
    var a, len := Encode(crc, f) + suffix, HEADER_SIZE + |f.payload|;
    EncodedHeader(crc, f, suffix);
    assert Intact(crc, a, len) && Field(a, 0, 4) == len;
    DamageBreaksSeal(crc, a, b, len, lo, hi);
    if 32 <= lo {
      OutsideAgrees(a, b, lo, hi, 0, 4);
    } else {
      OutsideAgrees(a, b, lo, hi, HEADER_SIZE, len);
      OutsideAgrees(a, b, lo, hi, 36, 40);
      if 4 <= lo {
        OutsideAgrees(a, b, lo, hi, 0, 4);
      }
    }
    BrokenSealNotFound(crc, lim, b, len);
  }

  lemma Crc32cFrameDamageNotFound(lim: Limits, f: Frame, suffix: seq<byte>, b: seq<byte>, lo: nat, hi: nat)
    requires FrameFits(lim, f)
    requires DiffersWithin(Encode(Crc32c, f) + suffix, b, lo, hi)
    requires DetectableWindow(HEADER_SIZE + |f.payload|, lo, hi)
    ensures !NextFrame(Crc32c, lim, b).Found?
    ensures 4 <= lo ==> NextFrame(Crc32c, lim, b).Malformed?
  {
    hide Encode, NextFrame, DetectsBursts;
    Crc32cDetectsBursts();
    DamagedFrameNotFound(Crc32c, lim, f, suffix, b, lo, hi);
  }
}
