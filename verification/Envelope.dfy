/**
  The frame shared by FST-1 records and FIPC-1 frames: 32 bytes of fields that start with
  the total length, the checksum of those 32 bytes, the checksum of the payload, the payload.
 */
module Envelope {
  import opened Words
  import opened Crc

  const HEADER_SIZE: nat := 40

  /** The word of `width` bytes at `offset`. */
  function Field(b: seq<byte>, offset: nat, width: nat): (w: nat)
    requires offset + width <= |b|
    ensures w < Span(width)
  {
    WriteRead(b[offset..offset + width]);
    FromLe(b[offset..offset + width])
  }

  function Seal(crc: Checksum, fields: seq<byte>, payload: seq<byte>): (b: seq<byte>)
    requires |fields| == 32
    ensures |b| == HEADER_SIZE + |payload|
  {
    fields + Le(crc(fields), 4) + Le(crc(payload), 4) + payload
  }

  /** Both checksums of the first `len` bytes of `b` agree with what they cover. */
  predicate Intact(crc: Checksum, b: seq<byte>, len: nat)
    requires HEADER_SIZE <= len <= |b|
  {
    && crc(b[..32]) == Field(b, 32, 4)
    && crc(b[HEADER_SIZE..len]) == Field(b, 36, 4)
  }

  lemma FieldOf(before: seq<byte>, v: nat, width: nat, after: seq<byte>)
    requires v < Span(width)
    ensures Field(before + Le(v, width) + after, |before|, width) == v
  {
    assert (before + Le(v, width) + after)[|before|..|before| + width] == Le(v, width);
    ReadWritten(v, width);
  }

  lemma FieldOfPrefix(b: seq<byte>, n: nat, offset: nat, width: nat)
    requires offset + width <= n <= |b|
    ensures Field(b[..n], offset, width) == Field(b, offset, width)
  {
    assert b[..n][offset..offset + width] == b[offset..offset + width];
  }

  lemma Sealed(crc: Checksum, fields: seq<byte>, payload: seq<byte>, suffix: seq<byte>)
    requires |fields| == 32
    ensures var b := Seal(crc, fields, payload) + suffix;
      && b[..32] == fields
      && b[HEADER_SIZE..HEADER_SIZE + |payload|] == payload
      && Field(b, 32, 4) == crc(fields)
      && Field(b, 36, 4) == crc(payload)
  {
    Spans();
    var b := Seal(crc, fields, payload) + suffix;
    var c, d := Le(crc(fields), 4), Le(crc(payload), 4);
    assert b == fields + c + (d + payload + suffix);
    FieldOf(fields, crc(fields), 4, d + payload + suffix);
    assert b == fields + c + d + (payload + suffix);
    FieldOf(fields + c, crc(payload), 4, payload + suffix);
  }

  lemma StoredMatches(b: seq<byte>, offset: nat, check: u32)
    requires offset + 4 <= |b|
    ensures check == Field(b, offset, 4) <==> Le(check, 4) == b[offset..offset + 4]
  {
    hide Le, FromLe;
    Spans();
    WriteRead(b[offset..offset + 4]);
    ReadWritten(check, 4);
  }

  // ---- The buffers ----

  /** The checksum fields are appended as zero and as the payload checksum; then the first is patched. */
  method SealBuffer(crc: Checksum, fields: seq<byte>, payload: seq<byte>) returns (out: seq<byte>)
    requires |fields| == 32
    ensures out == Seal(crc, fields, payload)
  {
    hide Le;
    out := AppendLe(fields, 0, 4);
    out := AppendLe(out, crc(payload), 4);
    assert out[..32] == fields;
    var c := AppendLe([], crc(out[..32]), 4);
    out := out[32 := c[0]][33 := c[1]][34 := c[2]][35 := c[3]];
    assert out[32..36] == c;
    assert out == fields + c + Le(crc(payload), 4);
    out := out + payload;
  }

  /** The header is copied, its checksum read and zeroed, and the first 32 bytes are checked. */
  method HeaderMatches(crc: Checksum, bytes: seq<byte>) returns (ok: bool)
    requires HEADER_SIZE <= |bytes|
    ensures ok <==> crc(bytes[..32]) == Field(bytes, 32, 4)
  {
    var header := bytes[..HEADER_SIZE];
    var expected := ReadLe(header, 32, 4);
    FieldOfPrefix(bytes, HEADER_SIZE, 32, 4);
    header := header[32 := 0][33 := 0][34 := 0][35 := 0];
    assert header[..32] == bytes[..32];
    ok := crc(header[..32]) == expected.value;
  }

  // ---- Damage ----

  /** `a` and `b` have equal length, differ, and differ only at positions in `[lo, hi)`. */
  predicate DiffersWithin(a: seq<byte>, b: seq<byte>, lo: nat, hi: nat) {
    && |a| == |b| && lo <= hi <= |a|
    && a[..lo] == b[..lo] && a[lo..hi] != b[lo..hi] && a[hi..] == b[hi..]
  }

  /**
    A window of damage the checksums cannot miss: at most four consecutive bytes of the fields and
    their stored checksum, or of the payload, or any part of the two stored checksums.
   */
  predicate DetectableWindow(len: nat, lo: nat, hi: nat) {
    || (hi <= lo + 4 && (hi <= 36 || HEADER_SIZE <= lo <= hi <= len))
    || 32 <= lo <= hi <= HEADER_SIZE
  }

  lemma SubwindowDiffers(a: seq<byte>, b: seq<byte>, lo: nat, hi: nat, from: nat, to: nat)
    requires DiffersWithin(a, b, lo, hi) && from <= lo <= hi <= to <= |a|
    ensures DiffersWithin(a[from..to], b[from..to], lo - from, hi - from)
  {
    forall s | s == a || s == b
      ensures s[from..to][..lo - from] == s[..lo][from..]
      ensures s[from..to][lo - from..hi - from] == s[lo..hi]
      ensures s[from..to][hi - from..] == s[hi..][..to - hi]
    {
      SliceOfSlice(s, from, to, 0, lo - from);
      SliceOfSlice(s, 0, lo, from, lo);
      SliceOfSlice(s, from, to, lo - from, hi - from);
      SliceOfSlice(s, from, to, hi - from, to - from);
      SliceOfSlice(s, hi, |s|, 0, to - hi);
    }
  }

  lemma OutsideAgrees(a: seq<byte>, b: seq<byte>, lo: nat, hi: nat, from: nat, to: nat)
    requires DiffersWithin(a, b, lo, hi) && from <= to <= |a| && (to <= lo || hi <= from)
    ensures a[from..to] == b[from..to]
    ensures Field(a, from, to - from) == Field(b, from, to - from)
  {
    forall k | from <= k < to
      ensures a[k] == b[k]
    {
      if to <= lo {
        assert a[k] == a[..lo][k] && b[k] == b[..lo][k];
      } else {
        assert a[k] == a[hi..][k - hi] && b[k] == b[hi..][k - hi];
      }
    }
  }

  lemma ChecksumDiffers(crc: Checksum, a: seq<byte>, b: seq<byte>, lo: nat, hi: nat)
    requires DetectsBursts(crc) && DiffersWithin(a, b, lo, hi) && hi <= lo + 4
    ensures crc(a) != crc(b)
  {
    assert a == Splice(a[..lo], a[lo..hi], a[hi..]);
    assert b == Splice(a[..lo], b[lo..hi], a[hi..]);
  }

  /** Damage that reaches from the fields into their stored checksum. */
  lemma OverlapBreaksHeader(crc: Checksum, a: seq<byte>, b: seq<byte>, lo: nat, hi: nat)
    requires DetectsBursts(crc) && HEADER_SIZE <= |a| && crc(a[..32]) == Field(a, 32, 4)
    requires DiffersWithin(a, b, lo, hi) && lo < 32 < hi <= 36 && hi <= lo + 4
    ensures crc(b[..32]) != Field(b, 32, 4)
  {
    hide DetectsBursts, StoredFrom, Field;
    var m, before, v, w := hi - 32, a[..lo], a[lo..32], b[lo..32];
    WindowParts(a, lo, hi);
    WindowParts(b, lo, hi);
    if crc(b[..32]) == Field(b, 32, 4) {
      StoredIs(a, 32, m);
      StoredIs(b, 32, m);
      OutsideAgrees(a, b, lo, hi, hi, 36);
      OverlapTold(crc, before, v, w, m);
      SameStored(a, b, 32);
    }
  }

  lemma WindowParts(s: seq<byte>, lo: nat, hi: nat)
    requires lo < 32 < hi <= 36 <= |s|
    ensures s[..32] == s[..lo] + s[lo..32]
    ensures s[lo..hi] == s[lo..32] + s[32..36][..hi - 32]
  {
    var l, r := s[lo..hi], s[lo..32] + s[32..36][..hi - 32];
    forall k | 0 <= k < |l|
      ensures l[k] == r[k]
    {
      assert l[k] == s[lo + k];
      if k < 32 - lo {
        assert r[k] == s[lo..32][k];
      } else {
        assert r[k] == s[32..36][k - (32 - lo)];
      }
    }
  }

  lemma OverlapTold(crc: Checksum, before: seq<byte>, v: seq<byte>, w: seq<byte>, m: nat)
    requires DetectsBursts(crc) && |v| == |w| <= 4 - m
    requires StoredFrom(crc(before + v), m) == StoredFrom(crc(before + w), m)
    ensures v == w
  {
    hide StoredFrom;
  }

  lemma SameStored(a: seq<byte>, b: seq<byte>, offset: nat)
    requires offset + 4 <= |a| == |b| && Field(a, offset, 4) == Field(b, offset, 4)
    ensures a[offset..offset + 4] == b[offset..offset + 4]
  {
    LittleEndianInjective(a[offset..offset + 4], b[offset..offset + 4]);
  }

  lemma StoredIs(a: seq<byte>, offset: nat, m: nat)
    requires offset + 4 <= |a| && m <= 4
    ensures Field(a, offset, 4) < 0x1_0000_0000
    ensures StoredFrom(Field(a, offset, 4), m) == a[offset + m..offset + 4]
  {
    Spans();
    WriteRead(a[offset..offset + 4]);
    SliceOfSlice(a, offset, offset + 4, m, 4);
  }

  /** Damage inside the fields. */
  lemma BurstBreaksHeader(crc: Checksum, a: seq<byte>, b: seq<byte>, lo: nat, hi: nat)
    requires DetectsBursts(crc) && HEADER_SIZE <= |a| && crc(a[..32]) == Field(a, 32, 4)
    requires DiffersWithin(a, b, lo, hi) && hi <= 32 && hi <= lo + 4
    ensures crc(b[..32]) != Field(b, 32, 4)
  {
    hide DetectsBursts, Field;
    SubwindowDiffers(a, b, lo, hi, 0, 32);
    ChecksumDiffers(crc, a[0..32], b[0..32], lo, hi);
    assert a[0..32] == a[..32] && b[0..32] == b[..32];
    OutsideAgrees(a, b, lo, hi, 32, 36);
  }

  /** Damage inside the payload. */
  lemma BurstBreaksPayload(crc: Checksum, a: seq<byte>, b: seq<byte>, len: nat, lo: nat, hi: nat)
    requires DetectsBursts(crc) && HEADER_SIZE <= len <= |a| && crc(a[HEADER_SIZE..len]) == Field(a, 36, 4)
    requires DiffersWithin(a, b, lo, hi) && HEADER_SIZE <= lo <= hi <= len && hi <= lo + 4
    ensures crc(b[HEADER_SIZE..len]) != Field(b, 36, 4)
  {
    hide DetectsBursts, Field;
    SubwindowDiffers(a, b, lo, hi, HEADER_SIZE, len);
    ChecksumDiffers(crc, a[HEADER_SIZE..len], b[HEADER_SIZE..len], lo - HEADER_SIZE, hi - HEADER_SIZE);
    OutsideAgrees(a, b, lo, hi, 36, 40);
  }

  /** Damage to the stored checksums alone. */
  lemma StoredDamage(a: seq<byte>, b: seq<byte>, len: nat, lo: nat, hi: nat)
    requires HEADER_SIZE <= len <= |a| && DiffersWithin(a, b, lo, hi) && 32 <= lo <= hi <= HEADER_SIZE
    ensures a[..32] == b[..32] && a[HEADER_SIZE..len] == b[HEADER_SIZE..len]
    ensures Field(a, 32, 4) != Field(b, 32, 4) || Field(a, 36, 4) != Field(b, 36, 4)
  {
    hide Field;
    OutsideAgrees(a, b, lo, hi, 0, 32);
    assert a[0..32] == a[..32] && b[0..32] == b[..32];
    OutsideAgrees(a, b, lo, hi, HEADER_SIZE, len);
    SubwindowDiffers(a, b, lo, hi, 32, 40);
    assert a[32..40] == a[32..36] + a[36..40];
    assert b[32..40] == b[32..36] + b[36..40];
    if Field(a, 32, 4) == Field(b, 32, 4) && Field(a, 36, 4) == Field(b, 36, 4) {
      SameStored(a, b, 32);
      SameStored(a, b, 36);
    }
  }

  /** Damage inside one detectable window always breaks one of the two checksums. */
  lemma DamageBreaksSeal(crc: Checksum, a: seq<byte>, b: seq<byte>, len: nat, lo: nat, hi: nat)
    requires DetectsBursts(crc)
    requires HEADER_SIZE <= len <= |a| && Intact(crc, a, len)
    requires DiffersWithin(a, b, lo, hi) && DetectableWindow(len, lo, hi)
    ensures !Intact(crc, b, len)
  {
    hide DetectsBursts, Field;
    if hi <= 32 {
      BurstBreaksHeader(crc, a, b, lo, hi);
    } else if lo < 32 {
      OverlapBreaksHeader(crc, a, b, lo, hi);
    } else if HEADER_SIZE <= lo {
      BurstBreaksPayload(crc, a, b, len, lo, hi);
    } else {
      StoredDamage(a, b, len, lo, hi);
    }
  }
}
