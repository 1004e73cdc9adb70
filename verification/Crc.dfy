/**
  CRC32C: the reflected Castagnoli checksum of section 12.1 of RFC 3720.

  The reference is the shift register fed with the message one bit at a time, least
  significant bit of each byte first. The loop of the source adds a whole byte to the
  register before shifting it eight places; `ComputeCrc32c` shows that this comes to
  the same, and `Crc32cDetectsBursts` says what damage the checksum is sure to notice.
 */
module Crc {
  import opened Words

  /** What the record and frame formats need from a checksum. */
  type Checksum = seq<byte> -> u32

  /**
    Two messages that differ only inside a window of at most four bytes get different checksums; and
    so do they, even if only the last `4 - m` bytes of the stored checksums are compared, when they
    differ only in their last bytes and those and the other `m` make at most four.
   */
  ghost predicate DetectsBursts(crc: Checksum) {
    && (forall before: seq<byte>, v: seq<byte>, w: seq<byte>, after: seq<byte> ::
          |v| == |w| <= 4 && v != w ==> crc(Splice(before, v, after)) != crc(Splice(before, w, after)))
    && (forall before: seq<byte>, v: seq<byte>, w: seq<byte>, m: nat ::
          |v| == |w| <= 4 - m && v != w ==> StoredFrom(crc(before + v), m) != StoredFrom(crc(before + w), m))
  }

  /** The bytes of a stored checksum from the `m`-th on. */
  function StoredFrom(check: u32, m: nat): seq<byte> {
    if m <= 4 then Le(check, 4)[m..] else []
  }

  function Splice(before: seq<byte>, window: seq<byte>, after: seq<byte>): seq<byte> {
    before + window + after
  }

  // ---- Machine words as bits, least significant first ----

  function Bits(n: nat, k: nat): (s: seq<bool>)
    ensures |s| == k
  {
    if k == 0 then [] else [n % 2 == 1] + Bits(n / 2, k - 1)
  }

  function FromBits(s: seq<bool>): nat {
    if s == [] then 0 else (if s[0] then 1 else 0) + 2 * FromBits(s[1..])
  }

  function Pow2(k: nat): (p: nat)
    ensures p > 0
  {
    if k == 0 then 1 else 2 * Pow2(k - 1)
  }

  lemma {:induction false} FromBitsBound(s: seq<bool>)
    ensures FromBits(s) < Pow2(|s|)
  {
    if s != [] {
      FromBitsBound(s[1..]);
    }
  }

  lemma {:induction false} FromBitsInjective(s: seq<bool>, t: seq<bool>)
    requires |s| == |t| && FromBits(s) == FromBits(t)
    ensures s == t
  {
    if s != [] {
      FromBitsInjective(s[1..], t[1..]);
      assert s == [s[0]] + s[1..] && t == [t[0]] + t[1..];
    }
  }

  lemma {:induction false} BitsInjective(m: nat, n: nat, k: nat)
    requires m < Pow2(k) && n < Pow2(k) && Bits(m, k) == Bits(n, k)
    ensures m == n
  {
    if k != 0 {
      assert Bits(m, k)[0] == Bits(n, k)[0];
      assert Bits(m / 2, k - 1) == Bits(m, k)[1..] == Bits(n, k)[1..] == Bits(n / 2, k - 1);
      BitsInjective(m / 2, n / 2, k - 1);
    }
  }

  // ---- The checksum ----

  type Register = c: seq<bool> | |c| == 32 witness Bits(0, 32)

  const ONES: Register := Bits(0xffff_ffff, 32)

  /** 0x82f63b78: the Castagnoli polynomial, reversed. */
  const POLYNOMIAL: Register := [
    false, false, false, true, true, true, true, false,   // 0x78
    true, true, false, true, true, true, false, false,    // 0x3b
    false, true, true, false, true, true, true, true,     // 0xf6
    false, true, false, false, false, false, false, true] // 0x82

  function Xor(a: Register, b: Register): Register {
    seq(32, i requires 0 <= i < 32 => a[i] != b[i])
  }

  function And(a: Register, b: Register): Register {
    seq(32, i requires 0 <= i < 32 => a[i] && b[i])
  }

  function ShiftRight(c: Register): Register {
    c[1..] + [false]
  }

  function Complement(c: Register): Register {
    seq(32, i requires 0 <= i < 32 => !c[i])
  }

  /** Adds the bits `s` to the low end of the register. */
  function AddLow(c: Register, s: seq<bool>): Register
    requires |s| <= 32
  {
    seq(32, i requires 0 <= i < 32 => if i < |s| then c[i] != s[i] else c[i])
  }

  /** The register moves one place; the polynomial is added when a one drops out. */
  function BitStep(c: Register): Register {
    if c[0] then Xor(ShiftRight(c), POLYNOMIAL) else ShiftRight(c)
  }

  function BitIn(c: Register, bit: bool): Register {
    BitStep(AddLow(c, [bit]))
  }

  /** The register, started at `c`, after the bits `s`. */
  function Run(c: Register, s: seq<bool>): Register
    decreases |s|
  {
    if s == [] then c else Run(BitIn(c, s[0]), s[1..])
  }

  function MessageBits(s: seq<byte>): (r: seq<bool>)
    ensures |r| == 8 * |s|
  {
    if s == [] then [] else Bits(s[0], 8) + MessageBits(s[1..])
  }

  function Crc32c(s: seq<byte>): u32 {
    ToWord(Complement(Run(ONES, MessageBits(s))))
  }

  function ToWord(c: Register): u32 {
    WordBound(c);
    FromBits(c)
  }

  lemma WordBound(c: Register)
    ensures FromBits(c) < 0x1_0000_0000
  {
    FromBitsBound(c);
    assert Pow2(8) == 0x100;
    assert Pow2(16) == 0x1_0000;
    assert Pow2(24) == 0x100_0000;
  }

  lemma {:induction false} RunRun(c: Register, s: seq<bool>, t: seq<bool>)
    ensures Run(c, s + t) == Run(Run(c, s), t)
    decreases |s|
  {
    if s == [] {
      assert s + t == t;
    } else {
      assert (s + t)[1..] == s[1..] + t;
      RunRun(BitIn(c, s[0]), s[1..], t);
    }
  }

  // ---- The loops ----

  function Shifted(c: Register, n: nat): Register
    decreases n
  {
    if n == 0 then c else Shifted(BitStep(c), n - 1)
  }

  lemma StepPastBit(c: Register, s: seq<bool>)
    requires 0 < |s| <= 32
    ensures BitStep(AddLow(c, s)) == AddLow(BitIn(c, s[0]), s[1..])
  {
    var added, low := AddLow(c, s), AddLow(c, [s[0]]);
    var l, r := BitStep(added), AddLow(BitStep(low), s[1..]);
    assert added[0] == low[0];
    forall i | 0 <= i < 32
      ensures l[i] == r[i]
    {
      if i < 31 {
        assert ShiftRight(added)[i] == added[i + 1] && ShiftRight(low)[i] == low[i + 1];
        assert low[i + 1] == c[i + 1];
        assert added[i + 1] == if i + 1 < |s| then c[i + 1] != s[i + 1] else c[i + 1];
        assert i + 1 < |s| ==> s[1..][i] == s[i + 1];
      } else {
        assert !ShiftRight(added)[i] && !ShiftRight(low)[i];
      }
    }
    assert l == r;
  }

  /** Adding up to 32 bits at once and shifting them out is feeding them one by one. */
  lemma {:induction false} ShiftedIsRun(c: Register, s: seq<bool>)
    requires |s| <= 32
    ensures Shifted(AddLow(c, s), |s|) == Run(c, s)
    decreases |s|
  {
    if s == [] {
      assert AddLow(c, s) == c;
    } else {
      StepPastBit(c, s);
      ShiftedIsRun(BitIn(c, s[0]), s[1..]);
    }
  }

  /** The branch-free loop body: the low bit, spread over a mask, selects the polynomial. */
  lemma MaskedStep(c: Register)
    ensures Xor(ShiftRight(c), And(POLYNOMIAL, seq(32, _ => c[0]))) == BitStep(c)
  {
    var mask: Register := seq(32, _ => c[0]);
    if c[0] {
      assert And(POLYNOMIAL, mask) == POLYNOMIAL;
    } else {
      assert Xor(ShiftRight(c), And(POLYNOMIAL, mask)) == ShiftRight(c);
    }
  }

  method ShiftOut(crc: Register, bits: nat) returns (c: Register)
    ensures c == Shifted(crc, bits)
  {
    c := crc;
    for bit := 0 to bits
      invariant Shifted(c, bits - bit) == Shifted(crc, bits)
    {
      MaskedStep(c);
      var mask: Register := seq(32, _ => c[0]);
      c := Xor(ShiftRight(c), And(POLYNOMIAL, mask));
    }
  }

  method ComputeCrc32c(data: seq<byte>) returns (crc: u32)
    ensures crc == Crc32c(data)
  {
    var c := ONES;
    for i := 0 to |data|
      invariant Run(c, MessageBits(data[i..])) == Run(ONES, MessageBits(data))
    {
      ghost var c0, bits := c, Bits(data[i], 8);
      c := ShiftOut(AddLow(c, Bits(data[i], 8)), 8);
      assert data[i..][1..] == data[i + 1..];
      ShiftedIsRun(c0, bits);
      RunRun(c0, bits, MessageBits(data[i + 1..]));
    }
    crc := ToWord(Complement(c));
  }

  // ---- What the checksum detects ----

  /**
    Runs that end alike, over equally many and at most 32 bits, started from registers that
    differ exactly where the messages do. The top bit of the polynomial is what tells.
   */
  lemma {:induction false} EqualEnds(a: Register, b: Register, v: seq<bool>, w: seq<bool>)
    requires |v| == |w| <= 32 && Run(a, v) == Run(b, w)
    ensures forall i :: 0 <= i < 32 ==> ((a[i] != b[i]) <==> (i < |v| && v[i] != w[i]))
    decreases |v|
  {
    if v != [] {
      var a', b' := BitIn(a, v[0]), BitIn(b, w[0]);
      EqualEnds(a', b', v[1..], w[1..]);
      assert a'[31] == b'[31];
      assert (a[0] != v[0]) == (b[0] != w[0]);
      forall i | 1 <= i < 32
        ensures (a[i] != b[i]) <==> (i < |v| && v[i] != w[i])
      {
        assert (a'[i - 1] != b'[i - 1]) == (a[i] != b[i]);
      }
    }
  }

  lemma {:induction false} RunInjective(a: Register, b: Register, s: seq<bool>)
    requires Run(a, s) == Run(b, s)
    ensures a == b
    decreases |s|
  {
    if s != [] {
      RunInjective(BitIn(a, s[0]), BitIn(b, s[0]), s[1..]);
      EqualEnds(a, b, [s[0]], [s[0]]);
    }
  }

  lemma {:induction false} MessageBitsConcat(s: seq<byte>, t: seq<byte>)
    ensures MessageBits(s + t) == MessageBits(s) + MessageBits(t)
  {
    if s == [] {
      assert s + t == t;
    } else {
      assert (s + t)[1..] == s[1..] + t;
      MessageBitsConcat(s[1..], t);
    }
  }

  lemma {:induction false} MessageBitsInjective(s: seq<byte>, t: seq<byte>)
    requires |s| == |t| && MessageBits(s) == MessageBits(t)
    ensures s == t
  {
    if s != [] {
      assert Bits(s[0], 8) == MessageBits(s)[..8] == MessageBits(t)[..8] == Bits(t[0], 8);
      BitsInjective(s[0], t[0], 8);
      assert MessageBits(s[1..]) == MessageBits(s)[8..] == MessageBits(t)[8..] == MessageBits(t[1..]);
      MessageBitsInjective(s[1..], t[1..]);
      assert s == [s[0]] + s[1..] && t == [t[0]] + t[1..];
    }
  }

  lemma BurstDetected(before: seq<byte>, v: seq<byte>, w: seq<byte>, after: seq<byte>)
    requires |v| == |w| <= 4 && v != w
    ensures Crc32c(before + v + after) != Crc32c(before + w + after)
  {
    var p, x, y, q := MessageBits(before), MessageBits(v), MessageBits(w), MessageBits(after);
    MessageBitsConcat(before + v, after);
    MessageBitsConcat(before, v);
    MessageBitsConcat(before + w, after);
    MessageBitsConcat(before, w);
    RunRun(ONES, p + x, q);
    RunRun(ONES, p, x);
    RunRun(ONES, p + y, q);
    RunRun(ONES, p, y);
    var c := Run(ONES, p);
    if Crc32c(before + v + after) == Crc32c(before + w + after) {
      FromBitsInjective(Complement(Run(ONES, p + x + q)), Complement(Run(ONES, p + y + q)));
      ComplementInjective(Run(ONES, p + x + q), Run(ONES, p + y + q));
      RunInjective(Run(c, x), Run(c, y), q);
      EqualEnds(c, c, x, y);
      assert x == y;
      MessageBitsInjective(v, w);
    }
  }

  lemma ComplementInjective(a: Register, b: Register)
    requires Complement(a) == Complement(b)
    ensures a == b
  {
    assert forall i :: 0 <= i < 32 ==> a[i] == !Complement(a)[i] && b[i] == !Complement(b)[i];
  }

  // ---- Damage that reaches from the end of the message into the stored checksum ----

  lemma FromBitsCons(bit: bool, s: seq<bool>)
    ensures FromBits([bit] + s) == (if bit then 1 else 0) + 2 * FromBits(s)
  {
    assert ([bit] + s)[1..] == s;
  }

  lemma Doubled(p: nat, r: nat)
    ensures 2 * (p * r) == (2 * p) * r
  {
  }

  lemma {:induction false} ByteBits(b: nat, k: nat, rest: seq<bool>)
    requires b < Pow2(k)
    ensures FromBits(Bits(b, k) + rest) == b + Pow2(k) * FromBits(rest)
  {
    hide FromBits;
    if k == 0 {
      assert Bits(b, k) + rest == rest;
    } else {
      var inner := Bits(b / 2, k - 1) + rest;
      ByteBits(b / 2, k - 1, rest);
      assert Bits(b, k) + rest == [b % 2 == 1] + inner;
      FromBitsCons(b % 2 == 1, inner);
      Doubled(Pow2(k - 1), FromBits(rest));
    }
  }

  lemma {:induction false} MessageValue(s: seq<byte>)
    ensures FromBits(MessageBits(s)) == FromLe(s)
  {
    hide Bits;
    if s != [] {
      MessageValue(s[1..]);
      assert Pow2(8) == 0x100;
      ByteBits(s[0], 8, MessageBits(s[1..]));
    }
  }

  /** The stored bytes are the register's bits. */
  lemma StoredBits(c: Register)
    ensures MessageBits(Le(ToWord(c), 4)) == c
  {
    hide Le, MessageBits, FromBits;
    Spans();
    var s := Le(ToWord(c), 4);
    ReadWritten(ToWord(c), 4);
    MessageValue(s);
    FromBitsInjective(MessageBits(s), c);
  }

  lemma StoredSuffix(c: Register, m: nat)
    requires m <= 4
    ensures MessageBits(StoredFrom(ToWord(c), m)) == c[8 * m..]
  {
    hide Le, MessageBits, ToWord;
    var s := Le(ToWord(c), 4);
    StoredBits(c);
    MessageBitsConcat(s[..m], s[m..]);
    assert s == s[..m] + s[m..];
    assert (MessageBits(s[..m]) + MessageBits(s[m..]))[8 * m..] == MessageBits(s[m..]);
  }

  /** Feeding a register its own low bits clears them. */
  lemma SameAboveLow(a: Register, b: Register, n: nat)
    requires n <= 32 && a[n..] == b[n..]
    ensures Run(a, a[..n]) == Run(b, b[..n])
  {
    hide Shifted, Run;
    var x, y := AddLow(a, a[..n]), AddLow(b, b[..n]);
    assert x == y by {
      forall i | 0 <= i < 32
        ensures x[i] == y[i]
      {
        if n <= i {
          assert a[i] == a[n..][i - n] && b[i] == b[n..][i - n];
        }
      }
    }
    ShiftedIsRun(a, a[..n]);
    ShiftedIsRun(b, b[..n]);
  }

  /** Short messages after which the registers differ in their low `n` bits at most are equal. */
  lemma LowBitsTell(c: Register, x: seq<bool>, y: seq<bool>, n: nat)
    requires |x| == |y| <= 32 - n && Run(c, x)[n..] == Run(c, y)[n..]
    ensures x == y
  {
    hide Run;
    var a, b := Run(c, x), Run(c, y);
    SameAboveLow(a, b, n);
    RunRun(c, x, a[..n]);
    RunRun(c, y, b[..n]);
    var p, q := x + a[..n], y + b[..n];
    EqualEnds(c, c, p, q);
    assert forall i :: 0 <= i < |x| ==> x[i] == p[i] && y[i] == q[i];
  }

  lemma OverlapDetected(before: seq<byte>, v: seq<byte>, w: seq<byte>, m: nat)
    requires |v| == |w| <= 4 - m && v != w
    ensures StoredFrom(Crc32c(before + v), m) != StoredFrom(Crc32c(before + w), m)
  {
    hide Run, MessageBits, StoredFrom, ToWord;
    var p, x, y := MessageBits(before), MessageBits(v), MessageBits(w);
    MessageBitsConcat(before, v);
    MessageBitsConcat(before, w);
    RunRun(ONES, p, x);
    RunRun(ONES, p, y);
    var c := Run(ONES, p);
    var a, b := Run(c, x), Run(c, y);
    if StoredFrom(Crc32c(before + v), m) == StoredFrom(Crc32c(before + w), m) {
      StoredSuffix(Complement(a), m);
      StoredSuffix(Complement(b), m);
      forall i | 8 * m <= i < 32
        ensures a[i] == b[i]
      {
        assert Complement(a)[i] == Complement(a)[8 * m..][i - 8 * m];
        assert Complement(b)[i] == Complement(b)[8 * m..][i - 8 * m];
      }
      assert a[8 * m..] == b[8 * m..];
      LowBitsTell(c, x, y, 8 * m);
      MessageBitsInjective(v, w);
    }
  }

  lemma Crc32cDetectsBursts()
    ensures DetectsBursts(Crc32c)
  {
    hide Crc32c, StoredFrom;
    forall before: seq<byte>, v: seq<byte>, w: seq<byte>, after: seq<byte>
      | |v| == |w| <= 4 && v != w
      ensures Crc32c(Splice(before, v, after)) != Crc32c(Splice(before, w, after))
    {
      BurstDetected(before, v, w, after);
    }
    forall before: seq<byte>, v: seq<byte>, w: seq<byte>, m: nat
      | |v| == |w| <= 4 - m && v != w
      ensures StoredFrom(Crc32c(before + v), m) != StoredFrom(Crc32c(before + w), m)
    {
      OverlapDetected(before, v, w, m);
    }
  }
}
