/**
  The 256-bit content digest: four words, each mixed independently by exclusive or, multiplication
  by an odd constant modulo 2^64, and an exclusive or with its own upper half. Every step is a
  bijection of the word, which is what the results below rest on.
 */
module Digests {
  import opened Words
  import opened Crc

  const PRIME: nat := 1099511628211
  /** The inverse of PRIME modulo 2^64. */
  const INVERSE: nat := 14886173955864302971
  const SPAN: nat := 0x1_0000_0000_0000_0000

  datatype Digest = Digest(w0: u64, w1: u64, w2: u64, w3: u64)

  const SEED := Digest(1469598103934665603, 1099511628211, 7809847782465536322, 1609587929392839161)

  // ---- Words and bits ----

  function XorBits(s: seq<bool>, t: seq<bool>): (r: seq<bool>)
    requires |s| == |t|
    ensures |r| == |s|
  {
    seq(|s|, i requires 0 <= i < |s| => s[i] != t[i])
  }

  /** Exclusive or of two numbers of `k` bits. */
  function XorNat(a: nat, b: nat, k: nat): (r: nat)
    ensures r < Pow2(k)
  {
    FromBitsBound(XorBits(Bits(a, k), Bits(b, k)));
    FromBits(XorBits(Bits(a, k), Bits(b, k)))
  }

  lemma XorNatInjective(a: nat, b: nat, c: nat, d: nat, k: nat)
    requires XorNat(a, b, k) == XorNat(c, d, k)
    ensures forall i :: 0 <= i < k ==> (Bits(a, k)[i] != Bits(b, k)[i]) == (Bits(c, k)[i] != Bits(d, k)[i])
  {
    hide Bits;
    var x, y := XorBits(Bits(a, k), Bits(b, k)), XorBits(Bits(c, k), Bits(d, k));
    FromBitsInjective(x, y);
    forall i | 0 <= i < k
      ensures (Bits(a, k)[i] != Bits(b, k)[i]) == (Bits(c, k)[i] != Bits(d, k)[i])
    {
      assert x[i] == y[i];
    }
  }

  lemma XorCancels(a: nat, c: nat, b: nat, k: nat)
    requires a < Pow2(k) && c < Pow2(k)
    ensures XorNat(a, b, k) == XorNat(c, b, k) ==> a == c
    ensures XorNat(b, a, k) == XorNat(b, c, k) ==> a == c
  {
    hide Bits, XorNat;
    if XorNat(a, b, k) == XorNat(c, b, k) {
      XorNatInjective(a, b, c, b, k);
      assert Bits(a, k) == Bits(c, k);
      BitsInjective(a, c, k);
    }
    if XorNat(b, a, k) == XorNat(b, c, k) {
      XorNatInjective(b, a, b, c, k);
      assert Bits(a, k) == Bits(c, k);
      BitsInjective(a, c, k);
    }
  }

  /** Bit `i` of `n / 2^j` is bit `i + j` of `n`. */
  lemma {:induction false} ShiftedBit(n: nat, j: nat, k: nat, i: nat)
    requires i < k && n < Pow2(k)
    ensures Bits(n / Pow2(j), k)[i] == (i + j < k && Bits(n, k)[i + j])
    decreases j
  {
    if j == 0 {
      assert n / 1 == n;
    } else {
      HalfOfQuotient(n, j);
      ShiftedBit(n / 2, j - 1, k, i);
      if i + j < k {
        NextBit(n, k, i + j - 1);
      } else if i + j - 1 < k {
        TopBitClear(n / 2, k);
      }
    }
  }

  lemma HalfOfQuotient(n: nat, j: nat)
    requires j > 0
    ensures n / Pow2(j) == n / 2 / Pow2(j - 1)
  {
    var p := Pow2(j - 1);
    var q, r := n / 2 / p, n / 2 % p;
    assert n / 2 == p * q + r;
    assert n == (2 * p) * q + (2 * r + n % 2);
    QuotientIs(n, 2 * p, q, 2 * r + n % 2);
  }

  lemma TimesMonotone(d: nat, a: int, b: int)
    requires a <= b
    ensures d * a <= d * b
  {
    assert d * (b - a) >= 0;
  }

  lemma QuotientIs(n: int, d: int, q: int, r: int)
    requires 0 <= r < d && n == d * q + r
    ensures n / d == q
  {
    var p := n / d;
    assert d * p <= n < d * p + d;
    if q < p {
      TimesMonotone(d, q + 1, p);
    } else if p < q {
      TimesMonotone(d, p + 1, q);
    }
  }

  lemma {:induction false} NextBit(n: nat, k: nat, i: nat)
    requires i + 1 < k
    ensures Bits(n / 2, k)[i] == Bits(n, k)[i + 1]
    decreases i
  {
    assert Bits(n, k)[i + 1] == Bits(n / 2, k - 1)[i];
    ShorterBits(n / 2, k - 1, k, i);
  }

  lemma {:induction false} ShorterBits(n: nat, k: nat, l: nat, i: nat)
    requires i < k <= l
    ensures Bits(n, k)[i] == Bits(n, l)[i]
    decreases i
  {
    if i > 0 {
      ShorterBits(n / 2, k - 1, l - 1, i - 1);
    }
  }

  lemma {:induction false} TopBitClear(n: nat, k: nat)
    requires k > 0 && n < Pow2(k - 1)
    ensures !Bits(n, k)[k - 1]
    decreases k
  {
    if k > 1 {
      TopBitClear(n / 2, k - 1);
    }
  }

  // ---- One mixing step ----

  lemma WordSpan()
    ensures Pow2(64) == SPAN && Pow2(32) == 0x1_0000_0000
  {
    assert Pow2(8) == 0x100;
    assert Pow2(16) == 0x100 * Pow2(8);
    assert Pow2(24) == 0x100 * Pow2(16);
    assert Pow2(32) == 0x100 * Pow2(24);
    assert Pow2(40) == 0x100 * Pow2(32);
    assert Pow2(48) == 0x100 * Pow2(40);
    assert Pow2(56) == 0x100 * Pow2(48);
    assert Pow2(64) == 0x100 * Pow2(56);
  }

  /** `word ^= byte; word *= PRIME; word ^= word >> 32` */
  function Mix(w: u64, b: byte): u64 {
    hide Bits, FromBits, Pow2;
    WordSpan();
    var product := XorNat(w, b, 64) * PRIME % SPAN;
    XorNat(product, product / 0x1_0000_0000, 64)
  }

  lemma MultiplyInjective(x: nat, y: nat)
    requires x < SPAN && y < SPAN && x * PRIME % SPAN == y * PRIME % SPAN
    ensures x == y
  {
    Undo(x);
    Undo(y);
  }

  lemma Undo(x: nat)
    requires x < SPAN
    ensures x * PRIME % SPAN * INVERSE % SPAN == x
  {
    var q, r := x * PRIME / SPAN, x * PRIME % SPAN;
    assert PRIME * INVERSE == 1 + SPAN * (PRIME * INVERSE / SPAN);
    var k := PRIME * INVERSE / SPAN;
    assert r == x * PRIME - SPAN * q;
    assert r * INVERSE == x * (PRIME * INVERSE) - SPAN * (q * INVERSE);
    assert r * INVERSE == SPAN * (x * k - q * INVERSE) + x;
    RemainderIs(r * INVERSE, SPAN, x * k - q * INVERSE, x);
  }

  lemma RemainderIs(n: int, d: int, q: int, r: int)
    requires 0 <= r < d && n == d * q + r
    ensures n % d == r
  {
    QuotientIs(n, d, q, r);
  }

  lemma FoldDownInjective(x: nat, y: nat)
    requires x < SPAN && y < SPAN
    requires XorNat(x, x / 0x1_0000_0000, 64) == XorNat(y, y / 0x1_0000_0000, 64)
    ensures x == y
  {
    hide Bits, FromBits, Pow2, XorNat;
    WordSpan();
    var s, t := Bits(x, 64), Bits(y, 64);
    XorNatInjective(x, x / 0x1_0000_0000, y, y / 0x1_0000_0000, 64);
    forall i | 0 <= i < 64
      ensures Bits(x / 0x1_0000_0000, 64)[i] == (i + 32 < 64 && s[i + 32])
      ensures Bits(y / 0x1_0000_0000, 64)[i] == (i + 32 < 64 && t[i + 32])
    {
      ShiftedBit(x, 32, 64, i);
      ShiftedBit(y, 32, 64, i);
    }
    assert forall i :: 32 <= i < 64 ==> s[i] == t[i];
    forall i | 0 <= i < 32
      ensures s[i] == t[i]
    {
      assert s[i + 32] == t[i + 32];
    }
    BitsInjective(x, y, 64);
  }

  /** A step loses nothing: neither of the word, nor of the byte. */
  lemma MixInjective(v: u64, w: u64, b: byte, c: byte)
    requires Mix(v, b) == Mix(w, c)
    ensures b == c ==> v == w
    ensures v == w ==> b == c
  {
    hide Bits, FromBits, Pow2, XorNat;
    WordSpan();
    var x, y := XorNat(v, b, 64), XorNat(w, c, 64);
    FoldDownInjective(x * PRIME % SPAN, y * PRIME % SPAN);
    MultiplyInjective(x, y);
    XorCancels(v, w, b, 64);
    XorCancels(b, c, v, 64);
  }

  // ---- The digest ----

  function Fold(w: u64, s: seq<byte>): u64
    decreases |s|
  {
    if s == [] then w else Fold(Mix(w, s[0]), s[1..])
  }

  function DigestOf(domain: seq<byte>, data: seq<byte>): Digest {
    var input := domain + [0xff] + data;
    Digest(Fold(SEED.w0, input), Fold(SEED.w1, input), Fold(SEED.w2, input), Fold(SEED.w3, input))
  }

  method DigestBytes(domain: seq<byte>, data: seq<byte>) returns (d: Digest)
    ensures d == DigestOf(domain, data)
  {
    hide Mix;
    ghost var input := domain + [0xff] + data;
    d := MixAll(SEED, domain);
    FoldFold(domain, [0xff] + data);
    d := MixAll(d, [0xff]);
    FoldFold([0xff], data);
    d := MixAll(d, data);
    assert input == domain + ([0xff] + data);
  }

  /** The mixing loop: every byte goes into all four words. */
  method MixAll(start: Digest, s: seq<byte>) returns (d: Digest)
    ensures d == Digest(Fold(start.w0, s), Fold(start.w1, s), Fold(start.w2, s), Fold(start.w3, s))
  {
    hide Mix;
    d := start;
    for i := 0 to |s|
      invariant Fold(d.w0, s[i..]) == Fold(start.w0, s) && Fold(d.w1, s[i..]) == Fold(start.w1, s)
      invariant Fold(d.w2, s[i..]) == Fold(start.w2, s) && Fold(d.w3, s[i..]) == Fold(start.w3, s)
    {
      assert s[i..][1..] == s[i + 1..];
      d := Digest(Mix(d.w0, s[i]), Mix(d.w1, s[i]), Mix(d.w2, s[i]), Mix(d.w3, s[i]));
    }
  }

  lemma {:induction false} FoldFold(s: seq<byte>, t: seq<byte>)
    ensures forall w :: Fold(w, s + t) == Fold(Fold(w, s), t)
    decreases |s|
  {
    hide Mix;
    if s == [] {
      assert s + t == t;
    } else {
      assert (s + t)[1..] == s[1..] + t;
      FoldFold(s[1..], t);
    }
  }

  lemma {:induction false} FoldInjective(v: u64, w: u64, s: seq<byte>)
    requires Fold(v, s) == Fold(w, s)
    ensures v == w
    decreases |s|
  {
    hide Mix;
    if s != [] {
      FoldInjective(Mix(v, s[0]), Mix(w, s[0]), s[1..]);
      MixInjective(v, w, s[0], s[0]);
    }
  }

  lemma OneByteShows(w: u64, before: seq<byte>, x: byte, y: byte, after: seq<byte>)
    requires x != y
    ensures Fold(w, before + [x] + after) != Fold(w, before + [y] + after)
  {
    hide Mix;
    FoldFold(before + [x], after);
    FoldFold(before + [y], after);
    FoldFold(before, [x]);
    FoldFold(before, [y]);
    var v := Fold(w, before);
    assert Fold(v, [x]) == Mix(v, x) && Fold(v, [y]) == Mix(v, y);
    if Fold(w, before + [x] + after) == Fold(w, before + [y] + after) {
      FoldInjective(Mix(v, x), Mix(v, y), after);
      MixInjective(v, v, x, y);
    }
  }

  /** Domains that differ in exactly one byte give digests that differ in all four words, whatever the data. */
  lemma DomainChangesEveryWord(before: seq<byte>, x: byte, y: byte, after: seq<byte>, data: seq<byte>)
    requires x != y
    ensures var d, e := DigestOf(before + [x] + after, data), DigestOf(before + [y] + after, data);
      d.w0 != e.w0 && d.w1 != e.w1 && d.w2 != e.w2 && d.w3 != e.w3
  {
    hide Fold;
    var q := after + [0xff] + data;
    assert before + [x] + after + [0xff] + data == before + [x] + q;
    assert before + [y] + after + [0xff] + data == before + [y] + q;
    OneByteShows(SEED.w0, before, x, y, q);
    OneByteShows(SEED.w1, before, x, y, q);
    OneByteShows(SEED.w2, before, x, y, q);
    OneByteShows(SEED.w3, before, x, y, q);
  }

  /** Inputs of one domain that differ in exactly one byte have digests that differ in all four words. */
  lemma OneByteChangesEveryWord(domain: seq<byte>, before: seq<byte>, x: byte, y: byte, after: seq<byte>)
    requires x != y
    ensures var d, e := DigestOf(domain, before + [x] + after), DigestOf(domain, before + [y] + after);
      d.w0 != e.w0 && d.w1 != e.w1 && d.w2 != e.w2 && d.w3 != e.w3
  {
    hide Fold;
    var p := domain + [0xff] + before;
    assert domain + [0xff] + (before + [x] + after) == p + [x] + after;
    assert domain + [0xff] + (before + [y] + after) == p + [y] + after;
    OneByteShows(SEED.w0, p, x, y, after);
    OneByteShows(SEED.w1, p, x, y, after);
    OneByteShows(SEED.w2, p, x, y, after);
    OneByteShows(SEED.w3, p, x, y, after);
  }
}
