/**
  CRC32C as a remainder, in the words of section 12.1 of RFC 3720: the message is a polynomial over the
  field of two elements whose highest coefficient is sent first, its first 32 coefficients are inverted,
  it is multiplied by x^32 and divided by the generator, and the remainder is inverted.

  Nothing here uses the shift register until `RegisterDivides`.
 */
module CrcDivision {
  import opened Words
  import opened Crc

  /** Coefficients, highest power first. */
  type Poly = seq<bool>

  function Zero(n: nat): (p: Poly)
    ensures |p| == n
  {
    seq(n, _ => false)
  }

  function Ones(n: nat): (p: Poly)
    ensures |p| == n
  {
    seq(n, _ => true)
  }

  function Add(p: Poly, q: Poly): (r: Poly)
    requires |p| == |q|
    ensures |r| == |p|
  {
    seq(|p|, i requires 0 <= i < |p| => p[i] != q[i])
  }

  /** The product, written with all of its |p| + |g| - 1 coefficients. */
  function Multiply(p: Poly, g: Poly): (r: Poly)
    requires g != []
    ensures |r| == |p| + |g| - 1
  {
    if p == [] then Zero(|g| - 1)
    else Add((if p[0] then g else Zero(|g|)) + Zero(|p| - 1), [false] + Multiply(p[1..], g))
  }

  /** The powers of x in the generator 0x1_1edc_6f41. */
  const POWERS: set<int> := {32, 28, 27, 26, 25, 23, 22, 20, 19, 18, 14, 13, 11, 10, 9, 8, 6, 0}

  function Generator(): (g: Poly)
    ensures |g| == 33
  {
    seq(33, i => 32 - i in POWERS)
  }

  /** Quotient times generator plus remainder. */
  function Recombined(q: Poly, r: Poly): (p: Poly)
    requires |r| == 32
    ensures |p| == |q| + 32
  {
    Add(Multiply(q, Generator()), Zero(|q|) + r)
  }

  /** `r` is what division of `p` by the generator leaves. */
  ghost predicate IsRemainder(p: Poly, r: Poly) {
    |r| == 32 && exists q: Poly :: p == Recombined(q, r)
  }

  // ---- There is one remainder ----

  lemma GeneratorTop()
    ensures Generator()[0]
  {
  }

  lemma LeadingTerm(q: Poly, r: Poly)
    requires q != [] && |r| == 32
    ensures Recombined(q, r)[0] == q[0]
  {
    hide Generator;
    GeneratorTop();
  }

  /** Beyond the leading term a recombination is that of the shorter quotient, plus the generator or not. */
  lemma TailTerm(q: Poly, r: Poly, i: nat)
    requires q != [] && |r| == 32 && i < |q| + 31
    ensures Recombined(q, r)[i + 1] == (Recombined(q[1..], r)[i] != (q[0] && i < 32 && Generator()[i + 1]))
  {
    hide Generator, Multiply;
    var n, g := |q|, Generator();
    ProductTail(q, g, i);
    assert (Zero(n) + r)[i + 1] == (Zero(n - 1) + r)[i];
  }

  lemma ProductUnfolds(q: Poly, g: Poly)
    requires q != [] && g != []
    ensures Multiply(q, g) == Add((if q[0] then g else Zero(|g|)) + Zero(|q| - 1), [false] + Multiply(q[1..], g))
  {
  }

  lemma ProductTail(q: Poly, g: Poly, i: nat)
    requires q != [] && |g| == 33 && i < |q| + 31
    ensures Multiply(q, g)[i + 1] == (Multiply(q[1..], g)[i] != (q[0] && i < 32 && g[i + 1]))
  {
    hide Multiply;
    ProductUnfolds(q, g);
    var top, zeros, rest := if q[0] then g else Zero(33), Zero(|q| - 1), Multiply(q[1..], g);
    var head, tail := top + zeros, [false] + rest;
    assert tail[i + 1] == rest[i];
    if i < 32 {
      assert head[i + 1] == top[i + 1];
    } else {
      assert head[i + 1] == zeros[i - 32];
    }
  }

  lemma NoQuotient(r: Poly)
    requires |r| == 32
    ensures Recombined([], r) == r
  {
    hide Generator;
    var p := Recombined([], r);
    assert forall i :: 0 <= i < 32 ==> p[i] == r[i];
  }

  lemma {:induction false} RemainderUnique(q: Poly, r: Poly, q': Poly, r': Poly)
    requires |q| == |q'| && |r| == |r'| == 32 && Recombined(q, r) == Recombined(q', r')
    ensures q == q' && r == r'
  {
    hide Generator, Recombined;
    if q == [] {
      NoQuotient(r);
      NoQuotient(r');
    } else {
      LeadingTerm(q, r);
      LeadingTerm(q', r');
      var a, b := Recombined(q[1..], r), Recombined(q'[1..], r');
      forall i | 0 <= i < |a|
        ensures a[i] == b[i]
      {
        TailTerm(q, r, i);
        TailTerm(q', r', i);
      }
      RemainderUnique(q[1..], r, q'[1..], r');
      assert q == [q[0]] + q[1..] && q' == [q'[0]] + q'[1..];
    }
  }

  // ---- The shift register divides ----

  lemma GeneratorIsPolynomial()
    ensures forall i :: 0 <= i < 32 ==> Generator()[i + 1] == POLYNOMIAL[i]
  {
    forall i | 0 <= i < 32
      ensures Generator()[i + 1] == POLYNOMIAL[i]
    {
      assert Generator()[i + 1] == (31 - i in POWERS);
      PowerBit(i);
    }
  }

  lemma PowerBit(i: nat)
    requires i < 32
    ensures POLYNOMIAL[i] == (31 - i in POWERS)
  {
  }

  /** The bits that drop out of the register. */
  function Dropped(c: Register, s: seq<bool>): (q: Poly)
    ensures |q| == |s|
    decreases |s|
  {
    if s == [] then [] else [c[0] != s[0]] + Dropped(BitIn(c, s[0]), s[1..])
  }

  /** The message times x^32 plus the start value in its first coefficients. */
  function Started(c: Register, s: seq<bool>): (p: Poly)
    ensures |p| == |s| + 32
  {
    Add(s + Zero(32), c + Zero(|s|))
  }

  lemma BitInBits(c: Register, bit: bool, i: nat)
    requires i < 32
    ensures BitIn(c, bit)[i] == ((i < 31 && c[i + 1]) != ((c[0] != bit) && POLYNOMIAL[i]))
  {
    var a := AddLow(c, [bit]);
    assert a[0] == (c[0] != bit);
    if i < 31 {
      assert ShiftRight(a)[i] == a[i + 1] == c[i + 1];
    } else {
      assert !ShiftRight(a)[i];
    }
  }

  /** The register ends as the remainder; what dropped out of it on the way is the quotient. */
  lemma {:induction false} RegisterDivides(c: Register, s: seq<bool>)
    ensures Started(c, s) == Recombined(Dropped(c, s), Run(c, s))
    decreases |s|
  {
    hide Generator, BitIn, Started, Recombined;
    var q, r := Dropped(c, s), Run(c, s);
    var p, l := Started(c, s), Recombined(q, r);
    if s == [] {
      NoQuotient(r);
      NothingStarted(c);
    } else {
      RegisterDivides(BitIn(c, s[0]), s[1..]);
      assert q[0] == (c[0] != s[0]) && q[1..] == Dropped(BitIn(c, s[0]), s[1..]);
      GeneratorIsPolynomial();
      forall j | 0 <= j < |p|
        ensures p[j] == l[j]
      {
        if j == 0 {
          LeadingTerm(q, r);
          StartedHead(c, s);
        } else {
          TailTerm(q, r, j - 1);
          StartedTail(c, s, j - 1);
        }
      }
    }
  }

  lemma NothingStarted(c: Register)
    ensures Started(c, []) == c
  {
    var p := Started(c, []);
    assert forall i :: 0 <= i < 32 ==> p[i] == c[i];
  }

  lemma StartedHead(c: Register, s: seq<bool>)
    requires s != []
    ensures Started(c, s)[0] == (c[0] != s[0])
  {
  }

  lemma StartedTail(c: Register, s: seq<bool>, i: nat)
    requires s != [] && i < |s| + 31
    ensures var p, p' := Started(c, s), Started(BitIn(c, s[0]), s[1..]);
      p[i + 1] == (p'[i] != ((c[0] != s[0]) && i < 32 && POLYNOMIAL[i]))
  {
    hide BitIn;
    var c', s', n := BitIn(c, s[0]), s[1..], |s|;
    assert (s + Zero(32))[i + 1] == (s' + Zero(32))[i];
    if i < 32 {
      BitInBits(c, s[0], i);
      assert (c + Zero(n))[i + 1] == (i < 31 && c[i + 1]);
      assert (c' + Zero(n - 1))[i] == c'[i];
    } else {
      assert !(c + Zero(n))[i + 1] && !(c' + Zero(n - 1))[i];
    }
  }

  lemma {:induction false} AllOnes(k: nat)
    ensures Bits(Pow2(k) - 1, k) == Ones(k)
  {
    if k > 0 {
      AllOnes(k - 1);
      assert (Pow2(k) - 1) % 2 == 1 && (Pow2(k) - 1) / 2 == Pow2(k - 1) - 1;
      assert Ones(k) == [true] + Ones(k - 1);
    }
  }

  lemma OnesAre()
    ensures ONES == Ones(32)
  {
    hide Bits;
    assert Pow2(8) == 0x100;
    assert Pow2(16) == 0x100 * Pow2(8);
    assert Pow2(24) == 0x100 * Pow2(16);
    assert Pow2(32) == 0x100 * Pow2(24);
    AllOnes(32);
  }

  /** The message with its first 32 coefficients inverted, times x^32. */
  function Dividend(m: seq<bool>): (p: Poly)
    ensures |p| == |m| + 32
  {
    Add(m + Zero(32), Ones(32) + Zero(|m|))
  }

  /**
    The law of CRC32C, for every message: the four stored bytes, in the order they are sent, are the inverted
    remainder of the division; and no other word is.
   */
  lemma StoredIsRemainder(message: seq<byte>, r: Poly)
    requires |r| == 32
    ensures IsRemainder(Dividend(MessageBits(message)), r) <==>
      MessageBits(Le(Crc32c(message), 4)) == Add(r, Ones(32))
  {
    hide Recombined, MessageBits, Run, Bits, ToWord, Le;
    var m := MessageBits(message);
    var c, p, q := Run(ONES, m), Dividend(m), Dropped(ONES, m);
    OnesAre();
    RegisterDivides(ONES, m);
    StoredBits(Complement(c));
    assert p == Started(ONES, m) == Recombined(q, c);
    Inverse(c, r);
    if IsRemainder(p, r) {
      var q': Poly :| p == Recombined(q', r);
      RemainderUnique(q, c, q', r);
    }
  }

  lemma Inverse(c: Register, r: Poly)
    requires |r| == 32
    ensures Complement(c) == Add(r, Ones(32)) <==> c == r
  {
    if Complement(c) == Add(r, Ones(32)) {
      forall i | 0 <= i < 32
        ensures c[i] == r[i]
      {
        assert Complement(c)[i] == Add(r, Ones(32))[i];
      }
    }
  }
}
