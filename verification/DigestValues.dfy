/**
  One digest computed out: the empty data in the empty domain, which pins the seeds, the separator and the
  mixing step.
 */
module DigestValues {
  import opened Words
  import opened Crc
  import opened Digests

  // ---- Exclusive or of numbers, four bits at a time ----

  function XorLow(a: nat, b: nat): nat {
    if a % 2 != b % 2 then 1 else 0
  }

  function XorFour(a: nat, b: nat): nat {
    XorLow(a, b) + 2 * XorLow(a / 2, b / 2) + 4 * XorLow(a / 4, b / 4) + 8 * XorLow(a / 8, b / 8)
  }

  lemma XorStep(a: nat, b: nat, k: nat)
    ensures XorNat(a, b, k + 1) == XorLow(a, b) + 2 * XorNat(a / 2, b / 2, k)
  {
    var s, t := Bits(a, k + 1), Bits(b, k + 1);
    assert s[1..] == Bits(a / 2, k) && t[1..] == Bits(b / 2, k);
    assert XorBits(s, t)[1..] == XorBits(s[1..], t[1..]);
  }

  lemma FourSteps(a: nat, b: nat, k: nat)
    ensures XorNat(a, b, k + 4) == XorFour(a, b) + 16 * XorNat(a / 16, b / 16, k)
  {
    hide XorNat, XorLow;
    assert a / 2 / 2 == a / 4 && a / 4 / 2 == a / 8 && a / 8 / 2 == a / 16;
    assert b / 2 / 2 == b / 4 && b / 4 / 2 == b / 8 && b / 8 / 2 == b / 16;
    XorStep(a, b, k + 3);
    XorStep(a / 2, b / 2, k + 2);
    XorStep(a / 4, b / 4, k + 1);
    XorStep(a / 8, b / 8, k);
  }

  lemma {:induction false} XorZero(a: nat, k: nat)
    requires a < Pow2(k)
    ensures XorNat(a, 0, k) == a
  {
    hide XorNat;
    if k == 0 {
      NoXor(a);
    } else {
      XorStep(a, 0, k - 1);
      XorZero(a / 2, k - 1);
    }
  }

  lemma NoXor(a: nat)
    ensures XorNat(a, 0, 0) == 0
  {
  }

  /** The exclusive or of the low bytes. */
  function XorByte(a: nat, b: nat): nat {
    (if a % 2 != b % 2 then 0x01 else 0) + (if a / 0x02 % 2 != b / 0x02 % 2 then 0x02 else 0)
    + (if a / 0x04 % 2 != b / 0x04 % 2 then 0x04 else 0) + (if a / 0x08 % 2 != b / 0x08 % 2 then 0x08 else 0)
    + (if a / 0x10 % 2 != b / 0x10 % 2 then 0x10 else 0) + (if a / 0x20 % 2 != b / 0x20 % 2 then 0x20 else 0)
    + (if a / 0x40 % 2 != b / 0x40 % 2 then 0x40 else 0) + (if a / 0x80 % 2 != b / 0x80 % 2 then 0x80 else 0)
  }

  lemma TwoNibbles(a: nat, b: nat)
    ensures XorByte(a, b) == XorFour(a, b) + 16 * XorFour(a / 16, b / 16)
  {
    assert a / 16 / 2 == a / 0x20 && a / 16 / 4 == a / 0x40 && a / 16 / 8 == a / 0x80;
    assert b / 16 / 2 == b / 0x20 && b / 16 / 4 == b / 0x40 && b / 16 / 8 == b / 0x80;
  }

  lemma EightSteps(a: nat, b: nat, k: nat)
    ensures XorNat(a, b, k + 8) == XorByte(a, b) + 0x100 * XorNat(a / 0x100, b / 0x100, k)
  {
    hide XorNat, XorFour, XorByte;
    TwoNibbles(a, b);
    FourSteps(a, b, k + 4);
    FourSteps(a / 16, b / 16, k);
    assert a / 16 / 16 == a / 0x100 && b / 16 / 16 == b / 0x100;
  }

  /** `w ^ b` changes the low byte only. */
  lemma XorWithByte(w: u64, b: byte)
    ensures XorNat(w, b, 64) == XorByte(w, b) + 0x100 * (w / 0x100)
  {
    hide XorNat, XorByte;
    EightSteps(w, b, 56);
    Spans56();
    XorZero(w / 0x100, 56);
  }

  lemma Spans56()
    ensures Pow2(56) == 0x100_0000_0000_0000 && Pow2(32) == 0x1_0000_0000
  {
    hide Pow2;
    WordSpan();
    HalfSpan();
  }

  lemma HalfSpan()
    ensures Pow2(64) == 0x100 * Pow2(56)
  {
    assert Pow2(64) == 0x10 * Pow2(60);
    assert Pow2(60) == 0x10 * Pow2(56);
  }

  /** A word and a half word, byte by byte from the low end, and what their exclusive or comes to. */
  datatype Part = Part(w: nat, h: nat, r: nat)

  /** The byte that comes next, above the exclusive or `r` of what is above. */
  predicate Joins(f: Part, above: Part) {
    && f.w / 0x100 == above.w && f.h / 0x100 == above.h
    && f.r == XorByte(f.w, f.h) + 0x100 * above.r
  }

  /** `w ^ h` for a half word `h` changes the lower half only. */
  lemma XorWithHalf(f: Part, f1: Part, f2: Part, f3: Part, top: Part)
    requires top.w == top.r < 0x1_0000_0000 && top.h == 0
    requires Joins(f3, top) && Joins(f2, f3) && Joins(f1, f2) && Joins(f, f1)
    ensures XorNat(f.w, f.h, 64) == f.r
  {
    hide XorNat, XorByte;
    EightSteps(f.w, f.h, 56);
    EightSteps(f1.w, f1.h, 48);
    EightSteps(f2.w, f2.h, 40);
    EightSteps(f3.w, f3.h, 32);
    Spans56();
    XorZero(top.w, 32);
  }

  // ---- The four words after the separator ----

  lemma MixIs(w: u64, b: byte, x: u64, y: u64, z: u64)
    requires XorNat(w, b, 64) == x && x * PRIME % SPAN == y && XorNat(y, y / 0x1_0000_0000, 64) == z
    ensures Mix(w, b) == z
  {
    hide XorNat;
  }

  lemma FirstLow()
    ensures XorByte(0x14650fb0739d0383, 0xff) == 0x7c
    ensures XorByte(0x44bd24d473ccebb4, 0x44bd24d4) == 0x60
  {
  }

  lemma FirstHigh()
    ensures XorByte(0x44bd24d473cceb, 0x44bd24) == 0xcf
    ensures XorByte(0x44bd24d473cc, 0x44bd) == 0x71
    ensures XorByte(0x44bd24d473, 0x44) == 0x37
  {
  }

  lemma FirstFold()
    ensures XorNat(0x44bd24d473ccebb4, 0x44bd24d4, 64) == 0x44bd24d43771cf60
  {
    hide XorNat, XorByte;
    FirstLow();
    FirstHigh();
    var top := Part(0x44bd24d4, 0, 0x44bd24d4);
    var f := Part(0x44bd24d473ccebb4, 0x44bd24d4, 0x44bd24d43771cf60);
    var f1 := Part(0x44bd24d473cceb, 0x44bd24, 0x44bd24d43771cf);
    var f2, f3 := Part(0x44bd24d473cc, 0x44bd, 0x44bd24d43771), Part(0x44bd24d473, 0x44, 0x44bd24d437);
    assert Joins(f, f1) && Joins(f1, f2) && Joins(f2, f3) && Joins(f3, top);
    XorWithHalf(f, f1, f2, f3, top);
  }

  lemma FirstWord()
    ensures Mix(0x14650fb0739d0383, 0xff) == 0x44bd24d43771cf60
  {
    hide XorNat, XorByte, Mix;
    FirstLow();
    XorWithByte(0x14650fb0739d0383, 0xff);
    FirstFold();
    MixIs(0x14650fb0739d0383, 0xff, 0x14650fb0739d037c, 0x44bd24d473ccebb4, 0x44bd24d43771cf60);
  }

  lemma SecondLow()
    ensures XorByte(0x100000001b3, 0xff) == 0x4c
    ensures XorByte(0x2ff0000023424, 0x2ff00) == 0x24
  {
  }

  lemma SecondHigh()
    ensures XorByte(0x2ff00000234, 0x2ff) == 0xcb
    ensures XorByte(0x2ff000002, 0x2) == 0x0
    ensures XorByte(0x2ff0000, 0x0) == 0x0
  {
  }

  lemma SecondFold()
    ensures XorNat(0x2ff0000023424, 0x2ff00, 64) == 0x2ff000000cb24
  {
    hide XorNat, XorByte;
    SecondLow();
    SecondHigh();
    var top := Part(0x2ff00, 0, 0x2ff00);
    var f := Part(0x2ff0000023424, 0x2ff00, 0x2ff000000cb24);
    var f1 := Part(0x2ff00000234, 0x2ff, 0x2ff000000cb);
    var f2, f3 := Part(0x2ff000002, 0x2, 0x2ff000000), Part(0x2ff0000, 0x0, 0x2ff0000);
    assert Joins(f, f1) && Joins(f1, f2) && Joins(f2, f3) && Joins(f3, top);
    XorWithHalf(f, f1, f2, f3, top);
  }

  lemma SecondWord()
    ensures Mix(0x100000001b3, 0xff) == 0x2ff000000cb24
  {
    hide XorNat, XorByte, Mix;
    SecondLow();
    XorWithByte(0x100000001b3, 0xff);
    SecondFold();
    MixIs(0x100000001b3, 0xff, 0x1000000014c, 0x2ff0000023424, 0x2ff000000cb24);
  }

  lemma ThirdLow()
    ensures XorByte(0x6c62272e07bb0142, 0xff) == 0xbd
    ensures XorByte(0xe5ca503722c3f427, 0xe5ca5037) == 0x10
  {
  }

  lemma ThirdHigh()
    ensures XorByte(0xe5ca503722c3f4, 0xe5ca50) == 0xa4
    ensures XorByte(0xe5ca503722c3, 0xe5ca) == 0x9
    ensures XorByte(0xe5ca503722, 0xe5) == 0xc7
  {
  }

  lemma ThirdFold()
    ensures XorNat(0xe5ca503722c3f427, 0xe5ca5037, 64) == 0xe5ca5037c709a410
  {
    hide XorNat, XorByte;
    ThirdLow();
    ThirdHigh();
    var top := Part(0xe5ca5037, 0, 0xe5ca5037);
    var f := Part(0xe5ca503722c3f427, 0xe5ca5037, 0xe5ca5037c709a410);
    var f1 := Part(0xe5ca503722c3f4, 0xe5ca50, 0xe5ca5037c709a4);
    var f2, f3 := Part(0xe5ca503722c3, 0xe5ca, 0xe5ca5037c709), Part(0xe5ca503722, 0xe5, 0xe5ca5037c7);
    assert Joins(f, f1) && Joins(f1, f2) && Joins(f2, f3) && Joins(f3, top);
    XorWithHalf(f, f1, f2, f3, top);
  }

  lemma ThirdWord()
    ensures Mix(0x6c62272e07bb0142, 0xff) == 0xe5ca5037c709a410
  {
    hide XorNat, XorByte, Mix;
    ThirdLow();
    XorWithByte(0x6c62272e07bb0142, 0xff);
    ThirdFold();
    MixIs(0x6c62272e07bb0142, 0xff, 0x6c62272e07bb01bd, 0xe5ca503722c3f427, 0xe5ca5037c709a410);
  }

  lemma FourthLow()
    ensures XorByte(0x165667b19e3779f9, 0xff) == 0x6
    ensures XorByte(0x2c4b38cfd842a532, 0x2c4b38cf) == 0xfd
  {
  }

  lemma FourthHigh()
    ensures XorByte(0x2c4b38cfd842a5, 0x2c4b38) == 0x9d
    ensures XorByte(0x2c4b38cfd842, 0x2c4b) == 0x9
    ensures XorByte(0x2c4b38cfd8, 0x2c) == 0xf4
  {
  }

  lemma FourthFold()
    ensures XorNat(0x2c4b38cfd842a532, 0x2c4b38cf, 64) == 0x2c4b38cff4099dfd
  {
    hide XorNat, XorByte;
    FourthLow();
    FourthHigh();
    var top := Part(0x2c4b38cf, 0, 0x2c4b38cf);
    var f := Part(0x2c4b38cfd842a532, 0x2c4b38cf, 0x2c4b38cff4099dfd);
    var f1 := Part(0x2c4b38cfd842a5, 0x2c4b38, 0x2c4b38cff4099d);
    var f2, f3 := Part(0x2c4b38cfd842, 0x2c4b, 0x2c4b38cff409), Part(0x2c4b38cfd8, 0x2c, 0x2c4b38cff4);
    assert Joins(f, f1) && Joins(f1, f2) && Joins(f2, f3) && Joins(f3, top);
    XorWithHalf(f, f1, f2, f3, top);
  }

  lemma FourthWord()
    ensures Mix(0x165667b19e3779f9, 0xff) == 0x2c4b38cff4099dfd
  {
    hide XorNat, XorByte, Mix;
    FourthLow();
    XorWithByte(0x165667b19e3779f9, 0xff);
    FourthFold();
    MixIs(0x165667b19e3779f9, 0xff, 0x165667b19e377906, 0x2c4b38cfd842a532, 0x2c4b38cff4099dfd);
  }

  /** The digest of no data in the domain without a name. */
  lemma EmptyDigest()
    ensures DigestOf([], []) == Digest(0x44bd24d43771cf60, 0x2ff000000cb24, 0xe5ca5037c709a410, 0x2c4b38cff4099dfd)
  {
    hide Mix;
    FirstWord();
    SecondWord();
    ThirdWord();
    FourthWord();
    assert [] + [0xff] + [] == [0xff] && [0xff][1..] == [];
    assert forall w :: Fold(w, [0xff]) == Fold(Mix(w, 0xff), []) == Mix(w, 0xff);
  }
}
