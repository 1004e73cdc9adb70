/**
  The published check values of CRC32C, computed with the 32-bit machine operations of the source.
 */
module CrcValues {
  import opened Words
  import opened Crc
  import opened CrcDivision
  import opened Envelope

  // ---- Machine words as bits ----

  function Low(b: bv32): bool {
    b & 1 == 1
  }

  function Half(b: bv32): bv32 {
    b >> 1
  }

  function Plus(a: bv32, b: bv32): bv32 {
    a ^ b
  }

  /** The low `k` bits, least significant first. */
  function WordBits(b: bv32, k: nat): (s: seq<bool>)
    ensures |s| == k
  {
    if k == 0 then [] else [Low(b)] + WordBits(Half(b), k - 1)
  }

  function Reg(b: bv32): Register {
    WordBits(b, 32)
  }

  function Shr(b: bv32, n: nat): bv32 {
    if n == 0 then b else Shr(Half(b), n - 1)
  }

  lemma XorLow(a: bv32, b: bv32)
    ensures Low(Plus(a, b)) == (Low(a) != Low(b)) && Half(Plus(a, b)) == Plus(Half(a), Half(b))
  {
  }

  lemma WordBitsUnfold(b: bv32, k: nat)
    requires k > 0
    ensures WordBits(b, k)[0] == Low(b)
    ensures forall i :: 1 <= i < k ==> WordBits(b, k)[i] == WordBits(Half(b), k - 1)[i - 1]
  {
    hide Low, Half;
  }

  lemma {:induction false} XorBit(a: bv32, b: bv32, k: nat, i: nat)
    requires i < k
    ensures WordBits(Plus(a, b), k)[i] == (WordBits(a, k)[i] != WordBits(b, k)[i])
    decreases k
  {
    hide Low, Half, Plus, WordBits;
    XorLow(a, b);
    WordBitsUnfold(a, k);
    WordBitsUnfold(b, k);
    WordBitsUnfold(Plus(a, b), k);
    if i > 0 {
      XorBit(Half(a), Half(b), k - 1, i - 1);
    }
  }

  /** Bit `i` is the low bit after `i` shifts. */
  lemma {:induction false} BitAt(b: bv32, k: nat, i: nat)
    requires i < k
    ensures WordBits(b, k)[i] == Low(Shr(b, i))
    decreases k
  {
    hide Low, Half;
    if i > 0 {
      BitAt(Half(b), k - 1, i - 1);
    }
  }

  lemma {:induction false} ShrShr(b: bv32, m: nat, n: nat)
    ensures Shr(b, m + n) == Shr(Shr(b, m), n)
    decreases m
  {
    hide Half;
    if m > 0 {
      ShrShr(Half(b), m - 1, n);
    }
  }

  function Down(b: bv32): bv32 {
    b >> 8
  }

  lemma HalfEight(b: bv32)
    ensures Half(Half(Half(Half(Half(Half(Half(Half(b)))))))) == Down(b)
  {
  }

  lemma DownFour(b: bv32)
    ensures Down(Down(Down(Down(b)))) == 0
  {
  }

  lemma ShrEight(b: bv32)
    ensures Shr(b, 8) == Down(b)
  {
    hide Half, Down;
    HalfEight(b);
    var b2 := Half(Half(b));
    var b4 := Half(Half(b2));
    var b6 := Half(Half(b4));
    var b8 := Half(Half(b6));
    assert Shr(b, 8) == Shr(Half(b), 7) == Shr(b2, 6);
    assert Shr(b2, 6) == Shr(Half(b2), 5) == Shr(b4, 4);
    assert Shr(b4, 4) == Shr(Half(b4), 3) == Shr(b6, 2);
    assert Shr(b6, 2) == Shr(Half(b6), 1) == Shr(b8, 0);
  }

  lemma ShrBytes(b: bv32)
    ensures Shr(b, 8) == Down(b) && Shr(b, 16) == Down(Down(b)) && Shr(b, 24) == Down(Down(Down(b))) && Shr(b, 32) == 0
  {
    hide Shr, Down;
    ShrEight(b);
    ShrShr(b, 8, 8);
    ShrEight(Down(b));
    ShrShr(b, 16, 8);
    ShrEight(Down(Down(b)));
    ShrShr(b, 24, 8);
    ShrEight(Down(Down(Down(b))));
    DownFour(b);
  }

  lemma ShiftIs(b: bv32)
    ensures ShiftRight(Reg(b)) == Reg(Half(b))
  {
    hide WordBits, Low, Half;
    var l, r := ShiftRight(Reg(b)), Reg(Half(b));
    forall i | 0 <= i < 32
      ensures l[i] == r[i]
    {
      BitAt(Half(b), 32, i);
      if i < 31 {
        BitAt(b, 32, i + 1);
        assert l[i] == Reg(b)[i + 1];
      } else {
        ShrBytes(b);
        assert Shr(b, 32) == Shr(Half(b), 31);
        ZeroIsEven();
      }
    }
  }

  lemma ZeroIsEven()
    ensures !Low(0)
  {
  }

  lemma XorIs(a: bv32, b: bv32)
    ensures Xor(Reg(a), Reg(b)) == Reg(Plus(a, b))
  {
    hide WordBits, Plus;
    var l, r := Xor(Reg(a), Reg(b)), Reg(Plus(a, b));
    forall i | 0 <= i < 32
      ensures l[i] == r[i]
    {
      XorBit(a, b, 32, i);
    }
  }

  lemma {:induction false} WordBitsSplit(b: bv32, m: nat, n: nat)
    ensures WordBits(b, m + n) == WordBits(b, m) + WordBits(Shr(b, m), n)
    decreases m
  {
    hide Low, Half;
    if m == 0 {
      assert WordBits(b, 0) + WordBits(b, n) == WordBits(b, n);
    } else {
      WordBitsSplit(Half(b), m - 1, n);
    }
  }

  function FourOf(b: bv32): (s: seq<bool>)
    ensures |s| == 4
  {
    [Low(b), Low(Half(b)), Low(Half(Half(b))), Low(Half(Half(Half(b))))]
  }

  lemma FourBits(b: bv32)
    ensures WordBits(b, 4) == FourOf(b)
    ensures Shr(b, 4) == Half(Half(Half(Half(b))))
  {
    hide Low, Half;
    var b1, b2 := Half(b), Half(Half(b));
    var b3 := Half(b2);
    assert WordBits(b3, 1) == [Low(b3)] + WordBits(Half(b3), 0);
    assert WordBits(b2, 2) == [Low(b2)] + WordBits(b3, 1);
    assert WordBits(b1, 3) == [Low(b1)] + WordBits(b2, 2);
    assert WordBits(b, 4) == [Low(b)] + WordBits(b1, 3);
    assert Shr(b, 4) == Shr(b1, 3) == Shr(b2, 2) == Shr(b3, 1) == Shr(Half(b3), 0);
  }

  /** The bits of the low byte. */
  function ByteBits(b: bv32): (s: seq<bool>)
    ensures |s| == 8
  {
    FourOf(b) + FourOf(Half(Half(Half(Half(b)))))
  }

  lemma EightBits(b: bv32)
    ensures WordBits(b, 8) == ByteBits(b)
  {
    hide WordBits, Shr, Low, Half, FourOf;
    FourBits(b);
    FourBits(Half(Half(Half(Half(b)))));
    WordBitsSplit(b, 4, 4);
  }

  lemma BytesOf(b: bv32)
    ensures Reg(b) == ByteBits(b) + ByteBits(Down(b)) + ByteBits(Down(Down(b))) + ByteBits(Down(Down(Down(b))))
  {
    hide WordBits, Shr, Down, ByteBits;
    WordBitsSplit(b, 24, 8);
    WordBitsSplit(b, 16, 8);
    WordBitsSplit(b, 8, 8);
    ShrBytes(b);
    EightBits(b);
    EightBits(Down(b));
    EightBits(Down(Down(b)));
    EightBits(Down(Down(Down(b))));
  }

  lemma PolynomialIs()
    ensures POLYNOMIAL == Reg(0x82f63b78)
  {
    hide WordBits;
    BytesOf(0x82f63b78);
  }

  /** `(crc >> 1) ^ (0x82f63b78 & mask)`, the mask all ones or all zeros by the low bit. */
  function StepWord(b: bv32): bv32 {
    if Low(b) then Plus(Half(b), 0x82f63b78) else Half(b)
  }

  lemma StepIs(b: bv32)
    ensures BitStep(Reg(b)) == Reg(StepWord(b))
  {
    hide WordBits, Xor, ShiftRight, Low, Half, Plus;
    PolynomialIs();
    BitAt(b, 32, 0);
    ShiftIs(b);
    XorIs(Half(b), 0x82f63b78);
  }

  // ---- Bytes through the register ----

  function StepEight(b: bv32): bv32 {
    StepWord(StepWord(StepWord(StepWord(StepWord(StepWord(StepWord(StepWord(b))))))))
  }

  lemma ShiftEight(b: bv32)
    ensures Shifted(Reg(b), 8) == Reg(StepEight(b))
  {
    hide Reg, BitStep, StepWord;
    var b2 := StepWord(StepWord(b));
    var b4 := StepWord(StepWord(b2));
    var b6 := StepWord(StepWord(b4));
    StepIs(b);
    StepIs(StepWord(b));
    StepIs(b2);
    StepIs(StepWord(b2));
    StepIs(b4);
    StepIs(StepWord(b4));
    StepIs(b6);
    StepIs(StepWord(b6));
    assert Shifted(Reg(b), 8) == Shifted(Reg(StepWord(b)), 7) == Shifted(Reg(b2), 6);
    assert Shifted(Reg(b2), 6) == Shifted(Reg(StepWord(b2)), 5) == Shifted(Reg(b4), 4);
    assert Shifted(Reg(b4), 4) == Shifted(Reg(StepWord(b4)), 3) == Shifted(Reg(b6), 2);
    assert Shifted(Reg(b6), 2) == Shifted(Reg(StepWord(b6)), 1) == Shifted(Reg(StepEight(b)), 0);
  }

  /** The low four bits of the machine word `v` are those of `n`. */
  predicate SameNibble(v: bv32, n: nat) {
    && Low(v) == (n % 2 == 1) && Low(Half(v)) == (n / 2 % 2 == 1)
    && Low(Half(Half(v))) == (n / 4 % 2 == 1) && Low(Half(Half(Half(v)))) == (n / 8 % 2 == 1)
  }

  /** The low byte of the machine word `v` is `n`. */
  predicate SameByte(v: bv32, n: byte) {
    SameNibble(v, n) && SameNibble(Half(Half(Half(Half(v)))), n / 16)
  }

  lemma SameByteBits(v: bv32, n: byte)
    requires SameByte(v, n)
    ensures ByteBits(v) == Bits(n, 8)
  {
    hide Low, Half, Bits, SameNibble, FourOf;
    var h := Half(Half(Half(Half(v))));
    SameFour(v, n, 4);
    SameFour(h, n / 16, 0);
    assert FourOf(h) + Bits(n / 16 / 16, 0) == FourOf(h);
  }

  lemma SameFour(v: bv32, n: nat, k: nat)
    requires SameNibble(v, n)
    ensures Bits(n, 4 + k) == FourOf(v) + Bits(n / 16, k)
  {
    hide Low, Half, Bits;
    NibbleBits(n, k);
  }

  lemma NibbleBits(n: nat, k: nat)
    ensures Bits(n, 4 + k) == [n % 2 == 1, n / 2 % 2 == 1, n / 4 % 2 == 1, n / 8 % 2 == 1] + Bits(n / 16, k)
  {
    hide Bits;
    assert n / 2 / 2 == n / 4 && n / 4 / 2 == n / 8 && n / 8 / 2 == n / 16;
    BitsUnfold(n, k + 3);
    BitsUnfold(n / 2, k + 2);
    BitsUnfold(n / 4, k + 1);
    BitsUnfold(n / 8, k);
  }

  lemma BitsUnfold(n: nat, k: nat)
    ensures Bits(n, k + 1) == [n % 2 == 1] + Bits(n / 2, k)
  {
  }

  /** The machine word `v` is the byte `n`. */
  predicate HoldsByte(v: bv32, n: byte) {
    SameByte(v, n) && Down(v) == 0
  }

  lemma AddByte(b: bv32, v: bv32, n: byte)
    requires HoldsByte(v, n)
    ensures AddLow(Reg(b), Bits(n, 8)) == Reg(Plus(b, v))
  {
    hide WordBits, Low, Half, Plus, Bits, ByteBits, SameByte;
    SameByteBits(v, n);
    var l, r, s := AddLow(Reg(b), Bits(n, 8)), Reg(Plus(b, v)), Bits(n, 8);
    EightBits(v);
    WordBitsSplit(v, 8, 24);
    ShrEight(v);
    forall i | 0 <= i < 32
      ensures l[i] == r[i]
    {
      XorBit(b, v, 32, i);
      if i < 8 {
        assert WordBits(v, 32)[i] == s[i];
      } else {
        assert WordBits(v, 32)[i] == WordBits(0, 24)[i - 8];
        NoBits(24, i - 8);
      }
    }
  }

  lemma {:induction false} NoBits(k: nat, i: nat)
    requires i < k
    ensures !WordBits(0, k)[i]
    decreases k
  {
    hide Low, Half;
    ZeroIsEven();
    HalfOfZero();
    if i > 0 {
      NoBits(k - 1, i - 1);
    }
  }

  lemma HalfOfZero()
    ensures Half(0) == 0
  {
  }

  /** One turn of the outer loop: `crc ^= data[i]` and eight steps. */
  lemma ByteIn(c: Register, s: seq<byte>, b: bv32, v: bv32, n: byte)
    requires Run(c, MessageBits(s)) == Reg(b) && HoldsByte(v, n)
    ensures Run(c, MessageBits(s + [n])) == Reg(StepEight(Plus(b, v)))
  {
    hide Reg, StepEight, Plus, Bits, HoldsByte, Run, Shifted;
    AddByte(b, v, n);
    ShiftEight(Plus(b, v));
    ShiftedIsRun(Reg(b), Bits(n, 8));
    MessageBitsConcat(s, [n]);
    assert [n][1..] == [];
    assert MessageBits([n]) == Bits(n, 8) + MessageBits([]) == Bits(n, 8);
    RunRun(c, MessageBits(s), Bits(n, 8));
  }

  lemma OnesByte(b: bv32)
    requires SameByte(b, 0xff)
    ensures ByteBits(b) == Ones(8)
  {
    hide Low, Half;
    var s := ByteBits(b);
    assert forall i :: 0 <= i < 8 ==> s[i];
  }

  lemma OnesReg()
    ensures ONES == Ones(32) == Reg(0xffff_ffff)
  {
    hide Reg, ByteBits, Bits;
    OnesAre();
    BytesOf(0xffff_ffff);
    OnesByte(0xffff_ffff);
    OnesByte(0xff_ffff);
    OnesByte(0xffff);
    OnesByte(0xff);
  }

  lemma ComplementIs(b: bv32)
    ensures Complement(Reg(b)) == Reg(Plus(b, 0xffff_ffff))
  {
    hide WordBits, Plus;
    OnesReg();
    forall i | 0 <= i < 32
      ensures Complement(Reg(b))[i] == Reg(Plus(b, 0xffff_ffff))[i]
    {
      XorBit(b, 0xffff_ffff, 32, i);
    }
  }

  /** The word stored for a register, byte by byte. */
  lemma Finished(b: bv32, check: bv32, s0: byte, s1: byte, s2: byte, s3: byte)
    requires Plus(b, 0xffff_ffff) == check
    requires SameByte(check, s0) && SameByte(Down(check), s1)
    requires SameByte(Down(Down(check)), s2) && SameByte(Down(Down(Down(check))), s3)
    ensures ToWord(Complement(Reg(b))) == s0 + 0x100 * s1 + 0x1_0000 * s2 + 0x100_0000 * s3
  {
    hide Reg, Plus, Bits, ByteBits, Down, FromBits, SameByte, FromLe;
    SameByteBits(check, s0);
    SameByteBits(Down(check), s1);
    SameByteBits(Down(Down(check)), s2);
    SameByteBits(Down(Down(Down(check))), s3);
    FourValue(s0, s1, s2, s3);
    ComplementIs(b);
    BytesOf(check);
    FourBytes(s0, s1, s2, s3);
    MessageValue([s0, s1, s2, s3]);
  }

  lemma FourBytes(s0: byte, s1: byte, s2: byte, s3: byte)
    ensures MessageBits([s0, s1, s2, s3]) == Bits(s0, 8) + Bits(s1, 8) + Bits(s2, 8) + Bits(s3, 8)
  {
    hide Bits;
    assert [s0, s1, s2, s3][1..] == [s1, s2, s3] && [s1, s2, s3][1..] == [s2, s3] && [s2, s3][1..] == [s3];
    assert MessageBits([s3]) == Bits(s3, 8) + MessageBits([]);
    assert MessageBits([s2, s3]) == Bits(s2, 8) + MessageBits([s3]);
    assert MessageBits([s1, s2, s3]) == Bits(s1, 8) + MessageBits([s2, s3]);
  }

  lemma FourValue(s0: byte, s1: byte, s2: byte, s3: byte)
    ensures FromLe([s0, s1, s2, s3]) == s0 + 0x100 * s1 + 0x1_0000 * s2 + 0x100_0000 * s3
  {
    assert [s0, s1, s2, s3][1..] == [s1, s2, s3] && [s1, s2, s3][1..] == [s2, s3] && [s2, s3][1..] == [s3];
    assert FromLe([s3]) == s3 + 0x100 * FromLe([]);
    assert FromLe([s2, s3]) == s2 + 0x100 * FromLe([s3]);
    assert FromLe([s1, s2, s3]) == s1 + 0x100 * FromLe([s2, s3]);
  }

  // ---- The check values ----

  /** The words the register goes through on "123456789". */
  function DigitWord(k: nat): bv32 {
    if k == 0 then 0xffff_ffff else if k == 1 then 0x6f0a_661c else
    if k == 2 then 0x8caa_3b9f else if k == 3 then 0xef84_d04d else
    if k == 4 then 0x09c5_0b11 else if k == 5 then 0xe72e_dcca else
    if k == 6 then 0xbeca_8e79 else if k == 7 then 0xedbd_6815 else
    if k == 8 then 0x9f78_7f65 else
    0x1cf9_6d7c
  }

  /** The digit `k` places after "1". */
  function Digit(k: nat): bv32 {
    if k == 0 then 0x31 else if k == 1 then 0x32 else if k == 2 then 0x33 else if k == 3 then 0x34 else
    if k == 4 then 0x35 else if k == 5 then 0x36 else if k == 6 then 0x37 else if k == 7 then 0x38 else 0x39
  }

  lemma DigitHolds(k: nat)
    requires k < 9
    ensures HoldsByte(Digit(k), 0x31 + k)
  {
    hide HoldsByte;
    DigitsHoldFirst();
    DigitsHoldSecond();
    DigitsHoldThird();
  }

  lemma DigitsHoldFirst()
    ensures HoldsByte(0x31, 0x31)
    ensures HoldsByte(0x32, 0x32)
    ensures HoldsByte(0x33, 0x33)
  {
  }

  lemma DigitsHoldSecond()
    ensures HoldsByte(0x34, 0x34)
    ensures HoldsByte(0x35, 0x35)
    ensures HoldsByte(0x36, 0x36)
  {
  }

  lemma DigitsHoldThird()
    ensures HoldsByte(0x37, 0x37)
    ensures HoldsByte(0x38, 0x38)
    ensures HoldsByte(0x39, 0x39)
  {
  }

  lemma DigitStep(k: nat)
    requires k < 9
    ensures StepEight(Plus(DigitWord(k), Digit(k))) == DigitWord(k + 1)
  {
    hide StepEight, Plus;
    DigitStepsFirst();
    DigitStepsLast();
  }

  lemma DigitStepsFirst()
    ensures StepEight(Plus(0xffff_ffff, 0x31)) == 0x6f0a_661c
    ensures StepEight(Plus(0x6f0a_661c, 0x32)) == 0x8caa_3b9f
    ensures StepEight(Plus(0x8caa_3b9f, 0x33)) == 0xef84_d04d
    ensures StepEight(Plus(0xef84_d04d, 0x34)) == 0x09c5_0b11
    ensures StepEight(Plus(0x09c5_0b11, 0x35)) == 0xe72e_dcca
  {
  }

  lemma DigitStepsLast()
    ensures StepEight(Plus(0xe72e_dcca, 0x36)) == 0xbeca_8e79
    ensures StepEight(Plus(0xbeca_8e79, 0x37)) == 0xedbd_6815
    ensures StepEight(Plus(0xedbd_6815, 0x38)) == 0x9f78_7f65
    ensures StepEight(Plus(0x9f78_7f65, 0x39)) == 0x1cf9_6d7c
  {
  }

  lemma {:induction false} DigitsRun(m: seq<byte>, k: nat)
    requires |m| == 9 && (forall i :: 0 <= i < 9 ==> m[i] == 0x31 + i) && k <= 9
    ensures Run(ONES, MessageBits(m[..k])) == Reg(DigitWord(k))
  {
    hide Reg, StepEight, Plus, HoldsByte, MessageBits, Run, Digit, DigitWord;
    if k == 0 {
      StartWord();
      assert m[..0] == [];
    } else {
      DigitsRun(m, k - 1);
      DigitHolds(k - 1);
      DigitStep(k - 1);
      ByteIn(ONES, m[..k - 1], DigitWord(k - 1), Digit(k - 1), m[k - 1]);
      assert m[..k] == m[..k - 1] + [m[k - 1]];
    }
  }

  lemma StartWord()
    ensures Run(ONES, MessageBits([])) == Reg(DigitWord(0)) == Reg(ZeroWord(0))
  {
    hide Reg;
    OnesReg();
  }

  /** "123456789" has the checksum 0xe3069283. */
  lemma CheckValue()
    ensures Crc32c([0x31, 0x32, 0x33, 0x34, 0x35, 0x36, 0x37, 0x38, 0x39]) == 0xe306_9283
  {
    hide Reg, MessageBits, Run, ToWord, Plus;
    var m: seq<byte> := [0x31, 0x32, 0x33, 0x34, 0x35, 0x36, 0x37, 0x38, 0x39];
    DigitsRun(m, 9);
    assert m[..9] == m;
    CheckStored();
  }

  lemma CheckStored()
    ensures ToWord(Complement(Reg(DigitWord(9)))) == 0xe306_9283
  {
    hide ToWord, Reg;
    Finished(0x1cf9_6d7c, 0xe306_9283, 0x83, 0x92, 0x06, 0xe3);
  }

  /** The words the register goes through on bytes of zeros. */
  function ZeroWord(k: nat): bv32 {
    if k == 0 then 0xffff_ffff else if k == 1 then 0xad82_acae else
    if k == 2 then 0x0e9e_882d else if k == 3 then 0x9f9b_5c85 else
    if k == 4 then 0xb798_b438 else if k == 5 then 0xba8d_89ca else
    if k == 6 then 0xa8d5_8375 else if k == 7 then 0x44c1_9592 else
    if k == 8 then 0x73d7_4d75 else if k == 9 then 0x441a_975c else
    if k == 10 then 0x1c22_0f94 else if k == 11 then 0x552e_4907 else
    if k == 12 then 0xd49f_4aa2 else if k == 13 then 0x43a4_5a1b else
    if k == 14 then 0x8994_c80e else if k == 15 then 0xacf1_2bef else
    if k == 16 then 0xbd8f_6515 else if k == 17 then 0x2512_5c16 else
    if k == 18 then 0x36da_32db else if k == 19 then 0x4a6c_90a2 else
    if k == 20 then 0x433a_a9c1 else if k == 21 then 0x31a5_9f6e else
    if k == 22 then 0xcd8f_89da else if k == 23 then 0xb8fc_461a else
    if k == 24 then 0x7b04_1311 else if k == 25 then 0xe24e_407f else
    if k == 26 then 0x2f69_2669 else if k == 27 then 0x195b_2188 else
    if k == 28 then 0x0836_3896 else if k == 29 then 0xb401_2dc7 else
    if k == 30 then 0x17f3_4302 else if k == 31 then 0xe12c_83b4 else
    0x756e_c955
  }

  lemma ZeroStep(k: nat)
    requires k < 32
    ensures StepEight(ZeroWord(k)) == ZeroWord(k + 1)
  {
    hide StepEight;
    ZeroStepsFirst();
    ZeroStepsSecond();
    ZeroStepsThird();
    ZeroStepsFourth();
  }

  lemma ZeroStepsFirst()
    ensures StepEight(0xffff_ffff) == 0xad82_acae
    ensures StepEight(0xad82_acae) == 0x0e9e_882d
    ensures StepEight(0x0e9e_882d) == 0x9f9b_5c85
    ensures StepEight(0x9f9b_5c85) == 0xb798_b438
    ensures StepEight(0xb798_b438) == 0xba8d_89ca
    ensures StepEight(0xba8d_89ca) == 0xa8d5_8375
    ensures StepEight(0xa8d5_8375) == 0x44c1_9592
    ensures StepEight(0x44c1_9592) == 0x73d7_4d75
  {
  }

  lemma ZeroStepsSecond()
    ensures StepEight(0x73d7_4d75) == 0x441a_975c
    ensures StepEight(0x441a_975c) == 0x1c22_0f94
    ensures StepEight(0x1c22_0f94) == 0x552e_4907
    ensures StepEight(0x552e_4907) == 0xd49f_4aa2
    ensures StepEight(0xd49f_4aa2) == 0x43a4_5a1b
    ensures StepEight(0x43a4_5a1b) == 0x8994_c80e
    ensures StepEight(0x8994_c80e) == 0xacf1_2bef
    ensures StepEight(0xacf1_2bef) == 0xbd8f_6515
  {
  }

  lemma ZeroStepsThird()
    ensures StepEight(0xbd8f_6515) == 0x2512_5c16
    ensures StepEight(0x2512_5c16) == 0x36da_32db
    ensures StepEight(0x36da_32db) == 0x4a6c_90a2
    ensures StepEight(0x4a6c_90a2) == 0x433a_a9c1
    ensures StepEight(0x433a_a9c1) == 0x31a5_9f6e
    ensures StepEight(0x31a5_9f6e) == 0xcd8f_89da
    ensures StepEight(0xcd8f_89da) == 0xb8fc_461a
    ensures StepEight(0xb8fc_461a) == 0x7b04_1311
  {
  }

  lemma ZeroStepsFourth()
    ensures StepEight(0x7b04_1311) == 0xe24e_407f
    ensures StepEight(0xe24e_407f) == 0x2f69_2669
    ensures StepEight(0x2f69_2669) == 0x195b_2188
    ensures StepEight(0x195b_2188) == 0x0836_3896
    ensures StepEight(0x0836_3896) == 0xb401_2dc7
    ensures StepEight(0xb401_2dc7) == 0x17f3_4302
    ensures StepEight(0x17f3_4302) == 0xe12c_83b4
    ensures StepEight(0xe12c_83b4) == 0x756e_c955
  {
  }

  lemma ZeroHolds(b: bv32)
    ensures HoldsByte(0, 0) && Plus(b, 0) == b
  {
  }

  lemma {:induction false} ZerosRun(m: seq<byte>, k: nat)
    requires |m| == 32 && (forall i :: 0 <= i < 32 ==> m[i] == 0) && k <= 32
    ensures Run(ONES, MessageBits(m[..k])) == Reg(ZeroWord(k))
  {
    hide Reg, StepEight, Plus, HoldsByte, MessageBits, Run, ZeroWord;
    if k == 0 {
      StartWord();
      assert m[..0] == [];
    } else {
      ZerosRun(m, k - 1);
      ZeroHolds(ZeroWord(k - 1));
      ZeroStep(k - 1);
      ByteIn(ONES, m[..k - 1], ZeroWord(k - 1), 0, 0);
      assert m[..k] == m[..k - 1] + [0];
    }
  }

  /** 32 bytes of zeros have the checksum 0x8a9136aa. */
  lemma ZerosValue()
    ensures Crc32c(seq(32, _ => 0)) == 0x8a91_36aa
  {
    hide Reg, MessageBits, Run, ToWord, Plus;
    var m: seq<byte> := seq(32, _ => 0);
    ZerosRun(m, 32);
    assert m[..32] == m;
    ZerosStored();
  }

  lemma ZerosStored()
    ensures ToWord(Complement(Reg(ZeroWord(32)))) == 0x8a91_36aa
  {
    hide ToWord, Reg;
    Finished(0x756e_c955, 0x8a91_36aa, 0xaa, 0x36, 0x91, 0x8a);
  }

  // ---- Damage that is not detected ----

  lemma OneByteRun(n: byte, v: bv32)
    requires HoldsByte(v, n)
    ensures Run(ONES, MessageBits([n])) == Reg(StepEight(Plus(0xffff_ffff, v)))
  {
    hide Reg, StepEight, Plus, HoldsByte, Run, Bits, MessageBits;
    StartWord();
    ByteIn(ONES, [], 0xffff_ffff, v, n);
    assert [] + [n] == [n];
  }

  lemma OneByteSteps()
    ensures HoldsByte(0x00, 0x00) && StepEight(Plus(0xffff_ffff, 0x00)) == 0xad82_acae
    ensures HoldsByte(0x5d, 0x5d) && StepEight(Plus(0xffff_ffff, 0x5d)) == 0x438f_3aae
  {
  }

  lemma OneByteStored()
    ensures ToWord(Complement(Reg(0xad82_acae))) == 0x527d_5351
    ensures ToWord(Complement(Reg(0x438f_3aae))) == 0xbc70_c551
  {
    hide ToWord, Reg;
    Finished(0xad82_acae, 0x527d_5351, 0x51, 0x53, 0x7d, 0x52);
    Finished(0x438f_3aae, 0xbc70_c551, 0x51, 0xc5, 0x70, 0xbc);
  }

  lemma OneByteValues()
    ensures Crc32c([0x00]) == 0x527d_5351 && Crc32c([0x5d]) == 0xbc70_c551
  {
    hide Reg, ToWord, MessageBits, Run, StepEight, Plus, HoldsByte, Complement;
    OneByteSteps();
    OneByteRun(0x00, 0x00);
    OneByteRun(0x5d, 0x5d);
    OneByteStored();
  }

  lemma SameLowByte()
    ensures Le(0x527d_5351, 4) == [0x51, 0x53, 0x7d, 0x52] && Le(0xbc70_c551, 4) == [0x51, 0xc5, 0x70, 0xbc]
  {
  }

  /**
    A window may not reach from the stored payload checksum into the payload: here four damaged bytes, three
    of the checksum and one of the payload, turn one intact envelope into another.
   */
  lemma CrossingUndetected(fields: seq<byte>)
    requires |fields| == 32
    ensures var a, b := Seal(Crc32c, fields, [0x00]), Seal(Crc32c, fields, [0x5d]);
      DiffersWithin(a, b, 37, 41) && Intact(Crc32c, a, 41) && Intact(Crc32c, b, 41)
  {
    hide Crc32c, Le, Field;
    var a, b := Seal(Crc32c, fields, [0x00]), Seal(Crc32c, fields, [0x5d]);
    OneByteValues();
    SameLowByte();
    Sealed(Crc32c, fields, [0x00], []);
    Sealed(Crc32c, fields, [0x5d], []);
    assert a + [] == a && b + [] == b;
    assert a == fields + Le(Crc32c(fields), 4) + [0x51, 0x53, 0x7d, 0x52] + [0x00];
    assert b == fields + Le(Crc32c(fields), 4) + [0x51, 0xc5, 0x70, 0xbc] + [0x5d];
    assert a[40] != b[40];
    assert a[37..41][3] != b[37..41][3];
    assert a[..37] == b[..37];
  }
}
