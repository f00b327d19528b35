/**
 * Which errors the 16-bit CRC misses. Two wrong bits are missed at a distance that is a multiple of the order of x
 * modulo the generator, 32767.
 */
module CrcCcittOrder {
  import opened CrcCcitt
  import opened CrcOrder
  import opened CrcPolynomial
  import opened BitUnpacking
  import N = FrameSize

  // ---------------------------------------------------------------------------------------
  // Multiplication modulo the generator, on words
  // ---------------------------------------------------------------------------------------

  function ByteTurns(acc: bv16, a: bv16, b: bv16): bv16 {
    EightTurns(BitStep, Mix, acc, a, LowBit(b), LowBit(b >> 1), LowBit(b >> 2), LowBit(b >> 3),
               LowBit(b >> 4), LowBit(b >> 5), LowBit(b >> 6), LowBit(b >> 7))
  }

  function Mul(a: bv16, b: bv16): bv16 {
    ByteTurns(ByteTurns(0, a, b), a, Down(b))
  }

  lemma Operations()
    ensures WordOps(GENERATOR, WordBits, BitStep, Mix)
  {
    forall x
      ensures WordBits(BitStep(x)) == Step(GENERATOR, WordBits(x))
    {
      BitStepIsStep(x, BitStep(x));
    }
    forall x, y
      ensures WordBits(Mix(x, y)) == Xor(WordBits(x), WordBits(y))
    {
      WordBitsXor(x, y);
    }
  }

  lemma EightBits(acc: bv16, a: bv16, b0: bool, b1: bool, b2: bool, b3: bool, b4: bool, b5: bool, b6: bool, b7: bool)
    ensures WordBits(EightTurns(BitStep, Mix, acc, a, b0, b1, b2, b3, b4, b5, b6, b7))
            == MulFrom(GENERATOR, WordBits(acc), WordBits(a), [b0, b1, b2, b3, b4, b5, b6, b7])
  {
    Operations();
    EightTurnsBits(GENERATOR, WordBits, BitStep, Mix, acc, a, b0, b1, b2, b3, b4, b5, b6, b7);
  }

  lemma ByteTurnsBits(acc: bv16, a: bv16, b: bv16)
    ensures WordBits(ByteTurns(acc, a, b)) == MulFrom(GENERATOR, WordBits(acc), WordBits(a), Octet(LowByte(b)))
  {
    OctetBits(b);
    EightBits(acc, a, LowBit(b), LowBit(b >> 1), LowBit(b >> 2), LowBit(b >> 3),
              LowBit(b >> 4), LowBit(b >> 5), LowBit(b >> 6), LowBit(b >> 7));
  }

  lemma MulBits(a: bv16, b: bv16)
    ensures WordBits(Mul(a, b)) == MulFrom(GENERATOR, WordBits(0), WordBits(a), WordBits(b))
  {
    ByteTurnsBits(0, a, b);
    ByteTurnsBits(ByteTurns(0, a, b), a, Down(b));
    WordOctets(b);
    MulConcat(GENERATOR, WordBits(0), WordBits(a), Octet(LowByte(b)), Octet(LowByte(Down(b))));
  }

  // ---------------------------------------------------------------------------------------
  // Powers of x
  // ---------------------------------------------------------------------------------------

  /** x holds the n-th power modulo g. */
  predicate IsPower(g: Bits, n: nat, x: bv16)
    requires |g| > 0
  {
    WordBits(x) == Power(g, n)
  }

  lemma ZeroBits()
    ensures WordBits(0) == Zeros(16)
  {
    UnpackZero(LowBit, Half, 16, 0);
  }

  lemma PowerProduct(m: nat, n: nat, x: bv16, y: bv16, z: bv16)
    requires IsPower(GENERATOR, m, x) && IsPower(GENERATOR, n, y) && Mul(y, x) == z
    ensures IsPower(GENERATOR, m + n, z)
  {
    MulBits(y, x);
    ZeroBits();
    PowerSum(GENERATOR, m, n);
  }

  lemma ZerothPower()
    ensures IsPower(GENERATOR, 0, 0x8000)
  {
    WordOctets(0x8000);
    assert Octet(0x00) + Octet(0x80) == One(16);
  }

  lemma FirstPower()
    ensures IsPower(GENERATOR, 1, 0x4000)
  {
    ZerothPower();
    BitStepIsStep(0x8000, 0x4000);
    assert Steps(GENERATOR, 1, One(16)) == Step(GENERATOR, One(16));
  }

  lemma SquaresFrom1()
    ensures IsPower(GENERATOR, 2, 0x2000)
    ensures IsPower(GENERATOR, 4, 0x0800)
    ensures IsPower(GENERATOR, 8, 0x0080)
    ensures IsPower(GENERATOR, 16, 0x8408)
    ensures IsPower(GENERATOR, 32, 0x0CEC)
  {
    FirstPower();
    PowerProduct(1, 1, 0x4000, 0x4000, 0x2000);
    PowerProduct(2, 2, 0x2000, 0x2000, 0x0800);
    PowerProduct(4, 4, 0x0800, 0x0800, 0x0080);
    PowerProduct(8, 8, 0x0080, 0x0080, 0x8408);
    PowerProduct(16, 16, 0x8408, 0x8408, 0x0CEC);
  }

  lemma SquaresFrom6()
    ensures IsPower(GENERATOR, 64, 0x861D)
    ensures IsPower(GENERATOR, 128, 0x3F75)
    ensures IsPower(GENERATOR, 256, 0x9471)
    ensures IsPower(GENERATOR, 512, 0x3FC8)
    ensures IsPower(GENERATOR, 1024, 0x236C)
  {
    SquaresFrom1();
    PowerProduct(32, 32, 0x0CEC, 0x0CEC, 0x861D);
    PowerProduct(64, 64, 0x861D, 0x861D, 0x3F75);
    PowerProduct(128, 128, 0x3F75, 0x3F75, 0x9471);
    PowerProduct(256, 256, 0x9471, 0x9471, 0x3FC8);
    PowerProduct(512, 512, 0x3FC8, 0x3FC8, 0x236C);
  }

  lemma SquaresFrom11()
    ensures IsPower(GENERATOR, 2048, 0x0ABF)
    ensures IsPower(GENERATOR, 4096, 0x7955)
    ensures IsPower(GENERATOR, 8192, 0x3811)
    ensures IsPower(GENERATOR, 16384, 0x1A22)
    ensures IsPower(GENERATOR, 32768, 0x4000)
  {
    SquaresFrom6();
    PowerProduct(1024, 1024, 0x236C, 0x236C, 0x0ABF);
    PowerProduct(2048, 2048, 0x0ABF, 0x0ABF, 0x7955);
    PowerProduct(4096, 4096, 0x7955, 0x7955, 0x3811);
    PowerProduct(8192, 8192, 0x3811, 0x3811, 0x1A22);
    PowerProduct(16384, 16384, 0x1A22, 0x1A22, 0x4000);
  }

  lemma Power73()
    ensures IsPower(GENERATOR, 73, 0x65F1)
  {
    FirstPower();
    SquaresFrom1();
    SquaresFrom6();
    PowerProduct(1, 8, 0x4000, 0x0080, 0x0040);
    PowerProduct(9, 64, 0x0040, 0x861D, 0x65F1);
  }

  lemma Power4608()
    ensures IsPower(GENERATOR, 4608, 0x052A)
  {
    SquaresFrom6();
    SquaresFrom11();
    PowerProduct(512, 4096, 0x3FC8, 0x7955, 0x052A);
  }

  /** The quotient of 32767 by 7. */
  lemma Seventh()
    ensures IsPower(GENERATOR, 4681, 0x4234)
  {
    Power73();
    Power4608();
    PowerProduct(73, 4608, 0x65F1, 0x052A, 0x4234);
  }

  /** By 31. */
  lemma ThirtyFirst()
    ensures IsPower(GENERATOR, 33, 0x0676)
    ensures IsPower(GENERATOR, 1057, 0xF54F)
  {
    FirstPower();
    SquaresFrom1();
    SquaresFrom6();
    PowerProduct(1, 32, 0x4000, 0x0CEC, 0x0676);
    PowerProduct(33, 1024, 0x0676, 0x236C, 0xF54F);
  }

  /** By 151. */
  lemma HundredFiftyFirst()
    ensures IsPower(GENERATOR, 144, 0x4708)
    ensures IsPower(GENERATOR, 217, 0xC712)
  {
    SquaresFrom1();
    SquaresFrom6();
    Power73();
    PowerProduct(16, 128, 0x8408, 0x3F75, 0x4708);
    PowerProduct(73, 144, 0x65F1, 0x4708, 0xC712);
  }

  lemma PeriodIffSameWord(n: nat, m: nat, period: nat, x: bv16, y: bv16)
    requires IsPower(GENERATOR, n, x) && IsPower(GENERATOR, m, y) && m == n + period
    ensures Period(GENERATOR, period) <==> x == y
  {
    SamePowerIff(GENERATOR, n, m, period);
    if x != y && WordBits(x) == WordBits(y) { WordBitsInjective(x, y); }
  }

  lemma FullPeriod()
    ensures Period(GENERATOR, 32767)
  {
    FirstPower();
    SquaresFrom11();
    PeriodIffSameWord(1, 32768, 32767, 0x4000, 0x4000);
  }

  lemma NoShorterPeriod()
    ensures !Period(GENERATOR, 4681)
    ensures !Period(GENERATOR, 1057)
    ensures !Period(GENERATOR, 217)
  {
    ZerothPower();
    Seventh();
    ThirtyFirst();
    HundredFiftyFirst();
    PeriodIffSameWord(0, 4681, 4681, 0x8000, 0x4234);
    PeriodIffSameWord(0, 1057, 1057, 0x8000, 0xF54F);
    PeriodIffSameWord(0, 217, 217, 0x8000, 0xC712);
  }

  lemma Primes()
    ensures Prime(7) && Prime(31) && Prime(151)
    ensures ProductOf([7, 31, 151]) == 32767
  {
    MoreTrials(7, 1, 2, 2);
    PrimeByTrial(7, 2);
    MoreTrials(31, 1, 2, 5);
    PrimeByTrial(31, 5);
    MoreTrials(151, 1, 2, 12);
    PrimeByTrial(151, 12);
    assert [7, 31, 151][1..] == [31, 151];
    assert [31, 151][1..] == [151];
    assert [151][1..] == [];
  }

  /** x has order 32767: its powers repeat after that many steps, and after no fewer. */
  lemma OrderOfX(k: nat)
    ensures Period(GENERATOR, k) <==> N.Divides(32767, k)
  {
    FullPeriod();
    NoShorterPeriod();
    Primes();
    OrderIff(GENERATOR, [7, 31, 151], 32767, k);
  }

  // ---------------------------------------------------------------------------------------
  // Errors
  // ---------------------------------------------------------------------------------------

  lemma SameRegister(seed: bv16, m1: seq<bv8>, m2: seq<bv8>)
    ensures Checksum(seed, m1) == Checksum(seed, m2) <==>
            Update(GENERATOR, WordBits(!seed), MessageBits(m1)) == Update(GENERATOR, WordBits(!seed), MessageBits(m2))
  {
    RegisterIsUpdate(!seed, m1);
    RegisterIsUpdate(!seed, m2);
    var x, y := Register(!seed, m1), Register(!seed, m2);
    DoubleComplement(x);
    DoubleComplement(y);
    if WordBits(x) == WordBits(y) { WordBitsInjective(x, y); }
  }

  /** Two messages of one length have the same checksum exactly when the generator divides what they differ in. */
  lemma SameChecksumIff(seed: bv16, m1: seq<bv8>, m2: seq<bv8>)
    requires |m1| == |m2|
    ensures Checksum(seed, m1) == Checksum(seed, m2)
            <==> IsRemainder(GENERATOR, Zeros(16), Xor(MessageBits(m1), MessageBits(m2)), Zeros(16))
  {
    SameRegister(seed, m1, m2);
    MissedIffMultiple(GENERATOR, WordBits(!seed), MessageBits(m1), MessageBits(m2));
  }

  /** Two wrong bits are missed exactly when their distance is a multiple of 32767. */
  lemma TwoBitErrorIff(seed: bv16, m1: seq<bv8>, m2: seq<bv8>, p: nat, d: nat, q: nat)
    requires |m1| == |m2| && d > 0 && Xor(MessageBits(m1), MessageBits(m2)) == TwoBits(p, d, q)
    ensures Checksum(seed, m1) == Checksum(seed, m2) <==> d % 32767 == 0
  {
    SameRegister(seed, m1, m2);
    MissedIff(GENERATOR, WordBits(!seed), MessageBits(m1), MessageBits(m2));
    TwoBitsIff(GENERATOR, p, d, q);
    OrderOfX(d);
  }
}
