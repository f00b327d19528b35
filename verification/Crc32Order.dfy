/**
 * Which errors the 32-bit CRC misses. Two wrong bits are missed at a distance that is a multiple of the order of x
 * modulo the generator, 4294967295.
 */
module Crc32Order {
  import opened Crc32
  import opened CrcOrder
  import opened CrcPolynomial
  import opened BitUnpacking
  import N = FrameSize

  // ---------------------------------------------------------------------------------------
  // Multiplication modulo the generator, on words
  // ---------------------------------------------------------------------------------------

  function ByteTurns(acc: bv32, a: bv32, b: bv32): bv32 {
    EightTurns(BitStep, Mix, acc, a, LowBit(b), LowBit(b >> 1), LowBit(b >> 2), LowBit(b >> 3),
               LowBit(b >> 4), LowBit(b >> 5), LowBit(b >> 6), LowBit(b >> 7))
  }

  function TwoBytes(acc: bv32, a: bv32, b: bv32): bv32 {
    ByteTurns(ByteTurns(acc, a, b), a, Down(b))
  }

  function Mul(a: bv32, b: bv32): bv32 {
    TwoBytes(TwoBytes(0, a, b), a, Down(Down(b)))
  }

  lemma Operations()
    ensures WordOps(GENERATOR, WordBits, BitStep, Mix)
  {
    forall x
      ensures WordBits(BitStep(x)) == Step(GENERATOR, WordBits(x))
    {
      BitStepIsStep(x, BitStep(x));
    }
    forall x, y
      ensures WordBits(Mix(x, y)) == Xor(WordBits(x), WordBits(y))
    {
      WordBitsXor(x, y);
    }
  }

  lemma EightBits(acc: bv32, a: bv32, b0: bool, b1: bool, b2: bool, b3: bool, b4: bool, b5: bool, b6: bool, b7: bool)
    ensures WordBits(EightTurns(BitStep, Mix, acc, a, b0, b1, b2, b3, b4, b5, b6, b7))
            == MulFrom(GENERATOR, WordBits(acc), WordBits(a), [b0, b1, b2, b3, b4, b5, b6, b7])
  {
    Operations();
    EightTurnsBits(GENERATOR, WordBits, BitStep, Mix, acc, a, b0, b1, b2, b3, b4, b5, b6, b7);
  }

  lemma ByteTurnsBits(acc: bv32, a: bv32, b: bv32)
    ensures WordBits(ByteTurns(acc, a, b)) == MulFrom(GENERATOR, WordBits(acc), WordBits(a), Octet(LowByte(b)))
  {
    OctetBits(b);
    EightBits(acc, a, LowBit(b), LowBit(b >> 1), LowBit(b >> 2), LowBit(b >> 3),
              LowBit(b >> 4), LowBit(b >> 5), LowBit(b >> 6), LowBit(b >> 7));
  }

  lemma TwoBytesBits(acc: bv32, a: bv32, b: bv32)
    ensures WordBits(TwoBytes(acc, a, b))
            == MulFrom(GENERATOR, WordBits(acc), WordBits(a), Octet(LowByte(b)) + Octet(LowByte(Down(b))))
  {
    ByteTurnsBits(acc, a, b);
    ByteTurnsBits(ByteTurns(acc, a, b), a, Down(b));
    MulConcat(GENERATOR, WordBits(acc), WordBits(a), Octet(LowByte(b)), Octet(LowByte(Down(b))));
  }

  lemma MulBits(a: bv32, b: bv32)
    ensures WordBits(Mul(a, b)) == MulFrom(GENERATOR, WordBits(0), WordBits(a), WordBits(b))
  {
    var c := Down(Down(b));
    var low, high := Octet(LowByte(b)) + Octet(LowByte(Down(b))), Octet(LowByte(c)) + Octet(LowByte(Down(c)));
    TwoBytesBits(0, a, b);
    TwoBytesBits(TwoBytes(0, a, b), a, c);
    WordOctets(b);
    JoinTwice(Octet(LowByte(b)), Octet(LowByte(Down(b))), high);
    MulConcat(GENERATOR, WordBits(0), WordBits(a), low, high);
  }

  lemma JoinTwice(a: Bits, b: Bits, c: Bits)
    ensures (a + b) + c == a + (b + c)
  {
  }

  // ---------------------------------------------------------------------------------------
  // Powers of x
  // ---------------------------------------------------------------------------------------

  /** x holds the n-th power modulo g. */
  predicate IsPower(g: Bits, n: nat, x: bv32)
    requires |g| > 0
  {
    WordBits(x) == Power(g, n)
  }

  lemma ZeroBits()
    ensures WordBits(0) == Zeros(32)
  {
    UnpackZero(LowBit, Half, 32, 0);
  }

  lemma PowerProduct(m: nat, n: nat, x: bv32, y: bv32, z: bv32)
    requires IsPower(GENERATOR, m, x) && IsPower(GENERATOR, n, y) && Mul(y, x) == z
    ensures IsPower(GENERATOR, m + n, z)
  {
    MulBits(y, x);
    ZeroBits();
    PowerSum(GENERATOR, m, n);
  }

  lemma ZerothPower()
    ensures IsPower(GENERATOR, 0, 0x80000000)
  {
    WordOctets(0x80000000);
    assert Octet(0x00) + (Octet(0x00) + (Octet(0x00) + Octet(0x80))) == One(32);
  }

  lemma FirstPower()
    ensures IsPower(GENERATOR, 1, 0x40000000)
  {
    ZerothPower();
    BitStepIsStep(0x80000000, 0x40000000);
    assert Steps(GENERATOR, 1, One(32)) == Step(GENERATOR, One(32));
  }

  lemma SquaresFrom1()
    ensures IsPower(GENERATOR, 2, 0x20000000)
    ensures IsPower(GENERATOR, 4, 0x08000000)
  {
    FirstPower();
    PowerProduct(1, 1, 0x40000000, 0x40000000, 0x20000000);
    PowerProduct(2, 2, 0x20000000, 0x20000000, 0x08000000);
  }

  lemma SquaresFrom3()
    ensures IsPower(GENERATOR, 8, 0x00800000)
    ensures IsPower(GENERATOR, 16, 0x00008000)
  {
    SquaresFrom1();
    PowerProduct(4, 4, 0x08000000, 0x08000000, 0x00800000);
    PowerProduct(8, 8, 0x00800000, 0x00800000, 0x00008000);
  }

  lemma SquaresFrom5()
    ensures IsPower(GENERATOR, 32, 0xEDB88320)
    ensures IsPower(GENERATOR, 64, 0xB1E6B092)
  {
    SquaresFrom3();
    PowerProduct(16, 16, 0x00008000, 0x00008000, 0xEDB88320);
    PowerProduct(32, 32, 0xEDB88320, 0xEDB88320, 0xB1E6B092);
  }

  lemma SquaresFrom7()
    ensures IsPower(GENERATOR, 128, 0xA06A2517)
    ensures IsPower(GENERATOR, 256, 0xED627DAE)
  {
    SquaresFrom5();
    PowerProduct(64, 64, 0xB1E6B092, 0xB1E6B092, 0xA06A2517);
    PowerProduct(128, 128, 0xA06A2517, 0xA06A2517, 0xED627DAE);
  }

  lemma SquaresFrom9()
    ensures IsPower(GENERATOR, 512, 0x88D14467)
    ensures IsPower(GENERATOR, 1024, 0xD7BBFE6A)
  {
    SquaresFrom7();
    PowerProduct(256, 256, 0xED627DAE, 0xED627DAE, 0x88D14467);
    PowerProduct(512, 512, 0x88D14467, 0x88D14467, 0xD7BBFE6A);
  }

  lemma SquaresFrom11()
    ensures IsPower(GENERATOR, 2048, 0xEC447F11)
    ensures IsPower(GENERATOR, 4096, 0x8E7EA170)
  {
    SquaresFrom9();
    PowerProduct(1024, 1024, 0xD7BBFE6A, 0xD7BBFE6A, 0xEC447F11);
    PowerProduct(2048, 2048, 0xEC447F11, 0xEC447F11, 0x8E7EA170);
  }

  lemma SquaresFrom13()
    ensures IsPower(GENERATOR, 8192, 0x6427800E)
    ensures IsPower(GENERATOR, 16384, 0x4D47BAE0)
  {
    SquaresFrom11();
    PowerProduct(4096, 4096, 0x8E7EA170, 0x8E7EA170, 0x6427800E);
    PowerProduct(8192, 8192, 0x6427800E, 0x6427800E, 0x4D47BAE0);
  }

  lemma SquaresFrom15()
    ensures IsPower(GENERATOR, 32768, 0x09FE548F)
    ensures IsPower(GENERATOR, 65536, 0x83852D0F)
  {
    SquaresFrom13();
    PowerProduct(16384, 16384, 0x4D47BAE0, 0x4D47BAE0, 0x09FE548F);
    PowerProduct(32768, 32768, 0x09FE548F, 0x09FE548F, 0x83852D0F);
  }

  lemma SquaresFrom17()
    ensures IsPower(GENERATOR, 131072, 0x30362F1A)
    ensures IsPower(GENERATOR, 262144, 0x7B5A9CC3)
  {
    SquaresFrom15();
    PowerProduct(65536, 65536, 0x83852D0F, 0x83852D0F, 0x30362F1A);
    PowerProduct(131072, 131072, 0x30362F1A, 0x30362F1A, 0x7B5A9CC3);
  }

  lemma SquaresFrom19()
    ensures IsPower(GENERATOR, 524288, 0x31FEC169)
    ensures IsPower(GENERATOR, 1048576, 0x9FEC022A)
  {
    SquaresFrom17();
    PowerProduct(262144, 262144, 0x7B5A9CC3, 0x7B5A9CC3, 0x31FEC169);
    PowerProduct(524288, 524288, 0x31FEC169, 0x31FEC169, 0x9FEC022A);
  }

  lemma SquaresFrom21()
    ensures IsPower(GENERATOR, 2097152, 0x6C8DEDC4)
    ensures IsPower(GENERATOR, 4194304, 0x15D6874D)
  {
    SquaresFrom19();
    PowerProduct(1048576, 1048576, 0x9FEC022A, 0x9FEC022A, 0x6C8DEDC4);
    PowerProduct(2097152, 2097152, 0x6C8DEDC4, 0x6C8DEDC4, 0x15D6874D);
  }

  lemma SquaresFrom23()
    ensures IsPower(GENERATOR, 8388608, 0x5FDE7A4E)
    ensures IsPower(GENERATOR, 16777216, 0xBAD90E37)
  {
    SquaresFrom21();
    PowerProduct(4194304, 4194304, 0x15D6874D, 0x15D6874D, 0x5FDE7A4E);
    PowerProduct(8388608, 8388608, 0x5FDE7A4E, 0x5FDE7A4E, 0xBAD90E37);
  }

  lemma SquaresFrom25()
    ensures IsPower(GENERATOR, 33554432, 0x2E4E5EEF)
    ensures IsPower(GENERATOR, 67108864, 0x4EABA214)
  {
    SquaresFrom23();
    PowerProduct(16777216, 16777216, 0xBAD90E37, 0xBAD90E37, 0x2E4E5EEF);
    PowerProduct(33554432, 33554432, 0x2E4E5EEF, 0x2E4E5EEF, 0x4EABA214);
  }

  lemma SquaresFrom27()
    ensures IsPower(GENERATOR, 134217728, 0xA8A472C0)
    ensures IsPower(GENERATOR, 268435456, 0x429A969E)
  {
    SquaresFrom25();
    PowerProduct(67108864, 67108864, 0x4EABA214, 0x4EABA214, 0xA8A472C0);
    PowerProduct(134217728, 134217728, 0xA8A472C0, 0xA8A472C0, 0x429A969E);
  }

  lemma SquaresFrom29()
    ensures IsPower(GENERATOR, 536870912, 0x148D302A)
    ensures IsPower(GENERATOR, 1073741824, 0xC40BA6D0)
  {
    SquaresFrom27();
    PowerProduct(268435456, 268435456, 0x429A969E, 0x429A969E, 0x148D302A);
    PowerProduct(536870912, 536870912, 0x148D302A, 0x148D302A, 0xC40BA6D0);
  }

  lemma SquaresFrom31()
    ensures IsPower(GENERATOR, 2147483648, 0xC4E22C3C)
    ensures IsPower(GENERATOR, 4294967296, 0x40000000)
  {
    SquaresFrom29();
    PowerProduct(1073741824, 1073741824, 0xC40BA6D0, 0xC40BA6D0, 0xC4E22C3C);
    PowerProduct(2147483648, 2147483648, 0xC4E22C3C, 0xC4E22C3C, 0x40000000);
  }

  lemma PairsFrom0()
    ensures IsPower(GENERATOR, 65537, 0xAC7A15A7)
    ensures IsPower(GENERATOR, 131074, 0xE1B508E6)
  {
    FirstPower();
    SquaresFrom15();
    SquaresFrom1();
    SquaresFrom17();
    PowerProduct(1, 65536, 0x40000000, 0x83852D0F, 0xAC7A15A7);
    PowerProduct(2, 131072, 0x20000000, 0x30362F1A, 0xE1B508E6);
  }

  lemma PairsFrom2()
    ensures IsPower(GENERATOR, 262148, 0x216C9960)
    ensures IsPower(GENERATOR, 524296, 0x345F273D)
  {
    SquaresFrom1();
    SquaresFrom17();
    SquaresFrom3();
    SquaresFrom19();
    PowerProduct(4, 262144, 0x08000000, 0x7B5A9CC3, 0x216C9960);
    PowerProduct(8, 524288, 0x00800000, 0x31FEC169, 0x345F273D);
  }

  lemma PairsFrom4()
    ensures IsPower(GENERATOR, 1048592, 0x816532E8)
    ensures IsPower(GENERATOR, 2097184, 0x923CF1D7)
  {
    SquaresFrom3();
    SquaresFrom19();
    SquaresFrom5();
    SquaresFrom21();
    PowerProduct(16, 1048576, 0x00008000, 0x9FEC022A, 0x816532E8);
    PowerProduct(32, 2097152, 0xEDB88320, 0x6C8DEDC4, 0x923CF1D7);
  }

  lemma PairsFrom6()
    ensures IsPower(GENERATOR, 4194368, 0x934EE480)
    ensures IsPower(GENERATOR, 8388736, 0x2EB63450)
  {
    SquaresFrom5();
    SquaresFrom21();
    SquaresFrom7();
    SquaresFrom23();
    PowerProduct(64, 4194304, 0xB1E6B092, 0x15D6874D, 0x934EE480);
    PowerProduct(128, 8388608, 0xA06A2517, 0x5FDE7A4E, 0x2EB63450);
  }

  lemma PairsFrom8()
    ensures IsPower(GENERATOR, 16777472, 0x4630D51A)
    ensures IsPower(GENERATOR, 33554944, 0x942BC45E)
  {
    SquaresFrom7();
    SquaresFrom23();
    SquaresFrom9();
    SquaresFrom25();
    PowerProduct(256, 16777216, 0xED627DAE, 0xBAD90E37, 0x4630D51A);
    PowerProduct(512, 33554432, 0x88D14467, 0x2E4E5EEF, 0x942BC45E);
  }

  lemma PairsFrom10()
    ensures IsPower(GENERATOR, 67109888, 0x72642CA4)
    ensures IsPower(GENERATOR, 134219776, 0xC5C0F9FD)
  {
    SquaresFrom9();
    SquaresFrom25();
    SquaresFrom11();
    SquaresFrom27();
    PowerProduct(1024, 67108864, 0xD7BBFE6A, 0x4EABA214, 0x72642CA4);
    PowerProduct(2048, 134217728, 0xEC447F11, 0xA8A472C0, 0xC5C0F9FD);
  }

  lemma PairsFrom12()
    ensures IsPower(GENERATOR, 268439552, 0xAC191907)
    ensures IsPower(GENERATOR, 536879104, 0xA094D63D)
  {
    SquaresFrom11();
    SquaresFrom27();
    SquaresFrom13();
    SquaresFrom29();
    PowerProduct(4096, 268435456, 0x8E7EA170, 0x429A969E, 0xAC191907);
    PowerProduct(8192, 536870912, 0x6427800E, 0x148D302A, 0xA094D63D);
  }

  lemma PairsFrom14()
    ensures IsPower(GENERATOR, 1073758208, 0x0770BA16)
    ensures IsPower(GENERATOR, 2147516416, 0x981F01C2)
  {
    SquaresFrom13();
    SquaresFrom29();
    SquaresFrom15();
    SquaresFrom31();
    PowerProduct(16384, 1073741824, 0x4D47BAE0, 0xC40BA6D0, 0x0770BA16);
    PowerProduct(32768, 2147483648, 0x09FE548F, 0xC4E22C3C, 0x981F01C2);
  }

  lemma FoursFrom0()
    ensures IsPower(GENERATOR, 16843009, 0x316B5BA1)
    ensures IsPower(GENERATOR, 33686018, 0x5B219B1C)
  {
    PairsFrom0();
    PairsFrom8();
    PowerProduct(65537, 16777472, 0xAC7A15A7, 0x4630D51A, 0x316B5BA1);
    PowerProduct(131074, 33554944, 0xE1B508E6, 0x942BC45E, 0x5B219B1C);
  }

  lemma FoursFrom2()
    ensures IsPower(GENERATOR, 67372036, 0xAEBF57A4)
    ensures IsPower(GENERATOR, 134744072, 0x7DB7E260)
  {
    PairsFrom2();
    PairsFrom10();
    PowerProduct(262148, 67109888, 0x216C9960, 0x72642CA4, 0xAEBF57A4);
    PowerProduct(524296, 134219776, 0x345F273D, 0xC5C0F9FD, 0x7DB7E260);
  }

  lemma FoursFrom4()
    ensures IsPower(GENERATOR, 269488144, 0x0C283CA0)
    ensures IsPower(GENERATOR, 538976288, 0xA154174F)
  {
    PairsFrom4();
    PairsFrom12();
    PowerProduct(1048592, 268439552, 0x816532E8, 0xAC191907, 0x0C283CA0);
    PowerProduct(2097184, 536879104, 0x923CF1D7, 0xA094D63D, 0xA154174F);
  }

  lemma FoursFrom6()
    ensures IsPower(GENERATOR, 1077952576, 0x13FC30A5)
    ensures IsPower(GENERATOR, 2155905152, 0x07C26E33)
  {
    PairsFrom6();
    PairsFrom14();
    PowerProduct(4194368, 1073758208, 0x934EE480, 0x0770BA16, 0x13FC30A5);
    PowerProduct(8388736, 2147516416, 0x2EB63450, 0x981F01C2, 0x07C26E33);
  }

  lemma EightsFrom0()
    ensures IsPower(GENERATOR, 286331153, 0x3D436701)
    ensures IsPower(GENERATOR, 572662306, 0xFA758C53)
  {
    FoursFrom0();
    FoursFrom4();
    PowerProduct(16843009, 269488144, 0x316B5BA1, 0x0C283CA0, 0x3D436701);
    PowerProduct(33686018, 538976288, 0x5B219B1C, 0xA154174F, 0xFA758C53);
  }

  lemma EightsFrom2()
    ensures IsPower(GENERATOR, 1145324612, 0xBD436701)
    ensures IsPower(GENERATOR, 2290649224, 0x7A758C53)
  {
    FoursFrom2();
    FoursFrom6();
    PowerProduct(67372036, 1077952576, 0xAEBF57A4, 0x13FC30A5, 0xBD436701);
    PowerProduct(134744072, 2155905152, 0x7DB7E260, 0x07C26E33, 0x7A758C53);
  }

  lemma SixteensFrom0()
    ensures IsPower(GENERATOR, 1431655765, 0xC736EB52)
    ensures IsPower(GENERATOR, 2863311530, 0x4736EB52)
  {
    EightsFrom0();
    EightsFrom2();
    PowerProduct(286331153, 1145324612, 0x3D436701, 0xBD436701, 0xC736EB52);
    PowerProduct(572662306, 2290649224, 0xFA758C53, 0x7A758C53, 0x4736EB52);
  }

  lemma PeriodIffSameWord(n: nat, m: nat, period: nat, x: bv32, y: bv32)
    requires IsPower(GENERATOR, n, x) && IsPower(GENERATOR, m, y) && m == n + period
    ensures Period(GENERATOR, period) <==> x == y
  {
    SamePowerIff(GENERATOR, n, m, period);
    if x != y && WordBits(x) == WordBits(y) { WordBitsInjective(x, y); }
  }

  lemma FullPeriod()
    ensures Period(GENERATOR, 4294967295)
  {
    FirstPower();
    SquaresFrom31();
    PeriodIffSameWord(1, 4294967296, 4294967295, 0x40000000, 0x40000000);
  }

  lemma NoShorterPeriod()
    ensures !Period(GENERATOR, 1431655765)
    ensures !Period(GENERATOR, 858993459)
    ensures !Period(GENERATOR, 252645135)
    ensures !Period(GENERATOR, 16711935)
    ensures !Period(GENERATOR, 65535)
  {
    SixteensFrom0();
    EightsFrom0();
    EightsFrom2();
    FoursFrom0();
    FoursFrom4();
    PairsFrom0();
    PairsFrom8();
    FirstPower();
    SquaresFrom15();
    PeriodIffSameWord(1431655765, 2863311530, 1431655765, 0xC736EB52, 0x4736EB52);
    PeriodIffSameWord(286331153, 1145324612, 858993459, 0x3D436701, 0xBD436701);
    PeriodIffSameWord(16843009, 269488144, 252645135, 0x316B5BA1, 0x0C283CA0);
    PeriodIffSameWord(65537, 16777472, 16711935, 0xAC7A15A7, 0x4630D51A);
    PeriodIffSameWord(1, 65536, 65535, 0x40000000, 0x83852D0F);
  }

  lemma NoFactorTo61()
    ensures NoFactorUpTo(65537, 61)
  {
    MoreTrials(65537, 1, 2, 16);
    MoreTrials(65537, 16, 17, 31);
    MoreTrials(65537, 31, 32, 46);
    MoreTrials(65537, 46, 47, 61);
  }

  lemma NoFactorTo121()
    ensures NoFactorUpTo(65537, 121)
  {
    NoFactorTo61();
    MoreTrials(65537, 61, 62, 76);
    MoreTrials(65537, 76, 77, 91);
    MoreTrials(65537, 91, 92, 106);
    MoreTrials(65537, 106, 107, 121);
  }

  lemma NoFactorTo196()
    ensures NoFactorUpTo(65537, 196)
  {
    NoFactorTo121();
    MoreTrials(65537, 121, 122, 136);
    MoreTrials(65537, 136, 137, 151);
    MoreTrials(65537, 151, 152, 166);
    MoreTrials(65537, 166, 167, 181);
    MoreTrials(65537, 181, 182, 196);
  }

  lemma NoFactorOf65537()
    ensures NoFactorUpTo(65537, 256)
  {
    NoFactorTo196();
    MoreTrials(65537, 196, 197, 211);
    MoreTrials(65537, 211, 212, 226);
    MoreTrials(65537, 226, 227, 241);
    MoreTrials(65537, 241, 242, 256);
  }

  lemma Primes()
    ensures Prime(3) && Prime(5) && Prime(17) && Prime(257) && Prime(65537)
    ensures ProductOf([3, 5, 17, 257, 65537]) == 4294967295
  {
    MoreTrials(3, 1, 2, 1);
    PrimeByTrial(3, 1);
    MoreTrials(5, 1, 2, 2);
    PrimeByTrial(5, 2);
    MoreTrials(17, 1, 2, 4);
    PrimeByTrial(17, 4);
    MoreTrials(257, 1, 2, 16);
    PrimeByTrial(257, 16);
    NoFactorOf65537();
    PrimeByTrial(65537, 256);
    assert [3, 5, 17, 257, 65537][1..] == [5, 17, 257, 65537];
    assert [5, 17, 257, 65537][1..] == [17, 257, 65537];
    assert [17, 257, 65537][1..] == [257, 65537];
    assert [257, 65537][1..] == [65537];
    assert [65537][1..] == [];
  }

  /** x has order 4294967295: its powers repeat after that many steps, and after no fewer. */
  lemma OrderOfX(k: nat)
    ensures Period(GENERATOR, k) <==> N.Divides(4294967295, k)
  {
    FullPeriod();
    NoShorterPeriod();
    Primes();
    OrderIff(GENERATOR, [3, 5, 17, 257, 65537], 4294967295, k);
  }

  // ---------------------------------------------------------------------------------------
  // Errors
  // ---------------------------------------------------------------------------------------

  lemma SameRegister(seed: bv32, m1: seq<bv8>, m2: seq<bv8>)
    ensures Checksum(seed, m1) == Checksum(seed, m2) <==>
            Update(GENERATOR, WordBits(!seed), MessageBits(m1)) == Update(GENERATOR, WordBits(!seed), MessageBits(m2))
  {
    RegisterIsUpdate(!seed, m1);
    RegisterIsUpdate(!seed, m2);
    var x, y := Register(!seed, m1), Register(!seed, m2);
    DoubleComplement(x);
    DoubleComplement(y);
    if WordBits(x) == WordBits(y) { WordBitsInjective(x, y); }
  }

  /** Two messages of one length have the same checksum exactly when the generator divides what they differ in. */
  lemma SameChecksumIff(seed: bv32, m1: seq<bv8>, m2: seq<bv8>)
    requires |m1| == |m2|
    ensures Checksum(seed, m1) == Checksum(seed, m2)
            <==> IsRemainder(GENERATOR, Zeros(32), Xor(MessageBits(m1), MessageBits(m2)), Zeros(32))
  {
    SameRegister(seed, m1, m2);
    MissedIffMultiple(GENERATOR, WordBits(!seed), MessageBits(m1), MessageBits(m2));
  }

  /** Two wrong bits are missed exactly when their distance is a multiple of 4294967295. */
  lemma TwoBitErrorIff(seed: bv32, m1: seq<bv8>, m2: seq<bv8>, p: nat, d: nat, q: nat)
    requires |m1| == |m2| && d > 0 && Xor(MessageBits(m1), MessageBits(m2)) == TwoBits(p, d, q)
    ensures Checksum(seed, m1) == Checksum(seed, m2) <==> d % 4294967295 == 0
  {
    SameRegister(seed, m1, m2);
    MissedIff(GENERATOR, WordBits(!seed), MessageBits(m1), MessageBits(m2));
    TwoBitsIff(GENERATOR, p, d, q);
    OrderOfX(d);
  }
}
