/**
 * The 16-bit table-driven CRC.
 */
module CrcCcitt {
  import opened CrcPolynomial
  import opened BitUnpacking

  // ---------------------------------------------------------------------------------------
  // The lookup table, in rows of sixteen entries
  // ---------------------------------------------------------------------------------------

  const ROW_0: seq<bv16> := [
    0x0000, 0x1189, 0x2312, 0x329B, 0x4624, 0x57AD, 0x6536, 0x74BF,
    0x8C48, 0x9DC1, 0xAF5A, 0xBED3, 0xCA6C, 0xDBE5, 0xE97E, 0xF8F7
  ]
  const ROW_1: seq<bv16> := [
    0x1081, 0x0108, 0x3393, 0x221A, 0x56A5, 0x472C, 0x75B7, 0x643E,
    0x9CC9, 0x8D40, 0xBFDB, 0xAE52, 0xDAED, 0xCB64, 0xF9FF, 0xE876
  ]
  const ROW_2: seq<bv16> := [
    0x2102, 0x308B, 0x0210, 0x1399, 0x6726, 0x76AF, 0x4434, 0x55BD,
    0xAD4A, 0xBCC3, 0x8E58, 0x9FD1, 0xEB6E, 0xFAE7, 0xC87C, 0xD9F5
  ]
  const ROW_3: seq<bv16> := [
    0x3183, 0x200A, 0x1291, 0x0318, 0x77A7, 0x662E, 0x54B5, 0x453C,
    0xBDCB, 0xAC42, 0x9ED9, 0x8F50, 0xFBEF, 0xEA66, 0xD8FD, 0xC974
  ]
  const ROW_4: seq<bv16> := [
    0x4204, 0x538D, 0x6116, 0x709F, 0x0420, 0x15A9, 0x2732, 0x36BB,
    0xCE4C, 0xDFC5, 0xED5E, 0xFCD7, 0x8868, 0x99E1, 0xAB7A, 0xBAF3
  ]
  const ROW_5: seq<bv16> := [
    0x5285, 0x430C, 0x7197, 0x601E, 0x14A1, 0x0528, 0x37B3, 0x263A,
    0xDECD, 0xCF44, 0xFDDF, 0xEC56, 0x98E9, 0x8960, 0xBBFB, 0xAA72
  ]
  const ROW_6: seq<bv16> := [
    0x6306, 0x728F, 0x4014, 0x519D, 0x2522, 0x34AB, 0x0630, 0x17B9,
    0xEF4E, 0xFEC7, 0xCC5C, 0xDDD5, 0xA96A, 0xB8E3, 0x8A78, 0x9BF1
  ]
  const ROW_7: seq<bv16> := [
    0x7387, 0x620E, 0x5095, 0x411C, 0x35A3, 0x242A, 0x16B1, 0x0738,
    0xFFCF, 0xEE46, 0xDCDD, 0xCD54, 0xB9EB, 0xA862, 0x9AF9, 0x8B70
  ]
  const ROW_8: seq<bv16> := [
    0x8408, 0x9581, 0xA71A, 0xB693, 0xC22C, 0xD3A5, 0xE13E, 0xF0B7,
    0x0840, 0x19C9, 0x2B52, 0x3ADB, 0x4E64, 0x5FED, 0x6D76, 0x7CFF
  ]
  const ROW_9: seq<bv16> := [
    0x9489, 0x8500, 0xB79B, 0xA612, 0xD2AD, 0xC324, 0xF1BF, 0xE036,
    0x18C1, 0x0948, 0x3BD3, 0x2A5A, 0x5EE5, 0x4F6C, 0x7DF7, 0x6C7E
  ]
  const ROW_A: seq<bv16> := [
    0xA50A, 0xB483, 0x8618, 0x9791, 0xE32E, 0xF2A7, 0xC03C, 0xD1B5,
    0x2942, 0x38CB, 0x0A50, 0x1BD9, 0x6F66, 0x7EEF, 0x4C74, 0x5DFD
  ]
  const ROW_B: seq<bv16> := [
    0xB58B, 0xA402, 0x9699, 0x8710, 0xF3AF, 0xE226, 0xD0BD, 0xC134,
    0x39C3, 0x284A, 0x1AD1, 0x0B58, 0x7FE7, 0x6E6E, 0x5CF5, 0x4D7C
  ]
  const ROW_C: seq<bv16> := [
    0xC60C, 0xD785, 0xE51E, 0xF497, 0x8028, 0x91A1, 0xA33A, 0xB2B3,
    0x4A44, 0x5BCD, 0x6956, 0x78DF, 0x0C60, 0x1DE9, 0x2F72, 0x3EFB
  ]
  const ROW_D: seq<bv16> := [
    0xD68D, 0xC704, 0xF59F, 0xE416, 0x90A9, 0x8120, 0xB3BB, 0xA232,
    0x5AC5, 0x4B4C, 0x79D7, 0x685E, 0x1CE1, 0x0D68, 0x3FF3, 0x2E7A
  ]
  const ROW_E: seq<bv16> := [
    0xE70E, 0xF687, 0xC41C, 0xD595, 0xA12A, 0xB0A3, 0x8238, 0x93B1,
    0x6B46, 0x7ACF, 0x4854, 0x59DD, 0x2D62, 0x3CEB, 0x0E70, 0x1FF9
  ]
  const ROW_F: seq<bv16> := [
    0xF78F, 0xE606, 0xD49D, 0xC514, 0xB1AB, 0xA022, 0x92B9, 0x8330,
    0x7BC7, 0x6A4E, 0x58D5, 0x495C, 0x3DE3, 0x2C6A, 0x1EF1, 0x0F78
  ]

  const CRC_TABLE: seq<seq<bv16>> :=
    [ROW_0, ROW_1, ROW_2, ROW_3, ROW_4, ROW_5, ROW_6, ROW_7,
     ROW_8, ROW_9, ROW_A, ROW_B, ROW_C, ROW_D, ROW_E, ROW_F]

  function Entry(i: bv8): bv16 {
    CRC_TABLE[(i >> 4) as int][(i & 15) as int]
  }

  // ---------------------------------------------------------------------------------------
  // The code: one table step per byte, and the three overloads
  // ---------------------------------------------------------------------------------------

  /** A char is signed; it is widened before it is mixed with the register. */
  function SignExtend(ch: bv8): bv16 {
    if ch & 0x80 != 0 then 0xFF00 | (ch as bv16) else ch as bv16
  }

  function Mix(x: bv16, y: bv16): bv16 {
    x ^ y
  }

  function Down(x: bv16): bv16 {
    x >> 8
  }

  function Index(crc: bv16, ch: bv8): bv8 {
    ((crc ^ SignExtend(ch)) & 0xFF) as bv8
  }

  function Compute(crc: bv16, ch: bv8): bv16 {
    Mix(Entry(Index(crc, ch)), Down(crc))
  }

  function Register(crc: bv16, msg: seq<bv8>): bv16 {
    Fold(Compute, crc, msg)
  }

  function Complement(x: bv16): bv16 {
    !x
  }

  /** The value the buffer overload returns for a seed and a message. */
  function Checksum(seed: bv16, msg: seq<bv8>): bv16 {
    Seeded(Compute, Complement, seed, msg)
  }

  lemma FromOnes(crc: bv16, msg: seq<bv8>)
    requires crc == Register(0xFFFF, msg)
    ensures !crc == Checksum(0, msg)
  {
    assert Complement(0) == 0xFFFF;
  }

  /** The string overload: str is a C string, and only the bytes before its first NUL count. */
  method FromString(str: seq<bv8>, ghost n: nat) returns (r: bv16)
    requires n < |str| && str[n] == 0 && forall i :: 0 <= i < n ==> str[i] != 0
    ensures r == Checksum(0, str[..n])
  {
    var crc: bv16 := 0xFFFF;
    var p := 0;
    while str[p] != 0
      invariant 0 <= p <= n && crc == Register(0xFFFF, str[..p])
      decreases n - p
    {
      FoldSnoc(Compute, 0xFFFF, str, p);
      crc := Compute(crc, str[p]);
      p := p + 1;
    }
    FromOnes(crc, str[..n]);
    r := !crc;
  }

  method FromBuffer(buffer: seq<bv8>, seed: bv16) returns (r: bv16)
    ensures r == Checksum(seed, buffer)
  {
    var crc := !seed;
    var p := 0;
    while p != |buffer|
      invariant 0 <= p <= |buffer| && crc == Register(!seed, buffer[..p])
    {
      FoldSnoc(Compute, !seed, buffer, p);
      crc := Compute(crc, buffer[p]);
      p := p + 1;
    }
    assert buffer[..p] == buffer;
    r := !crc;
  }

  method FromIovec(iov: seq<seq<bv8>>, seed: bv16) returns (r: bv16)
    ensures r == Checksum(seed, Flatten(iov))
  {
    var crc := !seed;
    for i := 0 to |iov|
      invariant crc == Register(!seed, Flatten(iov[..i]))
    {
      var p := 0;
      ghost var before := crc;
      while p != |iov[i]|
        invariant 0 <= p <= |iov[i]| && crc == Register(before, iov[i][..p])
      {
        FoldSnoc(Compute, before, iov[i], p);
        crc := Compute(crc, iov[i][p]);
        p := p + 1;
      }
      assert iov[i][..p] == iov[i];
      FlattenSnoc(iov, i);
      FoldConcat(Compute, !seed, Flatten(iov[..i]), iov[i]);
    }
    assert iov[..|iov|] == iov;
    r := !crc;
  }

  // ---------------------------------------------------------------------------------------
  // Words as registers of the polynomial model
  // ---------------------------------------------------------------------------------------

  predicate LowBit(x: bv16) {
    x & 1 == 1
  }

  function Half(x: bv16): bv16 {
    x >> 1
  }

  function WordBits(x: bv16): (b: Bits)
    ensures |b| == 16
  {
    Unpack(LowBit, Half, 16, x)
  }

  lemma MixBits(x: bv16, y: bv16)
    ensures LowBit(Mix(x, y)) == (LowBit(x) != LowBit(y))
    ensures Half(Mix(x, y)) == Mix(Half(x), Half(y))
  {
    assert (x ^ y) >> 1 == (x >> 1) ^ (y >> 1);
  }

  lemma WordBitsXor(x: bv16, y: bv16)
    ensures WordBits(x ^ y) == Xor(WordBits(x), WordBits(y))
  {
    forall a, b
      ensures LowBit(Mix(a, b)) == (LowBit(a) != LowBit(b)) && Half(Mix(a, b)) == Mix(Half(a), Half(b))
    {
      MixBits(a, b);
    }
    UnpackXor(LowBit, Half, Mix, 16, x, y);
  }

  function LowByte(x: bv16): bv8 {
    (x & 0xFF) as bv8
  }

  lemma LowOctet(n: nat, x: bv16)
    ensures Unpack(LowBit, Half, n + 8, x) == Octet(LowByte(x)) + Unpack(LowBit, Half, n, Down(x))
  {
    OctetBits(x);
    UnpackEight(LowBit, Half, n, x, x >> 1, x >> 2, x >> 3, x >> 4, x >> 5, x >> 6, x >> 7, x >> 8);
  }

  lemma OctetBits(x: bv16)
    ensures Octet(LowByte(x))
            == [LowBit(x), LowBit(x >> 1), LowBit(x >> 2), LowBit(x >> 3),
                LowBit(x >> 4), LowBit(x >> 5), LowBit(x >> 6), LowBit(x >> 7)]
  {
  }

  /** The octets of a word, least significant first. */
  lemma WordOctets(x: bv16)
    ensures WordBits(x) == Octet(LowByte(x)) + Octet(LowByte(Down(x)))
  {
    forall n: nat, y
      ensures Unpack(LowBit, Half, n + 8, y) == Octet(LowByte(y)) + Unpack(LowBit, Half, n, Down(y))
    {
      LowOctet(n, y);
    }
    UnpackTwoBytes(LowBit, Half, LowByte, Down, x);
  }

  lemma ShiftedOut(n: nat, x: bv16)
    ensures Halve(Half, n + 8, x) == Halve(Half, n, Down(x))
  {
    HalveEight(Half, n, x);
    EightHalves(x);
  }

  lemma EightHalves(x: bv16)
    ensures Half(Half(Half(Half(Half(Half(Half(Half(x)))))))) == Down(x)
  {
  }

  lemma AllShiftedOut(x: bv16)
    ensures Halve(Half, 16, x) == 0
  {
    forall n: nat, y
      ensures Halve(Half, n + 8, y) == Halve(Half, n, Down(y))
    {
      ShiftedOut(n, y);
    }
    HalveTwoBytes(Half, Down, x);
    NothingLeft(x);
  }

  lemma NothingLeft(x: bv16)
    ensures Down(Down(x)) == 0
  {
  }

  lemma WordBitsInjective(x: bv16, y: bv16)
    requires WordBits(x) == WordBits(y)
    ensures x == y
  {
    forall a, b | LowBit(a) == LowBit(b) && Half(a) == Half(b)
      ensures a == b
    {
      assert a == (a >> 1 << 1) | (a & 1) && b == (b >> 1 << 1) | (b & 1);
    }
    AllShiftedOut(x);
    AllShiftedOut(y);
    UnpackInjective(LowBit, Half, 16, x, y);
  }

  lemma WordBitsHalf(x: bv16)
    ensures WordBits(x >> 1) == Shift(WordBits(x))
  {
    AllShiftedOut(x);
    UnpackHalf(LowBit, Half, 16, x);
  }

  lemma WordBitsNot(x: bv16)
    ensures WordBits(!x) == Not(WordBits(x))
  {
    assert !x == x ^ 0xFFFF;
    WordBitsXor(x, 0xFFFF);
    OnesBits();
  }

  lemma OnesBits()
    ensures WordBits(0xFFFF) == Not(Zeros(16))
  {
    WordOctets(0xFFFF);
  }

  // ---------------------------------------------------------------------------------------
  // The table against the generator polynomial
  // ---------------------------------------------------------------------------------------

  /** The terms below x^16 of the CCITT generator polynomial, 0x1021. */
  predicate HasTerm(e: int) {
    e == 12 || e == 5 || e == 0
  }

  const GENERATOR: Bits := seq(16, i => HasTerm(15 - i))

  /** The same polynomial, bit-reversed, as the shift register uses it. */
  const REFLECTED: bv16 := 0x8408

  lemma GeneratorBits()
    ensures WordBits(REFLECTED) == GENERATOR
  {
    ReflectedOctets();
    GeneratorOctets();
  }

  lemma GeneratorOctets()
    ensures GENERATOR == Octet(0x08) + (Octet(0x84))
  {
    assert Octet(0x08) == GENERATOR[0..8];
    assert Octet(0x84) == GENERATOR[8..16];
  }

  lemma ReflectedOctets()
    ensures WordBits(REFLECTED) == Octet(0x08) + (Octet(0x84))
  {
    WordOctets(REFLECTED);
  }

  function BitStep(x: bv16): bv16 {
    if x & 1 == 1 then (x >> 1) ^ REFLECTED else x >> 1
  }

  function EightSteps(x: bv16): bv16 {
    BitStep(BitStep(BitStep(BitStep(BitStep(BitStep(BitStep(BitStep(x))))))))
  }

  function RowOf(f: bv16 -> bv16, h: bv16): seq<bv16> {
    [f(h), f(h | 1), f(h | 2), f(h | 3), f(h | 4), f(h | 5), f(h | 6), f(h | 7),
     f(h | 8), f(h | 9), f(h | 10), f(h | 11), f(h | 12), f(h | 13), f(h | 14), f(h | 15)]
  }

  lemma Row0()
    ensures ROW_0 == RowOf(EightSteps, 0x00)
  {
  }

  lemma Row1()
    ensures ROW_1 == RowOf(EightSteps, 0x10)
  {
  }

  lemma Row2()
    ensures ROW_2 == RowOf(EightSteps, 0x20)
  {
  }

  lemma Row3()
    ensures ROW_3 == RowOf(EightSteps, 0x30)
  {
  }

  lemma Row4()
    ensures ROW_4 == RowOf(EightSteps, 0x40)
  {
  }

  lemma Row5()
    ensures ROW_5 == RowOf(EightSteps, 0x50)
  {
  }

  lemma Row6()
    ensures ROW_6 == RowOf(EightSteps, 0x60)
  {
  }

  lemma Row7()
    ensures ROW_7 == RowOf(EightSteps, 0x70)
  {
  }

  lemma Row8()
    ensures ROW_8 == RowOf(EightSteps, 0x80)
  {
  }

  lemma Row9()
    ensures ROW_9 == RowOf(EightSteps, 0x90)
  {
  }

  lemma RowA()
    ensures ROW_A == RowOf(EightSteps, 0xA0)
  {
  }

  lemma RowB()
    ensures ROW_B == RowOf(EightSteps, 0xB0)
  {
  }

  lemma RowC()
    ensures ROW_C == RowOf(EightSteps, 0xC0)
  {
  }

  lemma RowD()
    ensures ROW_D == RowOf(EightSteps, 0xD0)
  {
  }

  lemma RowE()
    ensures ROW_E == RowOf(EightSteps, 0xE0)
  {
  }

  lemma RowF()
    ensures ROW_F == RowOf(EightSteps, 0xF0)
  {
  }

  lemma Column(f: bv16 -> bv16, h: bv16, c: bv8)
    requires c < 16
    ensures RowOf(f, h)[c as int] == f(h | (c as bv16))
  {
    if c < 8 {
      if c == 0 {} else if c == 1 {} else if c == 2 {} else if c == 3 {}
      else if c == 4 {} else if c == 5 {} else if c == 6 {}
    } else {
      if c == 8 {} else if c == 9 {} else if c == 10 {} else if c == 11 {}
      else if c == 12 {} else if c == 13 {} else if c == 14 {}
    }
  }

  predicate RowsOf(f: bv16 -> bv16) {
    && ROW_0 == RowOf(f, 0x00) && ROW_1 == RowOf(f, 0x10) && ROW_2 == RowOf(f, 0x20) && ROW_3 == RowOf(f, 0x30)
    && ROW_4 == RowOf(f, 0x40) && ROW_5 == RowOf(f, 0x50) && ROW_6 == RowOf(f, 0x60) && ROW_7 == RowOf(f, 0x70)
    && ROW_8 == RowOf(f, 0x80) && ROW_9 == RowOf(f, 0x90) && ROW_A == RowOf(f, 0xA0) && ROW_B == RowOf(f, 0xB0)
    && ROW_C == RowOf(f, 0xC0) && ROW_D == RowOf(f, 0xD0) && ROW_E == RowOf(f, 0xE0) && ROW_F == RowOf(f, 0xF0)
  }

  lemma AllRows()
    ensures RowsOf(EightSteps)
  {
    Row0(); Row1(); Row2(); Row3(); Row4(); Row5(); Row6(); Row7();
    Row8(); Row9(); RowA(); RowB(); RowC(); RowD(); RowE(); RowF();
  }

  lemma TableRow(f: bv16 -> bv16, r: bv8)
    requires r < 16 && RowsOf(f)
    ensures CRC_TABLE[r as int] == RowOf(f, (r as bv16) << 4)
  {
    if r < 8 {
      if r == 0 {} else if r == 1 {} else if r == 2 {} else if r == 3 {}
      else if r == 4 {} else if r == 5 {} else if r == 6 {}
    } else {
      if r == 8 {} else if r == 9 {} else if r == 10 {} else if r == 11 {}
      else if r == 12 {} else if r == 13 {} else if r == 14 {}
    }
  }

  lemma EntryOf(f: bv16 -> bv16, i: bv8)
    requires RowsOf(f)
    ensures Entry(i) == f(i as bv16)
  {
    TableRow(f, i >> 4);
    Column(f, ((i >> 4) as bv16) << 4, i & 15);
    IndexSplit(i);
  }

  /** Every one of the 256 table entries is its index shifted eight times through the register. */
  lemma EntryIsEightSteps(i: bv8)
    ensures Entry(i) == EightSteps(i as bv16)
  {
    AllRows();
    EntryOf(EightSteps, i);
  }

  lemma IndexSplit(i: bv8)
    ensures (((i >> 4) as bv16) << 4) | ((i & 15) as bv16) == i as bv16
  {
  }

  lemma BitStepIsStep(x: bv16, y: bv16)
    requires y == BitStep(x)
    ensures WordBits(y) == Step(GENERATOR, WordBits(x))
  {
    GeneratorBits();
    WordBitsHalf(x);
    if x & 1 == 1 {
      WordBitsXor(x >> 1, REFLECTED);
    }
  }

  lemma EightStepsAreSteps(x: bv16)
    ensures WordBits(EightSteps(x)) == Steps(GENERATOR, 8, WordBits(x))
  {
    var x1 := BitStep(x);
    var x2 := BitStep(x1);
    var x3 := BitStep(x2);
    var x4 := BitStep(x3);
    FourSteps(x, x1, x2, x3, x4);
    var x5 := BitStep(x4);
    var x6 := BitStep(x5);
    var x7 := BitStep(x6);
    FourSteps(x4, x5, x6, x7, BitStep(x7));
    StepsConcat(GENERATOR, 4, 4, WordBits(x));
  }

  lemma FourSteps(x0: bv16, x1: bv16, x2: bv16, x3: bv16, x4: bv16)
    requires x1 == BitStep(x0) && x2 == BitStep(x1) && x3 == BitStep(x2) && x4 == BitStep(x3)
    ensures WordBits(x4) == Steps(GENERATOR, 4, WordBits(x0))
  {
    BitStepIsStep(x0, x1);
    BitStepIsStep(x1, x2);
    BitStepIsStep(x2, x3);
    BitStepIsStep(x3, x4);
    StepsFour(GENERATOR, WordBits(x0), WordBits(x1), WordBits(x2), WordBits(x3), WordBits(x4));
  }

  /** One table lookup absorbs exactly the eight bits of one byte. */
  lemma ComputeIsUpdate(crc: bv16, ch: bv8)
    ensures WordBits(Compute(crc, ch)) == Update(GENERATOR, WordBits(crc), Octet(ch))
  {
    forall x, y
      ensures WordBits(Mix(x, y)) == Xor(WordBits(x), WordBits(y))
    {
      WordBitsXor(x, y);
    }
    forall i
      ensures WordBits(Entry(i)) == Steps(GENERATOR, 8, WordBits(Wide(i)))
    {
      EntryBits(i);
    }
    forall x, c
      ensures WordBits(Wide(Index(x, c))) == Xor(WordBits(x)[..8], Octet(c)) + Zeros(8)
    {
      IndexOctet(x, c);
    }
    forall x
      ensures WordBits(Down(x)) == WordBits(x)[8..] + Zeros(8)
    {
      ShiftedBits(x);
    }
    TableLookup(WordBits, Mix, Entry, Wide, Index, Down, GENERATOR, crc, ch);
  }

  function Wide(i: bv8): bv16 {
    i as bv16
  }

  lemma IndexOctet(crc: bv16, ch: bv8)
    ensures WordBits(Wide(Index(crc, ch))) == Xor(WordBits(crc)[..8], Octet(ch)) + Zeros(8)
  {
    SignDropped(crc, ch);
    IndexBits(crc, ch as bv16);
  }

  lemma EntryBits(i: bv8)
    ensures WordBits(Entry(i)) == Steps(GENERATOR, 8, WordBits(Wide(i)))
  {
    EntryIsEightSteps(i);
    EightStepsAreSteps(i as bv16);
  }

  lemma SignDropped(crc: bv16, ch: bv8)
    ensures Wide(Index(crc, ch)) == (crc ^ (ch as bv16)) & 0xFF
    ensures LowByte(ch as bv16) == ch
  {
  }

  lemma IndexBits(crc: bv16, c: bv16)
    ensures WordBits((crc ^ c) & 0xFF) == Xor(WordBits(crc)[..8], Octet(LowByte(c))) + Zeros(8)
  {
    WordHead(c);
    WordHead(crc ^ c);
    ByteBits(crc ^ c);
    WordBitsXor(crc, c);
    XorTake(WordBits(crc), WordBits(c), 8);
  }

  lemma WordHead(x: bv16)
    ensures WordBits(x)[..8] == Octet(LowByte(x))
  {
    LowOctet(8, x);
  }

  lemma ByteBits(x: bv16)
    ensures WordBits(x & 0xFF) == Octet(LowByte(x)) + Zeros(8)
  {
    ByteAlone(x);
    LowOctet(8, x & 0xFF);
    UnpackZero(LowBit, Half, 8, 0);
  }

  lemma ByteAlone(x: bv16)
    ensures LowByte(x & 0xFF) == LowByte(x) && Down(x & 0xFF) == 0
  {
  }

  lemma ShiftedBits(x: bv16)
    ensures WordBits(Down(x)) == WordBits(x)[8..] + Zeros(8)
  {
    var n := |WordBits(x)| - 8;
    LowOctet(n, x);
    AllShiftedOut(x);
    ShiftedOut(n, x);
    UnpackLonger(LowBit, Half, n, n, Down(x));
  }

  /** The whole table loop is the polynomial register run over the bits of the message. */
  lemma RegisterIsUpdate(crc: bv16, msg: seq<bv8>)
    ensures WordBits(Register(crc, msg)) == Update(GENERATOR, WordBits(crc), MessageBits(msg))
  {
    forall x, ch
      ensures WordBits(Compute(x, ch)) == Update(GENERATOR, WordBits(x), Octet(ch))
    {
      ComputeIsUpdate(x, ch);
    }
    FoldIsUpdate(Compute, WordBits, GENERATOR, crc, msg);
  }

  // ---------------------------------------------------------------------------------------
  // Properties of the checksum
  // ---------------------------------------------------------------------------------------

  lemma ChecksumIsUpdate(seed: bv16, msg: seq<bv8>)
    ensures WordBits(Checksum(seed, msg)) == Not(Update(GENERATOR, WordBits(!seed), MessageBits(msg)))
  {
    RegisterIsUpdate(!seed, msg);
    WordBitsNot(Register(!seed, msg));
  }

  /**
   * A word is the checksum of a message exactly when its complement is the remainder of the
   * message polynomial, with the complemented seed added to its leading terms, divided by the generator.
   */
  lemma ChecksumIffRemainder(seed: bv16, msg: seq<bv8>, c: bv16)
    ensures c == Checksum(seed, msg)
            <==> IsRemainder(GENERATOR, WordBits(!seed), MessageBits(msg), Not(WordBits(c)))
  {
    var k := Checksum(seed, msg);
    var rem := Update(GENERATOR, WordBits(!seed), MessageBits(msg));
    ChecksumIsUpdate(seed, msg);
    RemainderIff(GENERATOR, WordBits(!seed), MessageBits(msg), Not(WordBits(c)));
    NotNot(rem);
    SameComplement(c, k);
  }

  lemma SameComplement(c: bv16, k: bv16)
    ensures Not(WordBits(c)) == Not(WordBits(k)) <==> c == k
  {
    if c != k {
      if WordBits(c) == WordBits(k) {
        WordBitsInjective(c, k);
      }
      NotInjective(WordBits(c), WordBits(k));
    }
  }

  /** Feeding one result as the seed of the next gives the checksum of the concatenation. */
  lemma ChecksumChained(seed: bv16, a: seq<bv8>, b: seq<bv8>)
    ensures Checksum(Checksum(seed, a), b) == Checksum(seed, a + b)
  {
    DoubleComplement(Register(!seed, a));
    SeededChained(Compute, Complement, seed, a, b);
  }

  lemma DoubleComplement(x: bv16)
    ensures Complement(Complement(x)) == x
  {
  }

  /**
   * Two messages that differ, and differ only inside a window of at most 16 bits at any bit
   * offset, never have the same checksum.
   */
  lemma BurstChangesChecksum(seed: bv16, m1: seq<bv8>, m2: seq<bv8>, before: Bits, a: Bits, b: Bits, after: Bits)
    requires MessageBits(m1) == before + a + after && MessageBits(m2) == before + b + after
    requires |a| == |b| <= 16 && m1 != m2
    ensures Checksum(seed, m1) != Checksum(seed, m2)
  {
    if a == b {
      MessageBitsInjective(m1, m2);
    }
    ChecksumIsUpdate(seed, m1);
    ChecksumIsUpdate(seed, m2);
    var r := WordBits(!seed);
    BurstDetected(GENERATOR, r, before, a, b, after);
    NotInjective(Update(GENERATOR, r, MessageBits(m1)), Update(GENERATOR, r, MessageBits(m2)));
  }

  /** The byte form: a change confined to 2 consecutive bytes is always seen. */
  lemma WindowChangesChecksum(seed: bv16, before: seq<bv8>, a: seq<bv8>, b: seq<bv8>, after: seq<bv8>)
    requires |a| == |b| <= 2 && a != b
    ensures Checksum(seed, before + a + after) != Checksum(seed, before + b + after)
  {
    MessageBitsWindow(before, a, after);
    MessageBitsWindow(before, b, after);
    assert (before + a + after)[|before|..|before| + |a|] == a;
    assert (before + b + after)[|before|..|before| + |b|] == b;
    BurstChangesChecksum(seed, before + a + after, before + b + after,
                         MessageBits(before), MessageBits(a), MessageBits(b), MessageBits(after));
  }

  /** The bytes of a word, least significant first. */
  function LittleEndian(c: bv16): (b: seq<bv8>)
    ensures |b| == 2
  {
    [LowByte(c), LowByte(Down(c))]
  }

  lemma LittleEndianBits(c: bv16)
    ensures MessageBits(LittleEndian(c)) == WordBits(c)
  {
    WordOctets(c);
    MessageBitsTwo(LowByte(c), LowByte(Down(c)));
  }

  /** The constant left in the register by a good frame. */
  const GOOD: bv16 := 0xF0B8

  lemma GoodIsResidue()
    ensures WordBits(GOOD) == Residue(GENERATOR)
  {
    OnesBits();
    EightStepsAreSteps(0xFFFF);
    EightStepsAreSteps(EightSteps(0xFFFF));
    StepsConcat(GENERATOR, 8, 8, Not(Zeros(16)));
    GoodValue();
  }

  lemma GoodValue()
    ensures EightSteps(EightSteps(0xFFFF)) == GOOD
  {
  }

  /**
   * A frame of a message and 2 more bytes checks to one fixed value, independent of message and
   * seed, exactly when those bytes are the message's own checksum, low byte first.
   */
  lemma GoodFrameIff(seed: bv16, msg: seq<bv8>, check: seq<bv8>)
    requires |check| == 2
    ensures Checksum(seed, msg + check) == !GOOD <==> check == LittleEndian(Checksum(seed, msg))
  {
    var r := Update(GENERATOR, WordBits(!seed), MessageBits(msg));
    var own := LittleEndian(Checksum(seed, msg));
    ChecksumIsUpdate(seed, msg);
    ChecksumIsUpdate(seed, msg + check);
    MessageBitsConcat(msg, check);
    UpdateConcat(GENERATOR, WordBits(!seed), MessageBits(msg), MessageBits(check));
    ResidueIff(GENERATOR, r, MessageBits(check));
    GoodIsResidue();
    WordBitsNot(GOOD);
    LittleEndianBits(Checksum(seed, msg));
    var u := Update(GENERATOR, r, MessageBits(check));
    if u != Residue(GENERATOR) {
      NotInjective(u, Residue(GENERATOR));
    } else {
      WordBitsInjective(Checksum(seed, msg + check), !GOOD);
    }
    if MessageBits(check) == MessageBits(own) {
      MessageBitsInjective(check, own);
    }
  }

  /** The generator has an even number of terms, so every odd number of flipped bits is seen. */
  lemma OddErrorChangesChecksum(seed: bv16, m1: seq<bv8>, m2: seq<bv8>)
    requires |m1| == |m2| && Parity(Xor(MessageBits(m1), MessageBits(m2)))
    ensures Checksum(seed, m1) != Checksum(seed, m2)
  {
    ChecksumIsUpdate(seed, m1);
    ChecksumIsUpdate(seed, m2);
    GeneratorParity();
    var r := WordBits(!seed);
    OddErrorDetected(GENERATOR, r, MessageBits(m1), MessageBits(m2));
    NotInjective(Update(GENERATOR, r, MessageBits(m1)), Update(GENERATOR, r, MessageBits(m2)));
  }

  lemma GeneratorParity()
    ensures Parity(GENERATOR)
  {
    ParityAfterZeros(3, Zeros(6) + ([true] + (Zeros(4) + [true])));
    ParityAfterZeros(6, Zeros(4) + [true]);
    ParityAfterZeros(4, []);
    assert GENERATOR == Zeros(3) + ([true] + (Zeros(6) + ([true] + (Zeros(4) + ([true] + [])))));
    assert [true] + [] == [true];
  }
}
