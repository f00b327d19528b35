/**
 * The 32-bit table-driven CRC.
 */
module Crc32 {
  import opened CrcPolynomial
  import opened BitUnpacking

  // ---------------------------------------------------------------------------------------
  // The lookup table, in rows of sixteen entries
  // ---------------------------------------------------------------------------------------

  const ROW_0: seq<bv32> := [
    0x00000000, 0x77073096, 0xEE0E612C, 0x990951BA, 0x076DC419, 0x706AF48F, 0xE963A535, 0x9E6495A3,
    0x0EDB8832, 0x79DCB8A4, 0xE0D5E91E, 0x97D2D988, 0x09B64C2B, 0x7EB17CBD, 0xE7B82D07, 0x90BF1D91
  ]
  const ROW_1: seq<bv32> := [
    0x1DB71064, 0x6AB020F2, 0xF3B97148, 0x84BE41DE, 0x1ADAD47D, 0x6DDDE4EB, 0xF4D4B551, 0x83D385C7,
    0x136C9856, 0x646BA8C0, 0xFD62F97A, 0x8A65C9EC, 0x14015C4F, 0x63066CD9, 0xFA0F3D63, 0x8D080DF5
  ]
  const ROW_2: seq<bv32> := [
    0x3B6E20C8, 0x4C69105E, 0xD56041E4, 0xA2677172, 0x3C03E4D1, 0x4B04D447, 0xD20D85FD, 0xA50AB56B,
    0x35B5A8FA, 0x42B2986C, 0xDBBBC9D6, 0xACBCF940, 0x32D86CE3, 0x45DF5C75, 0xDCD60DCF, 0xABD13D59
  ]
  const ROW_3: seq<bv32> := [
    0x26D930AC, 0x51DE003A, 0xC8D75180, 0xBFD06116, 0x21B4F4B5, 0x56B3C423, 0xCFBA9599, 0xB8BDA50F,
    0x2802B89E, 0x5F058808, 0xC60CD9B2, 0xB10BE924, 0x2F6F7C87, 0x58684C11, 0xC1611DAB, 0xB6662D3D
  ]
  const ROW_4: seq<bv32> := [
    0x76DC4190, 0x01DB7106, 0x98D220BC, 0xEFD5102A, 0x71B18589, 0x06B6B51F, 0x9FBFE4A5, 0xE8B8D433,
    0x7807C9A2, 0x0F00F934, 0x9609A88E, 0xE10E9818, 0x7F6A0DBB, 0x086D3D2D, 0x91646C97, 0xE6635C01
  ]
  const ROW_5: seq<bv32> := [
    0x6B6B51F4, 0x1C6C6162, 0x856530D8, 0xF262004E, 0x6C0695ED, 0x1B01A57B, 0x8208F4C1, 0xF50FC457,
    0x65B0D9C6, 0x12B7E950, 0x8BBEB8EA, 0xFCB9887C, 0x62DD1DDF, 0x15DA2D49, 0x8CD37CF3, 0xFBD44C65
  ]
  const ROW_6: seq<bv32> := [
    0x4DB26158, 0x3AB551CE, 0xA3BC0074, 0xD4BB30E2, 0x4ADFA541, 0x3DD895D7, 0xA4D1C46D, 0xD3D6F4FB,
    0x4369E96A, 0x346ED9FC, 0xAD678846, 0xDA60B8D0, 0x44042D73, 0x33031DE5, 0xAA0A4C5F, 0xDD0D7CC9
  ]
  const ROW_7: seq<bv32> := [
    0x5005713C, 0x270241AA, 0xBE0B1010, 0xC90C2086, 0x5768B525, 0x206F85B3, 0xB966D409, 0xCE61E49F,
    0x5EDEF90E, 0x29D9C998, 0xB0D09822, 0xC7D7A8B4, 0x59B33D17, 0x2EB40D81, 0xB7BD5C3B, 0xC0BA6CAD
  ]
  const ROW_8: seq<bv32> := [
    0xEDB88320, 0x9ABFB3B6, 0x03B6E20C, 0x74B1D29A, 0xEAD54739, 0x9DD277AF, 0x04DB2615, 0x73DC1683,
    0xE3630B12, 0x94643B84, 0x0D6D6A3E, 0x7A6A5AA8, 0xE40ECF0B, 0x9309FF9D, 0x0A00AE27, 0x7D079EB1
  ]
  const ROW_9: seq<bv32> := [
    0xF00F9344, 0x8708A3D2, 0x1E01F268, 0x6906C2FE, 0xF762575D, 0x806567CB, 0x196C3671, 0x6E6B06E7,
    0xFED41B76, 0x89D32BE0, 0x10DA7A5A, 0x67DD4ACC, 0xF9B9DF6F, 0x8EBEEFF9, 0x17B7BE43, 0x60B08ED5
  ]
  const ROW_A: seq<bv32> := [
    0xD6D6A3E8, 0xA1D1937E, 0x38D8C2C4, 0x4FDFF252, 0xD1BB67F1, 0xA6BC5767, 0x3FB506DD, 0x48B2364B,
    0xD80D2BDA, 0xAF0A1B4C, 0x36034AF6, 0x41047A60, 0xDF60EFC3, 0xA867DF55, 0x316E8EEF, 0x4669BE79
  ]
  const ROW_B: seq<bv32> := [
    0xCB61B38C, 0xBC66831A, 0x256FD2A0, 0x5268E236, 0xCC0C7795, 0xBB0B4703, 0x220216B9, 0x5505262F,
    0xC5BA3BBE, 0xB2BD0B28, 0x2BB45A92, 0x5CB36A04, 0xC2D7FFA7, 0xB5D0CF31, 0x2CD99E8B, 0x5BDEAE1D
  ]
  const ROW_C: seq<bv32> := [
    0x9B64C2B0, 0xEC63F226, 0x756AA39C, 0x026D930A, 0x9C0906A9, 0xEB0E363F, 0x72076785, 0x05005713,
    0x95BF4A82, 0xE2B87A14, 0x7BB12BAE, 0x0CB61B38, 0x92D28E9B, 0xE5D5BE0D, 0x7CDCEFB7, 0x0BDBDF21
  ]
  const ROW_D: seq<bv32> := [
    0x86D3D2D4, 0xF1D4E242, 0x68DDB3F8, 0x1FDA836E, 0x81BE16CD, 0xF6B9265B, 0x6FB077E1, 0x18B74777,
    0x88085AE6, 0xFF0F6A70, 0x66063BCA, 0x11010B5C, 0x8F659EFF, 0xF862AE69, 0x616BFFD3, 0x166CCF45
  ]
  const ROW_E: seq<bv32> := [
    0xA00AE278, 0xD70DD2EE, 0x4E048354, 0x3903B3C2, 0xA7672661, 0xD06016F7, 0x4969474D, 0x3E6E77DB,
    0xAED16A4A, 0xD9D65ADC, 0x40DF0B66, 0x37D83BF0, 0xA9BCAE53, 0xDEBB9EC5, 0x47B2CF7F, 0x30B5FFE9
  ]
  const ROW_F: seq<bv32> := [
    0xBDBDF21C, 0xCABAC28A, 0x53B39330, 0x24B4A3A6, 0xBAD03605, 0xCDD70693, 0x54DE5729, 0x23D967BF,
    0xB3667A2E, 0xC4614AB8, 0x5D681B02, 0x2A6F2B94, 0xB40BBE37, 0xC30C8EA1, 0x5A05DF1B, 0x2D02EF8D
  ]

  const CRC_TABLE: seq<seq<bv32>> :=
    [ROW_0, ROW_1, ROW_2, ROW_3, ROW_4, ROW_5, ROW_6, ROW_7,
     ROW_8, ROW_9, ROW_A, ROW_B, ROW_C, ROW_D, ROW_E, ROW_F]

  function Entry(i: bv8): bv32 {
    CRC_TABLE[(i >> 4) as int][(i & 15) as int]
  }

  // ---------------------------------------------------------------------------------------
  // The code: one table step per byte, and the three overloads
  // ---------------------------------------------------------------------------------------

  /** A char is signed; it is widened before it is mixed with the register. */
  function SignExtend(ch: bv8): bv32 {
    if ch & 0x80 != 0 then 0xFFFFFF00 | (ch as bv32) else ch as bv32
  }

  function Mix(x: bv32, y: bv32): bv32 {
    x ^ y
  }

  function Down(x: bv32): bv32 {
    x >> 8
  }

  function Index(crc: bv32, ch: bv8): bv8 {
    ((crc ^ SignExtend(ch)) & 0xFF) as bv8
  }

  function Compute(crc: bv32, ch: bv8): bv32 {
    Mix(Entry(Index(crc, ch)), Down(crc))
  }

  function Register(crc: bv32, msg: seq<bv8>): bv32 {
    Fold(Compute, crc, msg)
  }

  function Complement(x: bv32): bv32 {
    !x
  }

  /** The value the buffer overload returns for a seed and a message. */
  function Checksum(seed: bv32, msg: seq<bv8>): bv32 {
    Seeded(Compute, Complement, seed, msg)
  }

  lemma FromOnes(crc: bv32, msg: seq<bv8>)
    requires crc == Register(0xFFFFFFFF, msg)
    ensures !crc == Checksum(0, msg)
  {
    assert Complement(0) == 0xFFFFFFFF;
  }

  /** The string overload: str is a C string, and only the bytes before its first NUL count. */
  method FromString(str: seq<bv8>, ghost n: nat) returns (r: bv32)
    requires n < |str| && str[n] == 0 && forall i :: 0 <= i < n ==> str[i] != 0
    ensures r == Checksum(0, str[..n])
  {
    var crc: bv32 := 0xFFFFFFFF;
    var p := 0;
    while str[p] != 0
      invariant 0 <= p <= n && crc == Register(0xFFFFFFFF, str[..p])
      decreases n - p
    {
      FoldSnoc(Compute, 0xFFFFFFFF, str, p);
      crc := Compute(crc, str[p]);
      p := p + 1;
    }
    FromOnes(crc, str[..n]);
    r := !crc;
  }

  method FromBuffer(buffer: seq<bv8>, seed: bv32) returns (r: bv32)
    ensures r == Checksum(seed, buffer)
  {
    var crc := !seed;
    var p := 0;
    while p != |buffer|
      invariant 0 <= p <= |buffer| && crc == Register(!seed, buffer[..p])
    {
      FoldSnoc(Compute, !seed, buffer, p);
      crc := Compute(crc, buffer[p]);
      p := p + 1;
    }
    assert buffer[..p] == buffer;
    r := !crc;
  }

  method FromIovec(iov: seq<seq<bv8>>, seed: bv32) returns (r: bv32)
    ensures r == Checksum(seed, Flatten(iov))
  {
    var crc := !seed;
    for i := 0 to |iov|
      invariant crc == Register(!seed, Flatten(iov[..i]))
    {
      var p := 0;
      ghost var before := crc;
      while p != |iov[i]|
        invariant 0 <= p <= |iov[i]| && crc == Register(before, iov[i][..p])
      {
        FoldSnoc(Compute, before, iov[i], p);
        crc := Compute(crc, iov[i][p]);
        p := p + 1;
      }
      assert iov[i][..p] == iov[i];
      FlattenSnoc(iov, i);
      FoldConcat(Compute, !seed, Flatten(iov[..i]), iov[i]);
    }
    assert iov[..|iov|] == iov;
    r := !crc;
  }

  // ---------------------------------------------------------------------------------------
  // Words as registers of the polynomial model
  // ---------------------------------------------------------------------------------------

  predicate LowBit(x: bv32) {
    x & 1 == 1
  }

  function Half(x: bv32): bv32 {
    x >> 1
  }

  function WordBits(x: bv32): (b: Bits)
    ensures |b| == 32
  {
    Unpack(LowBit, Half, 32, x)
  }

  lemma MixBits(x: bv32, y: bv32)
    ensures LowBit(Mix(x, y)) == (LowBit(x) != LowBit(y))
    ensures Half(Mix(x, y)) == Mix(Half(x), Half(y))
  {
    assert (x ^ y) >> 1 == (x >> 1) ^ (y >> 1);
  }

  lemma WordBitsXor(x: bv32, y: bv32)
    ensures WordBits(x ^ y) == Xor(WordBits(x), WordBits(y))
  {
    forall a, b
      ensures LowBit(Mix(a, b)) == (LowBit(a) != LowBit(b)) && Half(Mix(a, b)) == Mix(Half(a), Half(b))
    {
      MixBits(a, b);
    }
    UnpackXor(LowBit, Half, Mix, 32, x, y);
  }

  function LowByte(x: bv32): bv8 {
    (x & 0xFF) as bv8
  }

  lemma LowOctet(n: nat, x: bv32)
    ensures Unpack(LowBit, Half, n + 8, x) == Octet(LowByte(x)) + Unpack(LowBit, Half, n, Down(x))
  {
    OctetBits(x);
    UnpackEight(LowBit, Half, n, x, x >> 1, x >> 2, x >> 3, x >> 4, x >> 5, x >> 6, x >> 7, x >> 8);
  }

  lemma OctetBits(x: bv32)
    ensures Octet(LowByte(x))
            == [LowBit(x), LowBit(x >> 1), LowBit(x >> 2), LowBit(x >> 3),
                LowBit(x >> 4), LowBit(x >> 5), LowBit(x >> 6), LowBit(x >> 7)]
  {
  }

  /** The octets of a word, least significant first. */
  lemma WordOctets(x: bv32)
    ensures WordBits(x) == Octet(LowByte(x)) + (Octet(LowByte(Down(x)))
               + (Octet(LowByte(Down(Down(x)))) + Octet(LowByte(Down(Down(Down(x)))))))
  {
    forall n: nat, y
      ensures Unpack(LowBit, Half, n + 8, y) == Octet(LowByte(y)) + Unpack(LowBit, Half, n, Down(y))
    {
      LowOctet(n, y);
    }
    UnpackFourBytes(LowBit, Half, LowByte, Down, x);
  }

  lemma ShiftedOut(n: nat, x: bv32)
    ensures Halve(Half, n + 8, x) == Halve(Half, n, Down(x))
  {
    HalveEight(Half, n, x);
    EightHalves(x);
  }

  lemma EightHalves(x: bv32)
    ensures Half(Half(Half(Half(Half(Half(Half(Half(x)))))))) == Down(x)
  {
  }

  lemma AllShiftedOut(x: bv32)
    ensures Halve(Half, 32, x) == 0
  {
    forall n: nat, y
      ensures Halve(Half, n + 8, y) == Halve(Half, n, Down(y))
    {
      ShiftedOut(n, y);
    }
    HalveFourBytes(Half, Down, x);
    NothingLeft(x);
  }

  lemma NothingLeft(x: bv32)
    ensures Down(Down(Down(Down(x)))) == 0
  {
  }

  lemma WordBitsInjective(x: bv32, y: bv32)
    requires WordBits(x) == WordBits(y)
    ensures x == y
  {
    forall a, b | LowBit(a) == LowBit(b) && Half(a) == Half(b)
      ensures a == b
    {
      assert a == (a >> 1 << 1) | (a & 1) && b == (b >> 1 << 1) | (b & 1);
    }
    AllShiftedOut(x);
    AllShiftedOut(y);
    UnpackInjective(LowBit, Half, 32, x, y);
  }

  lemma WordBitsHalf(x: bv32)
    ensures WordBits(x >> 1) == Shift(WordBits(x))
  {
    AllShiftedOut(x);
    UnpackHalf(LowBit, Half, 32, x);
  }

  lemma WordBitsNot(x: bv32)
    ensures WordBits(!x) == Not(WordBits(x))
  {
    assert !x == x ^ 0xFFFFFFFF;
    WordBitsXor(x, 0xFFFFFFFF);
    OnesBits();
  }

  lemma OnesBits()
    ensures WordBits(0xFFFFFFFF) == Not(Zeros(32))
  {
    WordOctets(0xFFFFFFFF);
  }

  // ---------------------------------------------------------------------------------------
  // The table against the generator polynomial
  // ---------------------------------------------------------------------------------------

  /** The terms below x^32 of the ISO 8802-3 generator polynomial, 0x04C11DB7. */
  predicate HasTerm(e: int) {
    e == 26 || e == 23 || e == 22 || e == 16 || e == 12 || e == 11 || e == 10
    || e == 8 || e == 7 || e == 5 || e == 4 || e == 2 || e == 1 || e == 0
  }

  const GENERATOR: Bits := seq(32, i => HasTerm(31 - i))

  /** The same polynomial, bit-reversed, as the shift register uses it. */
  const REFLECTED: bv32 := 0xEDB88320

  lemma GeneratorBits()
    ensures WordBits(REFLECTED) == GENERATOR
  {
    ReflectedOctets();
    GeneratorOctets();
  }

  lemma GeneratorOctets()
    ensures GENERATOR == Octet(0x20) + (Octet(0x83) + (Octet(0xB8) + (Octet(0xED))))
  {
    assert Octet(0x20) == GENERATOR[0..8];
    assert Octet(0x83) == GENERATOR[8..16];
    assert Octet(0xB8) == GENERATOR[16..24];
    assert Octet(0xED) == GENERATOR[24..32];
  }

  lemma ReflectedOctets()
    ensures WordBits(REFLECTED) == Octet(0x20) + (Octet(0x83) + (Octet(0xB8) + (Octet(0xED))))
  {
    WordOctets(REFLECTED);
  }

  function BitStep(x: bv32): bv32 {
    if x & 1 == 1 then (x >> 1) ^ REFLECTED else x >> 1
  }

  function EightSteps(x: bv32): bv32 {
    BitStep(BitStep(BitStep(BitStep(BitStep(BitStep(BitStep(BitStep(x))))))))
  }

  function RowOf(f: bv32 -> bv32, h: bv32): seq<bv32> {
    [f(h), f(h | 1), f(h | 2), f(h | 3), f(h | 4), f(h | 5), f(h | 6), f(h | 7),
     f(h | 8), f(h | 9), f(h | 10), f(h | 11), f(h | 12), f(h | 13), f(h | 14), f(h | 15)]
  }

  lemma Row0()
    ensures ROW_0 == RowOf(EightSteps, 0x00)
  {
  }

  lemma Row1()
    ensures ROW_1 == RowOf(EightSteps, 0x10)
  {
  }

  lemma Row2()
    ensures ROW_2 == RowOf(EightSteps, 0x20)
  {
  }

  lemma Row3()
    ensures ROW_3 == RowOf(EightSteps, 0x30)
  {
  }

  lemma Row4()
    ensures ROW_4 == RowOf(EightSteps, 0x40)
  {
  }

  lemma Row5()
    ensures ROW_5 == RowOf(EightSteps, 0x50)
  {
  }

  lemma Row6()
    ensures ROW_6 == RowOf(EightSteps, 0x60)
  {
  }

  lemma Row7()
    ensures ROW_7 == RowOf(EightSteps, 0x70)
  {
  }

  lemma Row8()
    ensures ROW_8 == RowOf(EightSteps, 0x80)
  {
  }

  lemma Row9()
    ensures ROW_9 == RowOf(EightSteps, 0x90)
  {
  }

  lemma RowA()
    ensures ROW_A == RowOf(EightSteps, 0xA0)
  {
  }

  lemma RowB()
    ensures ROW_B == RowOf(EightSteps, 0xB0)
  {
  }

  lemma RowC()
    ensures ROW_C == RowOf(EightSteps, 0xC0)
  {
  }

  lemma RowD()
    ensures ROW_D == RowOf(EightSteps, 0xD0)
  {
  }

  lemma RowE()
    ensures ROW_E == RowOf(EightSteps, 0xE0)
  {
  }

  lemma RowF()
    ensures ROW_F == RowOf(EightSteps, 0xF0)
  {
  }

  lemma Column(f: bv32 -> bv32, h: bv32, c: bv8)
    requires c < 16
    ensures RowOf(f, h)[c as int] == f(h | (c as bv32))
  {
    if c < 8 {
      if c == 0 {} else if c == 1 {} else if c == 2 {} else if c == 3 {}
      else if c == 4 {} else if c == 5 {} else if c == 6 {}
    } else {
      if c == 8 {} else if c == 9 {} else if c == 10 {} else if c == 11 {}
      else if c == 12 {} else if c == 13 {} else if c == 14 {}
    }
  }

  predicate RowsOf(f: bv32 -> bv32) {
    && ROW_0 == RowOf(f, 0x00) && ROW_1 == RowOf(f, 0x10) && ROW_2 == RowOf(f, 0x20) && ROW_3 == RowOf(f, 0x30)
    && ROW_4 == RowOf(f, 0x40) && ROW_5 == RowOf(f, 0x50) && ROW_6 == RowOf(f, 0x60) && ROW_7 == RowOf(f, 0x70)
    && ROW_8 == RowOf(f, 0x80) && ROW_9 == RowOf(f, 0x90) && ROW_A == RowOf(f, 0xA0) && ROW_B == RowOf(f, 0xB0)
    && ROW_C == RowOf(f, 0xC0) && ROW_D == RowOf(f, 0xD0) && ROW_E == RowOf(f, 0xE0) && ROW_F == RowOf(f, 0xF0)
  }

  lemma AllRows()
    ensures RowsOf(EightSteps)
  {
    Row0(); Row1(); Row2(); Row3(); Row4(); Row5(); Row6(); Row7();
    Row8(); Row9(); RowA(); RowB(); RowC(); RowD(); RowE(); RowF();
  }

  lemma TableRow(f: bv32 -> bv32, r: bv8)
    requires r < 16 && RowsOf(f)
    ensures CRC_TABLE[r as int] == RowOf(f, (r as bv32) << 4)
  {
    if r < 8 {
      if r == 0 {} else if r == 1 {} else if r == 2 {} else if r == 3 {}
      else if r == 4 {} else if r == 5 {} else if r == 6 {}
    } else {
      if r == 8 {} else if r == 9 {} else if r == 10 {} else if r == 11 {}
      else if r == 12 {} else if r == 13 {} else if r == 14 {}
    }
  }

  lemma EntryOf(f: bv32 -> bv32, i: bv8)
    requires RowsOf(f)
    ensures Entry(i) == f(i as bv32)
  {
    TableRow(f, i >> 4);
    Column(f, ((i >> 4) as bv32) << 4, i & 15);
    IndexSplit(i);
  }

  /** Every one of the 256 table entries is its index shifted eight times through the register. */
  lemma EntryIsEightSteps(i: bv8)
    ensures Entry(i) == EightSteps(i as bv32)
  {
    AllRows();
    EntryOf(EightSteps, i);
  }

  lemma IndexSplit(i: bv8)
    ensures (((i >> 4) as bv32) << 4) | ((i & 15) as bv32) == i as bv32
  {
  }

  lemma BitStepIsStep(x: bv32, y: bv32)
    requires y == BitStep(x)
    ensures WordBits(y) == Step(GENERATOR, WordBits(x))
  {
    GeneratorBits();
    WordBitsHalf(x);
    if x & 1 == 1 {
      WordBitsXor(x >> 1, REFLECTED);
    }
  }

  lemma EightStepsAreSteps(x: bv32)
    ensures WordBits(EightSteps(x)) == Steps(GENERATOR, 8, WordBits(x))
  {
    var x1 := BitStep(x);
    var x2 := BitStep(x1);
    var x3 := BitStep(x2);
    var x4 := BitStep(x3);
    FourSteps(x, x1, x2, x3, x4);
    var x5 := BitStep(x4);
    var x6 := BitStep(x5);
    var x7 := BitStep(x6);
    FourSteps(x4, x5, x6, x7, BitStep(x7));
    StepsConcat(GENERATOR, 4, 4, WordBits(x));
  }

  lemma FourSteps(x0: bv32, x1: bv32, x2: bv32, x3: bv32, x4: bv32)
    requires x1 == BitStep(x0) && x2 == BitStep(x1) && x3 == BitStep(x2) && x4 == BitStep(x3)
    ensures WordBits(x4) == Steps(GENERATOR, 4, WordBits(x0))
  {
    BitStepIsStep(x0, x1);
    BitStepIsStep(x1, x2);
    BitStepIsStep(x2, x3);
    BitStepIsStep(x3, x4);
    StepsFour(GENERATOR, WordBits(x0), WordBits(x1), WordBits(x2), WordBits(x3), WordBits(x4));
  }

  /** One table lookup absorbs exactly the eight bits of one byte. */
  lemma ComputeIsUpdate(crc: bv32, ch: bv8)
    ensures WordBits(Compute(crc, ch)) == Update(GENERATOR, WordBits(crc), Octet(ch))
  {
    forall x, y
      ensures WordBits(Mix(x, y)) == Xor(WordBits(x), WordBits(y))
    {
      WordBitsXor(x, y);
    }
    forall i
      ensures WordBits(Entry(i)) == Steps(GENERATOR, 8, WordBits(Wide(i)))
    {
      EntryBits(i);
    }
    forall x, c
      ensures WordBits(Wide(Index(x, c))) == Xor(WordBits(x)[..8], Octet(c)) + Zeros(24)
    {
      IndexOctet(x, c);
    }
    forall x
      ensures WordBits(Down(x)) == WordBits(x)[8..] + Zeros(8)
    {
      ShiftedBits(x);
    }
    TableLookup(WordBits, Mix, Entry, Wide, Index, Down, GENERATOR, crc, ch);
  }

  function Wide(i: bv8): bv32 {
    i as bv32
  }

  lemma IndexOctet(crc: bv32, ch: bv8)
    ensures WordBits(Wide(Index(crc, ch))) == Xor(WordBits(crc)[..8], Octet(ch)) + Zeros(24)
  {
    SignDropped(crc, ch);
    IndexBits(crc, ch as bv32);
  }

  lemma EntryBits(i: bv8)
    ensures WordBits(Entry(i)) == Steps(GENERATOR, 8, WordBits(Wide(i)))
  {
    EntryIsEightSteps(i);
    EightStepsAreSteps(i as bv32);
  }

  lemma SignDropped(crc: bv32, ch: bv8)
    ensures Wide(Index(crc, ch)) == (crc ^ (ch as bv32)) & 0xFF
    ensures LowByte(ch as bv32) == ch
  {
  }

  lemma IndexBits(crc: bv32, c: bv32)
    ensures WordBits((crc ^ c) & 0xFF) == Xor(WordBits(crc)[..8], Octet(LowByte(c))) + Zeros(24)
  {
    WordHead(c);
    WordHead(crc ^ c);
    ByteBits(crc ^ c);
    WordBitsXor(crc, c);
    XorTake(WordBits(crc), WordBits(c), 8);
  }

  lemma WordHead(x: bv32)
    ensures WordBits(x)[..8] == Octet(LowByte(x))
  {
    LowOctet(24, x);
  }

  lemma ByteBits(x: bv32)
    ensures WordBits(x & 0xFF) == Octet(LowByte(x)) + Zeros(24)
  {
    ByteAlone(x);
    LowOctet(24, x & 0xFF);
    UnpackZero(LowBit, Half, 24, 0);
  }

  lemma ByteAlone(x: bv32)
    ensures LowByte(x & 0xFF) == LowByte(x) && Down(x & 0xFF) == 0
  {
  }

  lemma ShiftedBits(x: bv32)
    ensures WordBits(Down(x)) == WordBits(x)[8..] + Zeros(8)
  {
    LowOctet(24, x);
    AllShiftedOut(x);
    ShiftedOut(24, x);
    UnpackLonger(LowBit, Half, 24, 8, Down(x));
  }

  /** The whole table loop is the polynomial register run over the bits of the message. */
  lemma RegisterIsUpdate(crc: bv32, msg: seq<bv8>)
    ensures WordBits(Register(crc, msg)) == Update(GENERATOR, WordBits(crc), MessageBits(msg))
  {
    forall x, ch
      ensures WordBits(Compute(x, ch)) == Update(GENERATOR, WordBits(x), Octet(ch))
    {
      ComputeIsUpdate(x, ch);
    }
    FoldIsUpdate(Compute, WordBits, GENERATOR, crc, msg);
  }

  // ---------------------------------------------------------------------------------------
  // Properties of the checksum
  // ---------------------------------------------------------------------------------------

  lemma ChecksumIsUpdate(seed: bv32, msg: seq<bv8>)
    ensures WordBits(Checksum(seed, msg)) == Not(Update(GENERATOR, WordBits(!seed), MessageBits(msg)))
  {
    RegisterIsUpdate(!seed, msg);
    WordBitsNot(Register(!seed, msg));
  }

  /**
   * A word is the checksum of a message exactly when its complement is the remainder of the
   * message polynomial, with the complemented seed added to its leading terms, divided by the generator.
   */
  lemma ChecksumIffRemainder(seed: bv32, msg: seq<bv8>, c: bv32)
    ensures c == Checksum(seed, msg)
            <==> IsRemainder(GENERATOR, WordBits(!seed), MessageBits(msg), Not(WordBits(c)))
  {
    var k := Checksum(seed, msg);
    var rem := Update(GENERATOR, WordBits(!seed), MessageBits(msg));
    ChecksumIsUpdate(seed, msg);
    RemainderIff(GENERATOR, WordBits(!seed), MessageBits(msg), Not(WordBits(c)));
    NotNot(rem);
    SameComplement(c, k);
  }

  lemma SameComplement(c: bv32, k: bv32)
    ensures Not(WordBits(c)) == Not(WordBits(k)) <==> c == k
  {
    if c != k {
      if WordBits(c) == WordBits(k) {
        WordBitsInjective(c, k);
      }
      NotInjective(WordBits(c), WordBits(k));
    }
  }

  /** Feeding one result as the seed of the next gives the checksum of the concatenation. */
  lemma ChecksumChained(seed: bv32, a: seq<bv8>, b: seq<bv8>)
    ensures Checksum(Checksum(seed, a), b) == Checksum(seed, a + b)
  {
    DoubleComplement(Register(!seed, a));
    SeededChained(Compute, Complement, seed, a, b);
  }

  lemma DoubleComplement(x: bv32)
    ensures Complement(Complement(x)) == x
  {
  }

  /**
   * Two messages that differ, and differ only inside a window of at most 32 bits at any bit
   * offset, never have the same checksum.
   */
  lemma BurstChangesChecksum(seed: bv32, m1: seq<bv8>, m2: seq<bv8>, before: Bits, a: Bits, b: Bits, after: Bits)
    requires MessageBits(m1) == before + a + after && MessageBits(m2) == before + b + after
    requires |a| == |b| <= 32 && m1 != m2
    ensures Checksum(seed, m1) != Checksum(seed, m2)
  {
    if a == b {
      MessageBitsInjective(m1, m2);
    }
    ChecksumIsUpdate(seed, m1);
    ChecksumIsUpdate(seed, m2);
    var r := WordBits(!seed);
    BurstDetected(GENERATOR, r, before, a, b, after);
    NotInjective(Update(GENERATOR, r, MessageBits(m1)), Update(GENERATOR, r, MessageBits(m2)));
  }

  /** The byte form: a change confined to 4 consecutive bytes is always seen. */
  lemma WindowChangesChecksum(seed: bv32, before: seq<bv8>, a: seq<bv8>, b: seq<bv8>, after: seq<bv8>)
    requires |a| == |b| <= 4 && a != b
    ensures Checksum(seed, before + a + after) != Checksum(seed, before + b + after)
  {
    MessageBitsWindow(before, a, after);
    MessageBitsWindow(before, b, after);
    assert (before + a + after)[|before|..|before| + |a|] == a;
    assert (before + b + after)[|before|..|before| + |b|] == b;
    BurstChangesChecksum(seed, before + a + after, before + b + after,
                         MessageBits(before), MessageBits(a), MessageBits(b), MessageBits(after));
  }

  /** The bytes of a word, least significant first. */
  function LittleEndian(c: bv32): (b: seq<bv8>)
    ensures |b| == 4
  {
    [LowByte(c), LowByte(Down(c)), LowByte(Down(Down(c))), LowByte(Down(Down(Down(c))))]
  }

  lemma LittleEndianBits(c: bv32)
    ensures MessageBits(LittleEndian(c)) == WordBits(c)
  {
    WordOctets(c);
    MessageBitsFour(LowByte(c), LowByte(Down(c)), LowByte(Down(Down(c))), LowByte(Down(Down(Down(c)))));
  }

  /** The constant left in the register by a good frame. */
  const GOOD: bv32 := 0xDEBB20E3

  lemma GoodIsResidue()
    ensures WordBits(GOOD) == Residue(GENERATOR)
  {
    OnesBits();
    EightStepsAreSteps(0xFFFFFFFF);
    EightStepsAreSteps(EightSteps(0xFFFFFFFF));
    StepsConcat(GENERATOR, 8, 8, Not(Zeros(32)));
    EightStepsAreSteps(EightSteps(EightSteps(0xFFFFFFFF)));
    StepsConcat(GENERATOR, 16, 8, Not(Zeros(32)));
    EightStepsAreSteps(EightSteps(EightSteps(EightSteps(0xFFFFFFFF))));
    StepsConcat(GENERATOR, 24, 8, Not(Zeros(32)));
    GoodValue();
  }

  lemma GoodValue()
    ensures EightSteps(EightSteps(EightSteps(EightSteps(0xFFFFFFFF)))) == GOOD
  {
  }

  /**
   * A frame of a message and 4 more bytes checks to one fixed value, independent of message and
   * seed, exactly when those bytes are the message's own checksum, low byte first.
   */
  lemma GoodFrameIff(seed: bv32, msg: seq<bv8>, check: seq<bv8>)
    requires |check| == 4
    ensures Checksum(seed, msg + check) == !GOOD <==> check == LittleEndian(Checksum(seed, msg))
  {
    var r := Update(GENERATOR, WordBits(!seed), MessageBits(msg));
    var own := LittleEndian(Checksum(seed, msg));
    ChecksumIsUpdate(seed, msg);
    ChecksumIsUpdate(seed, msg + check);
    MessageBitsConcat(msg, check);
    UpdateConcat(GENERATOR, WordBits(!seed), MessageBits(msg), MessageBits(check));
    ResidueIff(GENERATOR, r, MessageBits(check));
    GoodIsResidue();
    WordBitsNot(GOOD);
    LittleEndianBits(Checksum(seed, msg));
    var u := Update(GENERATOR, r, MessageBits(check));
    if u != Residue(GENERATOR) {
      NotInjective(u, Residue(GENERATOR));
    } else {
      WordBitsInjective(Checksum(seed, msg + check), !GOOD);
    }
    if MessageBits(check) == MessageBits(own) {
      MessageBitsInjective(check, own);
    }
  }
}
