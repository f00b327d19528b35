/**
 * The 16-byte CDR long double held as bytes, and its conversions from and to an 8-byte native double.
 */
module LongDouble {
  import opened SwapArray

  // ---------------------------------------------------------------------------------------
  // IEEE 754 values, read off big-endian bytes
  // ---------------------------------------------------------------------------------------

  datatype Value = NotANumber | Infinite(negative: bool) | Finite(value: real)

  function Power2(e: int): (p: real)
    ensures p > 0.0
    decreases if e < 0 then -e else e
  {
    if e == 0 then 1.0 else if e > 0 then 2.0 * Power2(e - 1) else Power2(e + 1) / 2.0
  }

  /** Hexadecimal digit i of a byte string, most significant first. */
  function Digit(b: seq<byte>, i: nat): bv4
    requires i < 2 * |b|
  {
    if i % 2 == 0 then (b[i / 2] >> 4) as bv4 else (b[i / 2] & 0xf) as bv4
  }

  /** The digits from position start on. */
  function Digits(b: seq<byte>, start: nat): (d: seq<bv4>)
    requires start <= 2 * |b|
    ensures |d| == 2 * |b| - start
  {
    seq(2 * |b| - start, i requires 0 <= i < 2 * |b| - start => Digit(b, start + i))
  }

  /** The number 0.d0d1d2... in base 16. */
  function Fraction(d: seq<bv4>): (f: real)
    ensures 0.0 <= f < 1.0
  {
    if d == [] then 0.0 else (d[0] as int as real + Fraction(d[1..])) / 16.0
  }

  /** Plus or minus m times 2^e. */
  function Scaled(negative: bool, e: int, m: real): real {
    if negative then -(Power2(e) * m) else Power2(e) * m
  }

  /**
   * An IEEE 754 number from its sign, biased exponent and fraction; top is the all-ones exponent.
   * Exponent field 0 has the scale of field 1 and no leading one.
   */
  function Decode(negative: bool, exponent: int, bias: int, top: int, fraction: real): Value {
    if exponent == top then if fraction == 0.0 then Infinite(negative) else NotANumber
    else if exponent == 0 then Finite(Scaled(negative, exponent + 1 - bias, fraction))
    else Finite(Scaled(negative, exponent - bias, 1.0 + fraction))
  }

  /** Subnormals go on where normal numbers end: one is the smallest normal number below that with its fraction. */
  lemma GradualUnderflow(bias: int, top: int, f: real)
    requires top > 1
    ensures var below, above := Decode(false, 0, bias, top, f), Decode(false, 1, bias, top, f);
            && below.Finite? && above.Finite?
            && Finite(above.value - below.value) == Decode(false, 1, bias, top, 0.0)
  {
    var p := Power2(1 - bias);
    assert p * (1.0 + f) - p * f == p;
  }

  /** Sign and exponent of a double, and of a quad: the leading 16 bits. */
  function Head(b: seq<byte>): bv16
    requires |b| >= 2
  {
    Join2(b[1], b[0])
  }

  function Exponent64(b: seq<byte>): bv16
    requires |b| == 8
  {
    (Head(b) & 0x7ff0) >> 4
  }

  function Exponent128(q: seq<byte>): bv16
    requires |q| == 16
  {
    Head(q) & 0x7fff
  }

  /** Section 3.4 of IEEE 754-2008, binary64. */
  function Value64(b: seq<byte>): Value
    requires |b| == 8
  {
    Decode(b[0] & 0x80 != 0, Exponent64(b) as int, 1023, 0x7ff, Fraction(Digits(b, 3)))
  }

  /** Section 3.4 of IEEE 754-2008, binary128. */
  function Value128(q: seq<byte>): Value
    requires |q| == 16
  {
    Decode(q[0] & 0x80 != 0, Exponent128(q) as int, 16383, 0x7fff, Fraction(Digits(q, 4)))
  }

  // ---------------------------------------------------------------------------------------
  // The two conversions on big-endian bytes
  // ---------------------------------------------------------------------------------------

  /** A signed char widened to 16 bits. */
  function Promote(c: byte): bv16 {
    if c & 0x80 != 0 then 0xff00 | (c as bv16) else c as bv16
  }

  const MAX_ELEVEN_BIT: bv16 := 0x3ff
  const MAX_FIFTEEN_BIT: bv16 := 0x3fff

  /** The leading 16 bits assign computes from the first two bytes of a double. */
  function WidenHead(b0: byte, b1: byte): bv16 {
    var sign := Promote(b0) & 0x8000;
    var exponent := ((Promote(b0) & 0x7f) << 4) | ((Promote(b1) >> 4) & 0xf);
    (if exponent == 0x7ff then 0x7fff else (exponent - MAX_ELEVEN_BIT) + MAX_FIFTEEN_BIT) | sign
  }

  function Widen(b: seq<byte>): (q: seq<byte>)
    requires |b| == 8
    ensures |q| == 16
  {
    var h := WidenHead(b[0], b[1]);
    [(h >> 8) as byte, (h & 0xff) as byte] + seq(14, i requires 0 <= i => WidenByte(b, i + 2))
  }

  /** Byte j >= 2 of the quad: two digits of the double's fraction, straddling its bytes. */
  function WidenByte(b: seq<byte>, j: nat): byte
    requires |b| == 8 && j >= 2
  {
    (if j <= 8 then Raise(b[j - 1]) else 0) | (if j < 8 then Lower(b[j]) else 0)
  }

  function Raise(c: byte): byte {
    (c << 4) & 0xf0
  }

  function Lower(c: byte): byte {
    (c >> 4) & 0xf
  }

  /** The leading 16 bits the conversion back computes from those of a quad. */
  function NarrowHead(h: bv16): bv16 {
    var sign := h & 0x8000;
    var exponent := h & 0x7fff;
    ((if exponent == 0x7fff then 0x7ff else (exponent - MAX_FIFTEEN_BIT) + MAX_ELEVEN_BIT) << 4) | sign
  }

  function Narrow(q: seq<byte>): (b: seq<byte>)
    requires |q| == 16
    ensures |b| == 8
  {
    var h := NarrowHead(Head(q));
    [(h >> 8) as byte, ((h & 0xff) as byte) | Lower(q[2])] + seq(6, i requires 0 <= i < 6 => NarrowByte(q, i + 2))
  }

  function NarrowByte(q: seq<byte>, j: nat): byte
    requires |q| == 16 && 2 <= j < 8
  {
    ((q[j] & 0xf) << 4) | Lower(q[j + 1])
  }

  // ---------------------------------------------------------------------------------------
  // Round trips
  // ---------------------------------------------------------------------------------------

  /** Every double survives the trip through the quad, bit for bit. */
  lemma RoundTrip(b: seq<byte>)
    requires |b| == 8
    ensures Narrow(Widen(b)) == b
  {
  }

  lemma WidenedHead(b: seq<byte>)
    requires |b| == 8
    ensures Head(Widen(b)) == WidenHead(b[0], b[1])
  {
    HeadBytes(WidenHead(b[0], b[1]));
  }

  lemma HeadBytes(h: bv16)
    ensures ((((h >> 8) as byte) as bv16) << 8) | (((h & 0xff) as byte) as bv16) == h
  {
  }

  predicate RangeKept(e: bv16) {
    e == 0x7fff || 0x3c00 <= e <= 0x43fe
  }

  /** The quads that are images of doubles. */
  predicate FromDouble(q: seq<byte>)
    requires |q| == 16
  {
    var e := Exponent128(q);
    RangeKept(e) && q[8] & 0xf == 0 && forall j :: 9 <= j < 16 ==> q[j] == 0
  }

  /** The other way round the trip is lossless for exactly the quads with a double's exponent range and precision. */
  lemma QuadRoundTrip(q: seq<byte>)
    requires |q| == 16
    ensures Widen(Narrow(q)) == q <==> FromDouble(q)
  {
    HeadIff(q);
    TailIff(q);
    TailBytes(q);
    SameBytes(Widen(Narrow(q)), q);
  }

  lemma SameBytes(r: seq<byte>, q: seq<byte>)
    requires |r| == |q| == 16
    ensures r == q <==> r[0] == q[0] && r[1] == q[1] && forall j :: 2 <= j < 16 ==> r[j] == q[j]
  {
  }

  lemma HeadIff(q: seq<byte>)
    requires |q| == 16
    ensures var r := Widen(Narrow(q)); r[0] == q[0] && r[1] == q[1] <==> RangeKept(Exponent128(q))
  {
    var b := Narrow(q);
    SameHead(Widen(b), q);
    WidenedHead(b);
    HeadOfNarrow(q, b);
  }

  lemma HeadOfNarrow(q: seq<byte>, b: seq<byte>)
    requires |q| == 16 && b == Narrow(q)
    ensures WidenHead(b[0], b[1]) == Head(q) <==> RangeKept(Exponent128(q))
  {
    var h := Head(q);
    assert Exponent128(q) == h & 0x7fff;
    NarrowedTo(q, h, b[0], b[1], q[2]);
    QuadHead(h, b[0], b[1], q[2]);
  }

  lemma NarrowedTo(q: seq<byte>, h: bv16, b0: byte, b1: byte, c: byte)
    requires |q| == 16 && h == Head(q) && b0 == Narrow(q)[0] && b1 == Narrow(q)[1] && c == q[2]
    ensures b0 == (NarrowHead(h) >> 8) as byte && b1 == ((NarrowHead(h) & 0xff) as byte) | ((c >> 4) & 0xf)
  {
    NarrowedHead(q);
  }

  lemma SameHead(r: seq<byte>, q: seq<byte>)
    requires |r| == |q| == 16
    ensures r[0] == q[0] && r[1] == q[1] <==> Head(r) == Head(q)
  {
    SameBytePair(r[0], r[1], q[0], q[1]);
  }

  lemma SameBytePair(a: byte, b: byte, c: byte, d: byte)
    ensures a == c && b == d <==> Join2(b, a) == Join2(d, c)
  {
  }

  lemma TailBytes(q: seq<byte>)
    requires |q| == 16
    ensures (forall j :: 2 <= j < 16 ==> Widen(Narrow(q))[j] == q[j])
            <==> forall j :: 2 <= j < 16 ==> QuadTail(q, j) == q[j]
  {
    forall j | 2 <= j < 16
      ensures Widen(Narrow(q))[j] == QuadTail(q, j)
    {
      QuadByte(q, j);
    }
  }

  /** What is left of byte j of a quad after the trip. */
  function QuadTail(q: seq<byte>, j: nat): byte
    requires 2 <= j < |q|
  {
    if j < 8 then q[j] else if j == 8 then q[8] & 0xf0 else 0
  }

  lemma TailIff(q: seq<byte>)
    requires |q| == 16
    ensures (forall j :: 2 <= j < 16 ==> QuadTail(q, j) == q[j])
            <==> q[8] & 0xf == 0 && forall j :: 9 <= j < 16 ==> q[j] == 0
  {
  }

  lemma NarrowedHead(q: seq<byte>)
    requires |q| == 16
    ensures var b, h := Narrow(q), NarrowHead(Head(q));
            b[0] == (h >> 8) as byte && b[1] == ((h & 0xff) as byte) | ((q[2] >> 4) & 0xf)
  {
  }

  lemma QuadHead(h: bv16, b0: byte, b1: byte, c: byte)
    requires b0 == (NarrowHead(h) >> 8) as byte && b1 == ((NarrowHead(h) & 0xff) as byte) | ((c >> 4) & 0xf)
    ensures WidenHead(b0, b1) == h <==> RangeKept(h & 0x7fff)
  {
    SplitHead(NarrowHead(h), b0, b1, c);
    RebiasRoundTrip(h);
  }

  lemma LowDigitOf(h: bv16, b1: byte, c: byte)
    requires h & 0xf == 0 && b1 == ((h & 0xff) as byte) | ((c >> 4) & 0xf)
    ensures b1 & 0xf == (c >> 4) & 0xf
  {
  }

  lemma NarrowHeadLow(h: bv16)
    ensures NarrowHead(h) & 0xf == 0
  {
  }

  /** WidenHead sees only the upper twelve bits of the two bytes. */
  lemma SplitHead(n: bv16, b0: byte, b1: byte, c: byte)
    requires b0 == (n >> 8) as byte && b1 == ((n & 0xff) as byte) | ((c >> 4) & 0xf)
    ensures WidenHead(b0, b1) == WidenExponent((n & 0x7ff0) >> 4) | (n & 0x8000)
  {
    PackedExponent(b0, b1);
    UpperBits(n, b0, b1, c);
  }

  lemma UpperBits(n: bv16, b0: byte, b1: byte, c: byte)
    requires b0 == (n >> 8) as byte && b1 == ((n & 0xff) as byte) | ((c >> 4) & 0xf)
    ensures ((((b0 as bv16) << 8) | (b1 as bv16)) & 0x7ff0) >> 4 == (n & 0x7ff0) >> 4
    ensures Promote(b0) & 0x8000 == n & 0x8000
  {
  }

  function WidenExponent(e: bv16): bv16 {
    if e == 0x7ff then 0x7fff else (e - MAX_ELEVEN_BIT) + MAX_FIFTEEN_BIT
  }

  lemma RebiasRoundTrip(h: bv16)
    ensures var n := NarrowHead(h);
            WidenExponent((n & 0x7ff0) >> 4) | (n & 0x8000) == h
            <==> RangeKept(h & 0x7fff)
  {
  }

  lemma QuadByte(q: seq<byte>, j: nat)
    requires |q| == 16 && 2 <= j < 16
    ensures Widen(Narrow(q))[j] == QuadTail(q, j)
  {
    if j == 2 {
      FirstQuadByte(q, Narrow(q));
    } else if j <= 8 {
      NextQuadByte(q, Narrow(q), j);
    }
  }

  lemma FirstQuadByte(q: seq<byte>, b: seq<byte>)
    requires |q| == 16 && b == Narrow(q)
    ensures Widen(b)[2] == QuadTail(q, 2)
  {
    NarrowedHead(q);
    assert b[2] == NarrowByte(q, 2) && Widen(b)[2] == WidenByte(b, 2);
    FirstFraction(Head(q), b[1], q[2], q[3]);
  }

  lemma NextQuadByte(q: seq<byte>, b: seq<byte>, j: nat)
    requires |q| == 16 && b == Narrow(q) && 2 < j <= 8
    ensures Widen(b)[j] == QuadTail(q, j)
  {
    assert b[j - 1] == NarrowByte(q, j - 1) && Widen(b)[j] == WidenByte(b, j);
    if j < 8 {
      assert b[j] == NarrowByte(q, j);
      NextFraction(q[j - 1], q[j], q[j + 1]);
    } else {
      NarrowDigits(q[7], q[8]);
    }
  }

  lemma FirstFraction(h: bv16, b1: byte, c: byte, d: byte)
    requires b1 == ((NarrowHead(h) & 0xff) as byte) | ((c >> 4) & 0xf)
    ensures ((b1 << 4) & 0xf0) | (((((c & 0xf) << 4) | ((d >> 4) & 0xf)) >> 4) & 0xf) == c
  {
    NarrowHeadLow(h);
    LowDigitOf(NarrowHead(h), b1, c);
    JoinDigits(b1, c, d);
  }

  lemma NextFraction(a: byte, b: byte, c: byte)
    ensures var x, y := ((a & 0xf) << 4) | ((b >> 4) & 0xf), ((b & 0xf) << 4) | ((c >> 4) & 0xf);
            ((x << 4) & 0xf0) | ((y >> 4) & 0xf) == b
  {
    NarrowDigits(a, b);
    JoinDigits(((a & 0xf) << 4) | ((b >> 4) & 0xf), b, c);
  }

  lemma NarrowDigits(a: byte, b: byte)
    ensures (((a & 0xf) << 4) | ((b >> 4) & 0xf)) & 0xf == (b >> 4) & 0xf
    ensures ((((((a & 0xf) << 4) | ((b >> 4) & 0xf)) << 4) & 0xf0) | 0) == b & 0xf0
  {
  }

  lemma JoinDigits(a: byte, b: byte, c: byte)
    requires a & 0xf == (b >> 4) & 0xf
    ensures ((a << 4) & 0xf0) | (((((b & 0xf) << 4) | ((c >> 4) & 0xf)) >> 4) & 0xf) == b
  {
  }

  // ---------------------------------------------------------------------------------------
  // What the quad is worth
  // ---------------------------------------------------------------------------------------

  /** Sign and fraction are kept; the exponent is rebiased, and the special exponent stays special. */
  lemma WidenedFields(b: seq<byte>)
    requires |b| == 8
    ensures var q := Widen(b);
            && (q[0] & 0x80 != 0 <==> b[0] & 0x80 != 0)
            && Exponent128(q) == (if Exponent64(b) == 0x7ff then 0x7fff else Exponent64(b) + 0x3c00)
            && Fraction(Digits(q, 4)) == Fraction(Digits(b, 3))
  {
    WidenedHead(b);
    HeadSign(b[0], b[1]);
    HeadExponent(b[0], b[1]);
    WidenedDigits(b);
    TrailingZeros(Digits(b, 3), 15);
  }

  lemma HeadSign(b0: byte, b1: byte)
    ensures ((WidenHead(b0, b1) >> 8) as byte) & 0x80 != 0 <==> b0 & 0x80 != 0
  {
  }

  lemma HeadExponent(b0: byte, b1: byte)
    ensures var e := ((((b0 as bv16) << 8) | (b1 as bv16)) & 0x7ff0) >> 4;
            WidenHead(b0, b1) & 0x7fff == (if e == 0x7ff then 0x7fff else e + 0x3c00)
  {
    PackedExponent(b0, b1);
  }

  lemma PackedExponent(b0: byte, b1: byte)
    ensures ((Promote(b0) & 0x7f) << 4) | ((Promote(b1) >> 4) & 0xf)
            == ((((b0 as bv16) << 8) | (b1 as bv16)) & 0x7ff0) >> 4
  {
  }

  lemma WidenedDigits(b: seq<byte>)
    requires |b| == 8
    ensures Digits(Widen(b), 4) == Digits(b, 3) + seq(15, i => 0 as bv4)
  {
    var d, f := Digits(Widen(b), 4), Digits(b, 3) + seq(15, i => 0 as bv4);
    forall i | 0 <= i < 28
      ensures d[i] == f[i]
    {
      var j := 2 + i / 2;
      assert (4 + i) / 2 == j && Widen(b)[j] == WidenByte(b, j);
      if j <= 8 {
        WidenDigits(b[j - 1], if j < 8 then b[j] else 0);
        if i % 2 == 0 {
          assert (3 + i) / 2 == j - 1 && (3 + i) % 2 == 1;
        } else {
          assert (3 + i) / 2 == j && (3 + i) % 2 == 0;
        }
      }
    }
  }

  lemma WidenDigits(a: byte, b: byte)
    ensures ((((a << 4) & 0xf0) | ((b >> 4) & 0xf)) >> 4) as bv4 == (a & 0xf) as bv4
    ensures ((((a << 4) & 0xf0) | ((b >> 4) & 0xf)) & 0xf) as bv4 == (b >> 4) as bv4
    ensures ((((a << 4) & 0xf0) | 0) >> 4) as bv4 == (a & 0xf) as bv4 && ((((a << 4) & 0xf0) | 0) & 0xf) as bv4 == 0
  {
  }

  lemma {:induction false} TrailingZeros(d: seq<bv4>, n: nat)
    ensures Fraction(d + seq(n, i => 0 as bv4)) == Fraction(d)
  {
    var z := seq(n, i => 0 as bv4);
    if d != [] {
      assert (d + z)[1..] == d[1..] + z;
      TrailingZeros(d[1..], n);
    } else if n > 0 {
      assert (d + z)[1..] == [] + seq(n - 1, i => 0 as bv4);
      TrailingZeros([], n - 1);
    } else {
      assert d + z == [];
    }
  }

  /**
   * The quad has the value of the double for infinities, NaNs and normal numbers, and never for the
   * doubles whose exponent field is zero: zeros and subnormals come out as nonzero normal quads.
   */
  lemma ValueKeptIff(b: seq<byte>)
    requires |b| == 8
    ensures Value128(Widen(b)) == Value64(b) <==> Exponent64(b) != 0
  {
    WidenedValue(b);
    ExponentRange(b);
    DecodeKeptIff(b[0] & 0x80 != 0, Exponent64(b) as int, Fraction(Digits(b, 3)));
  }

  /** Zero becomes a quad with exponent field 0x3c00. */
  lemma ZeroExample()
    ensures var b := seq(8, i => 0); Exponent128(Widen(b)) == 0x3c00 && Value128(Widen(b)) != Value64(b)
  {
    var b: seq<byte> := seq(8, i => 0);
    assert b[0] == 0 && b[1] == 0;
    WidenedHead(b);
    ValueKeptIff(b);
  }

  /**
   * Every quad: the exponent is rebiased modulo 2^11, its twelfth bit is put over the sign, and 13 digits of the
   * fraction are kept.
   */
  lemma NarrowedFields(q: seq<byte>)
    requires |q| == 16
    ensures var b, e := Narrow(q), Exponent128(q);
            && Exponent64(b) == (if e == 0x7fff then 0x7ff else (e - 0x3c00) & 0x7ff)
            && (b[0] & 0x80 != 0 <==> q[0] & 0x80 != 0 || (e != 0x7fff && (e - 0x3c00) & 0x800 != 0))
            && Digits(b, 3) == Digits(q, 4)[..13]
  {
    NarrowedHeadFields(q, Narrow(q), Head(q), Exponent128(q));
    NarrowedDigits(q);
  }

  lemma NarrowedHeadFields(q: seq<byte>, b: seq<byte>, h: bv16, e: bv16)
    requires |q| == 16 && b == Narrow(q) && h == Head(q) && e == h & 0x7fff
    ensures Exponent64(b) == (if e == 0x7fff then 0x7ff else (e - 0x3c00) & 0x7ff)
    ensures b[0] & 0x80 != 0 <==> q[0] & 0x80 != 0 || (e != 0x7fff && (e - 0x3c00) & 0x800 != 0)
  {
    NarrowedTo(q, h, b[0], b[1], q[2]);
    NarrowedExponent(h, e, b[0], b[1], q[2]);
    QuadSign(q[0], q[1]);
  }

  lemma NarrowedExponent(h: bv16, e: bv16, b0: byte, b1: byte, c: byte)
    requires e == h & 0x7fff
    requires b0 == (NarrowHead(h) >> 8) as byte && b1 == ((NarrowHead(h) & 0xff) as byte) | ((c >> 4) & 0xf)
    ensures (Join2(b1, b0) & 0x7ff0) >> 4 == (if e == 0x7fff then 0x7ff else (e - 0x3c00) & 0x7ff)
    ensures b0 & 0x80 != 0 <==> h & 0x8000 != 0 || (e != 0x7fff && (e - 0x3c00) & 0x800 != 0)
  {
  }

  lemma QuadSign(a: byte, b: byte)
    ensures Join2(b, a) & 0x8000 != 0 <==> a & 0x80 != 0
  {
  }

  lemma NarrowedDigits(q: seq<byte>)
    requires |q| == 16
    ensures Digits(Narrow(q), 3) == Digits(q, 4)[..13]
  {
    var b := Narrow(q);
    var d, f := Digits(b, 3), Digits(q, 4);
    forall i | 0 <= i < 13
      ensures d[i] == f[i]
    {
      NarrowedDigit(q, b, i);
    }
  }

  lemma NarrowedDigit(q: seq<byte>, b: seq<byte>, i: nat)
    requires |q| == 16 && b == Narrow(q) && i < 13
    ensures Digit(b, 3 + i) == Digit(q, 4 + i)
  {
    var j := (3 + i) / 2;
    if i % 2 == 0 {
      assert (3 + i) % 2 == 1 && (4 + i) / 2 == j + 1;
      if j == 1 {
        NarrowedHead(q);
        NarrowHeadLow(Head(q));
        LowDigitOf(NarrowHead(Head(q)), b[1], q[2]);
      } else {
        assert b[j] == NarrowByte(q, j);
        DigitsOfByte(q[j], q[j + 1]);
      }
    } else {
      assert (3 + i) % 2 == 0 && (4 + i) / 2 == j && b[j] == NarrowByte(q, j);
      DigitsOfByte(q[j], if j + 1 < 16 then q[j + 1] else 0);
    }
  }

  lemma DigitsOfByte(a: byte, b: byte)
    ensures var c := ((a & 0xf) << 4) | ((b >> 4) & 0xf);
            (c >> 4) as bv4 == (a & 0xf) as bv4 && (c & 0xf) as bv4 == (b >> 4) as bv4
  {
  }

  lemma ZeroDigits(q: seq<byte>)
    requires |q| == 16 && forall j :: 0 <= j < 16 ==> q[j] == 0
    ensures Digits(q, 4) == seq(28, i => 0 as bv4)
  {
    var d := Digits(q, 4);
    forall i | 0 <= i < 28
      ensures d[i] == 0
    {
      assert q[(4 + i) / 2] == 0;
    }
  }

  /** A quad of zeros, the value 0, is converted to the double 2. */
  lemma ZeroQuadExample()
    ensures var q := seq(16, i => 0); Value128(q) == Finite(0.0) && Value64(Narrow(q)) == Finite(2.0)
  {
    var q: seq<byte> := seq(16, i => 0);
    var b := Narrow(q);
    NarrowedFields(q);
    assert Head(q) == 0 && q[0] == 0;
    ZeroDigits(q);
    TrailingZeros([], 28);
    TrailingZeros([], 13);
    assert Digits(q, 4) == [] + seq(28, i => 0 as bv4);
    assert Digits(b, 3) == [] + seq(13, i => 0 as bv4);
    assert Power2(1) == 2.0 * Power2(0) == 2.0;
  }

  function Rebias(e: int): int {
    if e == 0x7ff then 0x7fff else e + 0x3c00
  }

  lemma WidenedValue(b: seq<byte>)
    requires |b| == 8
    ensures Value128(Widen(b))
            == Decode(b[0] & 0x80 != 0, Rebias(Exponent64(b) as int), 16383, 0x7fff, Fraction(Digits(b, 3)))
  {
    WidenedFields(b);
    ExponentRange(b);
    RebiasedExponent(Exponent64(b), Exponent128(Widen(b)));
  }

  lemma RebiasedExponent(e: bv16, r: bv16)
    requires r == (if e == 0x7ff then 0x7fff else e + 0x3c00) && e <= 0x7ff
    ensures r as int == Rebias(e as int)
  {
  }

  lemma DecodeKeptIff(negative: bool, e: int, f: real)
    requires 0 <= e <= 0x7ff && 0.0 <= f < 1.0
    ensures Decode(negative, Rebias(e), 16383, 0x7fff, f) == Decode(negative, e, 1023, 0x7ff, f) <==> e != 0
  {
    if e == 0 {
      HalfApart(negative, e - 1023, f);
    }
  }

  lemma ExponentRange(b: seq<byte>)
    requires |b| == 8
    ensures Exponent64(b) <= 0x7ff && Exponent64(b) as int <= 0x7ff
    ensures Exponent64(b) as int == 0 <==> Exponent64(b) == 0
  {
  }

  lemma HalfApart(negative: bool, e: int, f: real)
    requires e < 0 && 0.0 <= f < 1.0
    ensures Scaled(negative, e + 1, f) != Scaled(negative, e, 1.0 + f)
  {
    assert Power2(e + 1) == 2.0 * Power2(e);
    Apart(Power2(e), Power2(e + 1), f);
  }

  lemma Apart(p: real, q: real, f: real)
    requires p > 0.0 && q == 2.0 * p && 0.0 <= f < 1.0
    ensures q * f < p * (1.0 + f)
  {
    var g := 1.0 - f;
    assert p * g > 0.0;
    assert p * g == p - p * f;
    assert q * f == 2.0 * (p * f);
    assert p * (1.0 + f) == p + p * f;
  }

  // ---------------------------------------------------------------------------------------
  // swap_8 and swap_16
  // ---------------------------------------------------------------------------------------

  function Backwards(b: seq<byte>): (r: seq<byte>)
    ensures |r| == |b|
  {
    seq(|b|, i requires 0 <= i < |b| => b[|b| - 1 - i])
  }

  /** The bytes of a number from the most significant down, given its bytes in memory order. */
  function BigEndian(le: bool, b: seq<byte>): (r: seq<byte>)
    ensures |r| == |b|
  {
    if le then Backwards(b) else b
  }

  lemma BigEndianTwice(le: bool, b: seq<byte>)
    ensures BigEndian(le, BigEndian(le, b)) == b
  {
  }

  function Rotate8(x: bv64): bv64 {
    (x << 32) | (x >> 32)
  }

  lemma Rotate8Join(b0: byte, b1: byte, b2: byte, b3: byte, b4: byte, b5: byte, b6: byte, b7: byte)
    ensures Rotate8(Join8(b0, b1, b2, b3, b4, b5, b6, b7)) == Join8(b4, b5, b6, b7, b0, b1, b2, b3)
  {
  }

  lemma Rotate8Word(le: bool, b0: byte, b1: byte, b2: byte, b3: byte, b4: byte, b5: byte, b6: byte, b7: byte)
    ensures Rotate8(Word8(le, b0, b1, b2, b3, b4, b5, b6, b7)) == Word8(le, b4, b5, b6, b7, b0, b1, b2, b3)
  {
    if le { Rotate8Join(b0, b1, b2, b3, b4, b5, b6, b7); } else { Rotate8Join(b7, b6, b5, b4, b3, b2, b1, b0); }
  }

  /** swap_8: all of the source is read before the target is written. */
  method Swap8(pl: Platform, src: array<byte>, s: nat, dst: array<byte>, t: nat)
    requires s + 8 <= src.Length && t + 8 <= dst.Length
    modifies dst
    ensures dst[..] == Splice(old(dst[..]), t, Backwards(old(src[s..s + 8])))
  {
    ghost var b := src[s..s + 8];
    ghost var r := [b[7], b[6], b[5], b[4], b[3], b[2], b[1], b[0]];
    assert Backwards(b) == r;
    if pl.longIsEight {
      var x := Word8(pl.littleEndian, src[s], src[s + 1], src[s + 2], src[s + 3], src[s + 4], src[s + 5], src[s + 6],
                     src[s + 7]);
      Swap8Whole(pl.littleEndian, x, dst, t, b[0], b[1], b[2], b[3], b[4], b[5], b[6], b[7]);
    } else {
      var x := Word4(pl.littleEndian, src[s], src[s + 1], src[s + 2], src[s + 3]);
      var y := Word4(pl.littleEndian, src[s + 4], src[s + 5], src[s + 6], src[s + 7]);
      Swap8Halves(pl.littleEndian, x, y, dst, t, b[0], b[1], b[2], b[3], b[4], b[5], b[6], b[7]);
    }
  }

  method Swap8Whole(le: bool, x: bv64, dst: array<byte>, t: nat, ghost b0: byte, ghost b1: byte, ghost b2: byte,
                    ghost b3: byte,
                    ghost b4: byte, ghost b5: byte, ghost b6: byte, ghost b7: byte)
    requires t + 8 <= dst.Length && x == Word8(le, b0, b1, b2, b3, b4, b5, b6, b7)
    modifies dst
    ensures dst[..] == Splice(old(dst[..]), t, [b7, b6, b5, b4, b3, b2, b1, b0])
  {
    Quads8Word(le, b0, b1, b2, b3, b4, b5, b6, b7);
    Rotate8Word(le, b3, b2, b1, b0, b7, b6, b5, b4);
    Write8(dst, t, le, Rotate8(Quads8(x)), b7, b6, b5, b4, b3, b2, b1, b0);
  }

  method Swap8Halves(le: bool, x: bv32, y: bv32, dst: array<byte>, t: nat, ghost b0: byte, ghost b1: byte,
                     ghost b2: byte, ghost b3: byte,
                     ghost b4: byte, ghost b5: byte, ghost b6: byte, ghost b7: byte)
    requires t + 8 <= dst.Length && x == Word4(le, b0, b1, b2, b3) && y == Word4(le, b4, b5, b6, b7)
    modifies dst
    ensures dst[..] == Splice(old(dst[..]), t, [b7, b6, b5, b4, b3, b2, b1, b0])
  {
    Reverse4Word(le, b0, b1, b2, b3);
    Reverse4Word(le, b4, b5, b6, b7);
    SpliceNext(dst[..], t, [b7, b6, b5, b4], [b3, b2, b1, b0]);
    Write4(dst, t, le, Reverse4(y), b7, b6, b5, b4);
    Write4(dst, t + 4, le, Reverse4(x), b3, b2, b1, b0);
    assert [b7, b6, b5, b4] + [b3, b2, b1, b0] == [b7, b6, b5, b4, b3, b2, b1, b0];
  }

  method Swap16(pl: Platform, src: array<byte>, dst: array<byte>)
    requires src.Length == 16 && dst.Length == 16 && src != dst
    modifies dst
    ensures dst[..] == Backwards(src[..])
  {
    ghost var m := dst[..];
    Swap8(pl, src, 8, dst, 0);
    Swap8(pl, src, 0, dst, 8);
    SpliceNext(m, 0, Backwards(src[8..16]), Backwards(src[0..8]));
    assert Backwards(src[8..16]) + Backwards(src[0..8]) == Backwards(src[..]);
    assert Splice(m, 0, Backwards(src[..])) == Backwards(src[..]);
  }

  // ---------------------------------------------------------------------------------------
  // The class
  // ---------------------------------------------------------------------------------------

  /** The bytes of a 16-bit integer in memory order. */
  function Stored2(le: bool, x: bv16): (b: seq<byte>)
    ensures |b| == 2
  {
    if le then Bytes2(x) else [(x >> 8) as byte, (x & 0xFF) as byte]
  }

  /** The first two bytes of a through a pointer to the integer h, most significant first. */
  method StoreHead(le: bool, h: bv16, a: array<byte>)
    requires a.Length >= 2
    modifies a
    ensures a[0] == (h >> 8) as byte && a[1] == (h & 0xff) as byte
    ensures forall j :: 2 <= j < a.Length ==> a[j] == old(a[j])
  {
    var e := Stored2(le, h);
    a[0] := if le then e[1] else e[0];
    a[1] := if le then e[0] else e[1];
  }

  /** memcpy */
  method Copy(src: array<byte>, dst: array<byte>)
    requires src.Length <= dst.Length && src != dst
    modifies dst
    ensures dst[..src.Length] == src[..]
    ensures forall j :: src.Length <= j < dst.Length ==> dst[j] == old(dst[j])
  {
    forall j | 0 <= j < src.Length {
      dst[j] := src[j];
    }
  }

  lemma WidenFrom(b: seq<byte>, q: seq<byte>, h: bv16)
    requires |b| == 8 && |q| == 16 && h == WidenHead(b[0], b[1])
    requires q[0] == (h >> 8) as byte && q[1] == (h & 0xff) as byte
    requires forall j :: 2 <= j < 16 ==> q[j] == WidenByte(b, j)
    ensures q == Widen(b)
  {
  }

  class LongDouble {
    const ld: array<byte>

    ghost predicate Valid() {
      ld.Length == 16
    }

    constructor ()
      ensures Valid() && fresh(ld)
    {
      ld := new byte[16];
    }

    /** memset */
    method Clear()
      requires Valid()
      modifies ld
      ensures forall j :: 0 <= j < 16 ==> ld[j] == 0
    {
      forall j | 0 <= j < 16 {
        ld[j] := 0;
      }
    }

    /** Assignment from a native floating-point number of rhs.Length bytes. */
    method Assign(pl: Platform, rhs: array<byte>)
      requires Valid() && rhs != ld && rhs.Length <= 16
      modifies ld
      ensures rhs.Length == 8 ==> BigEndian(pl.littleEndian, ld[..]) == Widen(BigEndian(pl.littleEndian, rhs[..]))
      ensures rhs.Length != 8 ==> ld[..] == rhs[..] + seq(16 - rhs.Length, i => 0)
    {
      Clear();
      if rhs.Length == 8 {
        ghost var b := BigEndian(pl.littleEndian, rhs[..]);
        var r := rhs;
        if pl.littleEndian {
          r := new byte[16];
          Swap8(pl, rhs, 0, r, 0);
          assert rhs[0..8] == rhs[..];
        }
        assert r[..8] == b;
        Expand(pl.littleEndian, r, b);
        if pl.littleEndian {
          Copy(ld, r);
          assert r[..] == Widen(b);
          Swap16(pl, r, ld);
          BigEndianTwice(true, Widen(b));
        }
      } else {
        Copy(rhs, ld);
      }
    }

    /** Fills the cleared ld with the quad of the double in the first eight bytes of r. */
    method Expand(le: bool, r: array<byte>, ghost b: seq<byte>)
      requires Valid() && r != ld && r.Length >= 8 && r[..8] == b
      requires forall j :: 0 <= j < 16 ==> ld[j] == 0
      modifies ld
      ensures ld[..] == Widen(b)
    {
      StoreHead(le, WidenHead(r[0], r[1]), ld);
      ExpandFraction(r, b);
      WidenFrom(b, ld[..], WidenHead(b[0], b[1]));
    }

    method ExpandFraction(r: array<byte>, ghost b: seq<byte>)
      requires Valid() && r != ld && r.Length >= 8 && r[..8] == b
      requires forall j :: 2 <= j < 16 ==> ld[j] == 0
      modifies ld
      ensures ld[0] == old(ld[0]) && ld[1] == old(ld[1])
      ensures forall j :: 2 <= j < 16 ==> ld[j] == WidenByte(b, j)
    {
      var li, ri, direction := 2, 1, true;
      while ri < 8
        invariant 1 <= ri <= 8 && li == (if direction then ri + 1 else ri) && (direction ==> ri < 8)
        invariant ld[0] == old(ld[0]) && ld[1] == old(ld[1])
        invariant forall j :: 2 <= j < li ==> ld[j] == WidenByte(b, j)
        invariant ld[li] == if direction then 0 else Raise(b[ri - 1])
        invariant forall j :: li < j < 16 ==> ld[j] == 0
        decreases 8 - ri, !direction
      {
        assert r[ri] == b[ri];
        if direction {
          ld[li] := ld[li] | Raise(r[ri]);
          direction := false;
          ri := ri + 1;
        } else {
          ld[li] := ld[li] | Lower(r[ri]);
          direction := true;
          li := li + 1;
        }
      }
    }

    /** The conversion to a native number of size bytes. */
    method ToNative(pl: Platform, size: nat) returns (ret: array<byte>)
      requires Valid() && size <= 16
      ensures fresh(ret) && ret.Length == size
      ensures size == 8 ==> BigEndian(pl.littleEndian, ret[..]) == Narrow(BigEndian(pl.littleEndian, ld[..]))
      ensures size != 8 ==> ret[..] == ld[..size]
    {
      ret := new byte[size](i => 0);
      if size == 8 {
        ghost var q := BigEndian(pl.littleEndian, ld[..]);
        var copy := ld;
        if pl.littleEndian {
          copy := new byte[16];
          Swap16(pl, ld, copy);
        }
        assert copy[..] == q;
        Contract(pl.littleEndian, copy, ret);
        if pl.littleEndian {
          ghost var n := ret[..];
          assert ret[0..8] == n;
          Swap8(pl, ret, 0, ret, 0);
          assert ret[..] == Backwards(n);
          BigEndianTwice(true, n);
        }
      } else {
        forall j | 0 <= j < size {
          ret[j] := ld[j];
        }
      }
    }

    /** Fills the cleared ret with the double of the quad in copy. */
    static method Contract(le: bool, copy: array<byte>, ret: array<byte>)
      requires copy.Length == 16 && ret.Length == 8 && copy != ret
      requires forall j :: 0 <= j < 8 ==> ret[j] == 0
      modifies ret
      ensures ret[..] == Narrow(copy[..])
    {
      ghost var q := copy[..];
      var e := if le then Word2(le, copy[1], copy[0]) else Word2(le, copy[0], copy[1]);
      assert e == Head(q);
      StoreHead(le, NarrowHead(e), ret);
      ContractFraction(copy, q, ret);
      assert ret[..] == Narrow(q);
    }

    static method ContractFraction(copy: array<byte>, ghost q: seq<byte>, ret: array<byte>)
      requires copy.Length == 16 && copy[..] == q && ret.Length == 8 && copy != ret
      requires forall j :: 2 <= j < 8 ==> ret[j] == 0
      modifies ret
      ensures ret[0] == old(ret[0]) && ret[1] == old(ret[1]) | Lower(q[2])
      ensures forall j :: 2 <= j < 8 ==> ret[j] == NarrowByte(q, j)
    {
      var li, ri, direction := 1, 2, true;
      while li < 8
        invariant 1 <= li <= 8 && ri == (if direction then li + 1 else li) && (direction ==> li < 8)
        invariant ret[0] == old(ret[0]) && ret[1] == if li == 1 then old(ret[1]) else old(ret[1]) | Lower(q[2])
        invariant li == 1 ==> direction
        invariant forall j :: 2 <= j < li ==> ret[j] == NarrowByte(q, j)
        invariant 2 <= li < 8 ==> ret[li] == if direction then (q[li] & 0xf) << 4 else 0
        invariant forall j :: 2 <= j && li < j < 8 ==> ret[j] == 0
        decreases 8 - li, !direction
      {
        if direction {
          ret[li] := ret[li] | Lower(copy[ri]);
          direction := false;
          li := li + 1;
        } else {
          ret[li] := ret[li] | ((copy[ri] & 0xf) << 4);
          direction := true;
          ri := ri + 1;
        }
      }
    }
  }

  /** On every platform a native number comes back byte for byte, whatever its size. */
  method ThereAndBack(pl: Platform, l: LongDouble, rhs: array<byte>) returns (ret: array<byte>)
    requires l.Valid() && rhs != l.ld && rhs.Length <= 16
    modifies l.ld
    ensures ret[..] == rhs[..]
  {
    l.Assign(pl, rhs);
    ret := l.ToNative(pl, rhs.Length);
    if rhs.Length == 8 {
      RoundTrip(BigEndian(pl.littleEndian, rhs[..]));
      BigEndianTwice(pl.littleEndian, rhs[..]);
      BigEndianTwice(pl.littleEndian, ret[..]);
    }
  }
}
