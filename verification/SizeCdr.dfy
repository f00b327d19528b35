/**
 * The CDR stream that only computes sizes, against an encoder that pads and writes.
 *
 * The encoder follows CORBA 3.0 section 15.3: every primitive starts at an index that is a multiple of its
 * natural alignment, and a sequence of primitives is nothing but its primitives one after the other.
 */
module SizeCdr {
  import opened Alignments

  /** A primitive on the wire. */
  datatype Field = Field(size: nat, align: Alignment)

  /** The octets of a stream: padding, the first octet of a primitive, or a later one. */
  datatype Octet = Pad | First(align: Alignment) | More

  // ---------------------------------------------------------------------------------------
  // The encoder
  // ---------------------------------------------------------------------------------------

  predicate Multiple(n: nat, a: Alignment) {
    if a == 1 then true else if a == 2 then n % 2 == 0 else if a == 4 then n % 4 == 0 else n % 8 == 0
  }

  /** The octets missing to the next multiple. */
  function Gap(n: nat, a: Alignment): nat {
    if a == 1 then 0 else if a == 2 then n % 2 else if a == 4 then Missing(4, n % 4) else Missing(8, n % 8)
  }

  function Missing(a: nat, r: nat): nat {
    if r == 0 || r > a then 0 else a - r
  }

  lemma GapShrinks(n: nat, a: Alignment)
    ensures Gap(n, a) == 0 <==> Multiple(n, a)
    ensures Gap(n, a) > 0 ==> Gap(n + 1, a) == Gap(n, a) - 1
  {
    if a == 4 {
      assert (n + 1) % 4 == if n % 4 == 3 then 0 else n % 4 + 1;
    } else if a == 8 {
      assert (n + 1) % 8 == if n % 8 == 7 then 0 else n % 8 + 1;
    }
  }

  function Padded(s: seq<Octet>, a: Alignment): (r: seq<Octet>)
    ensures Multiple(|r|, a) && |r| == |s| + Gap(|s|, a) && s <= r
    ensures forall i :: |s| <= i < |r| ==> r[i] == Pad
    decreases Gap(|s|, a)
  {
    GapShrinks(|s|, a);
    if Multiple(|s|, a) then s else Padded(s + [Pad], a)
  }

  function Encoded(s: seq<Octet>, f: Field): seq<Octet>
    requires f.size > 0
  {
    Padded(s, f.align) + [First(f.align)] + seq(f.size - 1, i => More)
  }

  predicate Proper(fs: seq<Field>) {
    forall i :: 0 <= i < |fs| ==> fs[i].size > 0
  }

  function EncodedAll(s: seq<Octet>, fs: seq<Field>): seq<Octet>
    requires Proper(fs)
    decreases |fs|
  {
    if fs == [] then s else EncodedAll(Encoded(s, fs[0]), fs[1..])
  }

  predicate Aligned(s: seq<Octet>) {
    forall i :: 0 <= i < |s| && s[i].First? ==> Multiple(i, s[i].align)
  }

  /** Every primitive starts at a multiple of its alignment, and what was written before stays. */
  lemma {:induction false} EncodedAligned(s: seq<Octet>, fs: seq<Field>)
    requires Proper(fs) && Aligned(s)
    ensures Aligned(EncodedAll(s, fs)) && s <= EncodedAll(s, fs)
    decreases |fs|
  {
    if fs != [] {
      var p := Padded(s, fs[0].align);
      assert forall i :: 0 <= i < |s| ==> p[i] == s[i];
      assert Aligned(Encoded(s, fs[0]));
      EncodedAligned(Encoded(s, fs[0]), fs[1..]);
    }
  }

  // ---------------------------------------------------------------------------------------
  // Sizes
  // ---------------------------------------------------------------------------------------

  /** The size of a stream of n octets after more primitives. */
  function Size(n: nat, fs: seq<Field>): nat
    decreases |fs|
  {
    if fs == [] then n else Size(AlignBinary(n, fs[0].align) + fs[0].size, fs[1..])
  }

  lemma AlignFillsGap(n: nat, a: Alignment)
    ensures AlignBinary(n, a) == n + Gap(n, a)
  {
    if a == 4 {
      var q, r := n / 4, n % 4;
      assert (n + 3) / 4 == if r == 0 then q else q + 1;
    } else if a == 8 {
      var q, r := n / 8, n % 8;
      assert (n + 7) / 8 == if r == 0 then q else q + 1;
    }
  }

  /** The computed size is the length of the encoding. */
  lemma {:induction false} SizeIsLength(s: seq<Octet>, fs: seq<Field>)
    requires Proper(fs)
    ensures |EncodedAll(s, fs)| == Size(|s|, fs)
    decreases |fs|
  {
    if fs != [] {
      AlignFillsGap(|s|, fs[0].align);
      SizeIsLength(Encoded(s, fs[0]), fs[1..]);
    }
  }

  lemma {:induction false} SizeConcat(n: nat, fs: seq<Field>, gs: seq<Field>)
    ensures Size(n, fs + gs) == Size(Size(n, fs), gs)
    decreases |fs|
  {
    if fs == [] {
      assert fs + gs == gs;
    } else {
      assert (fs + gs)[1..] == fs[1..] + gs;
      SizeConcat(AlignBinary(n, fs[0].align) + fs[0].size, fs[1..], gs);
    }
  }

  /** Starting at an offset that is a multiple of 8 only shifts the result. */
  lemma {:induction false} SizeShift(base: nat, n: nat, fs: seq<Field>)
    requires base % 8 == 0
    ensures Size(base + n, fs) == base + Size(n, fs)
    decreases |fs|
  {
    if fs != [] {
      AlignShift(base, n, fs[0].align);
      SizeShift(base, AlignBinary(n, fs[0].align) + fs[0].size, fs[1..]);
    }
  }

  lemma AlignShift(base: nat, n: nat, a: Alignment)
    requires base % 8 == 0
    ensures AlignBinary(base + n, a) == base + AlignBinary(n, a)
  {
    AlignFillsGap(n, a);
    AlignFillsGap(base + n, a);
    var b := base / 8;
    Remainder2(base + n, 4 * b + n / 2, n % 2);
    Remainder4(base + n, 2 * b + n / 4, n % 4);
    Remainder8(base + n, b + n / 8, n % 8);
  }

  /** An offset that is not a multiple of 8 can change it. */
  lemma ShiftByFour()
    ensures Size(4, [Field(8, 8)]) != 4 + Size(0, [Field(8, 8)])
  {
  }

  function Repeat(f: Field, n: nat): (fs: seq<Field>)
    ensures |fs| == n
  {
    seq(n, i => f)
  }

  /** Aligning once and adding all of a run of equal primitives is the same as writing them one by one. */
  lemma {:induction false} SizeRepeat(n: nat, f: Field, k: nat)
    requires Multiple(f.size, f.align)
    ensures Size(n, Repeat(f, k)) == if k == 0 then n else AlignBinary(n, f.align) + f.size * k
    decreases k
  {
    if k > 0 {
      assert Repeat(f, k)[1..] == Repeat(f, k - 1);
      var m := AlignBinary(n, f.align) + f.size;
      SizeRepeat(m, f, k - 1);
      AlreadyAligned(n, f);
      OneMoreOf(f.size, k);
    }
  }

  lemma OneMoreOf(size: nat, k: nat)
    requires k > 0
    ensures size * k == size * (k - 1) + size
  {
  }

  lemma AlreadyAligned(n: nat, f: Field)
    requires Multiple(f.size, f.align)
    ensures var m := AlignBinary(n, f.align) + f.size; AlignBinary(m, f.align) == m
  {
    var k, s := AlignBinary(n, f.align), f.size;
    AlignFillsGap(n, f.align);
    AlignFillsGap(k + s, f.align);
    NextIsMultiple(n, f.align);
    if f.align == 2 {
      Remainder2(k + s, k / 2 + s / 2, 0);
    } else if f.align == 4 {
      Remainder4(k + s, k / 4 + s / 4, 0);
    } else if f.align == 8 {
      Remainder8(k + s, k / 8 + s / 8, 0);
    }
  }

  lemma NextIsMultiple(n: nat, a: Alignment)
    ensures Multiple(AlignBinary(n, a), a)
  {
    if a == 2 {
      Remainder2(AlignBinary(n, a), (n + 1) / 2, 0);
    } else if a == 4 {
      Remainder4(AlignBinary(n, a), (n + 3) / 4, 0);
    } else if a == 8 {
      Remainder8(AlignBinary(n, a), (n + 7) / 8, 0);
    }
  }

  // ---------------------------------------------------------------------------------------
  // What each pseudo-write stands for
  // ---------------------------------------------------------------------------------------

  /** maxBytes is how many octets a wide character takes on the wire (0: not allowed), wcharSize how many in memory. */
  datatype Config = Config(major: nat, minor: nat, maxBytes: nat, wcharSize: nat) {
    predicate Valid() {
      (wcharSize == 2 || wcharSize == 4) && maxBytes <= wcharSize && maxBytes != 3
    }

    predicate Giop12() {
      major == 1 && minor == 2
    }
  }

  /** Lengths are unsigned longs. */
  const ULONG_VALUES: nat := 0x1_0000_0000

  datatype Write =
    | Primitive(size: Alignment)
    | LongDouble
    | Array(elementSize: nat, align: Alignment, length: nat)
    | Text(length: nat)
    | WideChar
    | WideArray(length: nat)
    | WideText(absent: bool, length: nat)

  predicate ProperWrite(w: Write) {
    match w
    case Array(size, align, length) => size > 0 && Multiple(size, align) && length < ULONG_VALUES
    case Text(length) => length < ULONG_VALUES
    case WideArray(length) => length < ULONG_VALUES
    case WideText(_, length) => length < ULONG_VALUES
    case _ => true
  }

  const OCTET: Field := Field(1, 1)
  const ULONG: Field := Field(4, 4)

  function Wide(c: Config): Field
    requires c.Valid() && c.maxBytes > 0
  {
    Field(c.maxBytes, c.maxBytes)
  }

  /** What a wide character is on the wire, and whether one may be written. */
  function WideCharFields(c: Config): (seq<Field>, bool)
    requires c.Valid()
  {
    if c.maxBytes == 0 then ([], false)
    else if c.Giop12() then ([OCTET] + Repeat(OCTET, c.maxBytes), true)
    else if c.minor == 0 then ([], false)
    else ([Wide(c)], true)
  }

  /** The primitives a write puts on the wire, and whether it succeeds. */
  function Wire(c: Config, w: Write): (seq<Field>, bool)
    requires c.Valid()
  {
    match w
    case Primitive(size) => ([Field(size, size)], true)
    case LongDouble => ([Field(16, 8)], true)
    case Array(size, align, length) => (Repeat(Field(size, align), length), true)
    case Text(length) => ([ULONG] + Repeat(OCTET, length + 1), true)
    case WideChar => WideCharFields(c)
    case WideArray(length) => if c.maxBytes == 0 then ([], false) else (Repeat(Wide(c), length), true)
    case WideText(absent, length) =>
      if c.maxBytes == 0 then ([], false)
      else if c.Giop12() then (if absent then [ULONG] else [ULONG] + Repeat(Wide(c), length), true)
      else if absent then ([ULONG] + WideCharFields(c).0, WideCharFields(c).1)
      else ([ULONG] + Repeat(Wide(c), length + 1), true)
  }

  lemma WireProper(c: Config, w: Write)
    requires c.Valid() && ProperWrite(w)
    ensures Proper(Wire(c, w).0)
  {
  }

  // ---------------------------------------------------------------------------------------
  // Where the code departs from that
  // ---------------------------------------------------------------------------------------

  /** A two-octet wide character that is as wide in memory is accounted as four octets, outside GIOP 1.2. */
  predicate CountedDouble(c: Config) {
    c.maxBytes == 2 && c.wcharSize == 2 && !c.Giop12() && c.minor != 0
  }

  /**
   * The writes whose size the code gets wrong: those wide characters, and strings whose length with the NUL wraps
   * to 0.
   */
  predicate Deviates(c: Config, w: Write) {
    match w
    case WideChar => CountedDouble(c)
    case WideText(absent, length) =>
      if absent then CountedDouble(c) else c.maxBytes > 0 && !c.Giop12() && length == ULONG_VALUES - 1
    case Text(length) => length == ULONG_VALUES - 1
    case _ => false
  }

  /** The deviation is that of a string whose length wraps: everything after the length is missing. */
  predicate Wraps(c: Config, w: Write) {
    Deviates(c, w) && !w.WideChar? && !(w.WideText? && w.absent)
  }

  function Counted(c: Config, w: Write): (seq<Field>, bool)
    requires c.Valid()
  {
    if !Deviates(c, w) then Wire(c, w)
    else if w.WideChar? then ([ULONG], true)
    else if w.WideText? && w.absent then ([ULONG, ULONG], true)
    else ([ULONG], true)
  }

  /** Exactly these are wrong, from every offset. */
  lemma CountedIff(c: Config, w: Write, n: nat)
    requires c.Valid() && ProperWrite(w)
    ensures Size(n, Counted(c, w).0) == Size(n, Wire(c, w).0) <==> !Deviates(c, w)
    ensures Deviates(c, w) && !Wraps(c, w) ==> Size(n, Counted(c, w).0) > Size(n, Wire(c, w).0)
  {
    if Deviates(c, w) {
      SizeOne(n, ULONG);
      var m := Size(n, [ULONG]);
      if w.WideChar? {
        SizeOne(n, Wide(c));
      } else if w.WideText? && w.absent {
        SizeConcat(n, [ULONG], [ULONG]);
        SizeConcat(n, [ULONG], [Wide(c)]);
        assert [ULONG, ULONG] == [ULONG] + [ULONG];
        SizeOne(m, ULONG);
        SizeOne(m, Wide(c));
      } else {
        var f := if w.Text? then OCTET else Wide(c);
        SizeConcat(n, [ULONG], Repeat(f, w.length + 1));
        SizeRepeat(m, f, w.length + 1);
        Positive(f.size, w.length + 1);
      }
    }
  }

  // ---------------------------------------------------------------------------------------
  // The sizes in numbers
  // ---------------------------------------------------------------------------------------

  /** A wide character from offset n: the offset after it, and whether it may be written. */
  function WideCharSize(c: Config, n: nat): (nat, bool)
    requires c.Valid()
  {
    if c.maxBytes == 0 then (n, false)
    else if c.major == 1 && c.minor == 2 then (n + 1 + c.maxBytes, true)
    else if c.minor == 0 then (n, false)
    else (AlignBinary(n, c.maxBytes) + c.maxBytes, true)
  }

  /** length wide characters, without a length of their own. */
  function WideRunSize(c: Config, n: nat, length: nat): nat
    requires c.Valid() && c.maxBytes > 0
  {
    if length == 0 then n else AlignBinary(n, c.maxBytes) + c.maxBytes * length
  }

  /** What every write takes on the wire, from every offset. */
  lemma WrittenSize(c: Config, w: Write, n: nat)
    requires c.Valid() && ProperWrite(w)
    ensures var m := AlignBinary(n, 4) + 4;
            (Size(n, Wire(c, w).0), Wire(c, w).1) ==
            match w
            case Primitive(size) => (AlignBinary(n, size) + size, true)
            case LongDouble => (AlignBinary(n, 8) + 16, true)
            case Array(size, align, length) => (if length == 0 then n else AlignBinary(n, align) + size * length, true)
            case Text(length) => (m + length + 1, true)
            case WideChar => WideCharSize(c, n)
            case WideArray(length) => if c.maxBytes == 0 then (n, false) else (WideRunSize(c, n, length), true)
            case WideText(absent, length) =>
              if c.maxBytes == 0 then (n, false)
              else if c.major == 1 && c.minor == 2 then (if absent then m else WideRunSize(c, m, length), true)
              else if absent then WideCharSize(c, m)
              else (WideRunSize(c, m, length + 1), true)
  {
    var m := AlignBinary(n, 4) + 4;
    SizeOne(n, ULONG);
    match w
    case Primitive(size) => SizeOne(n, Field(size, size));
    case LongDouble => SizeOne(n, Field(16, 8));
    case Array(size, align, length) => SizeRepeat(n, Field(size, align), length);
    case Text(length) => AfterUlong(n, OCTET, length + 1);
    case WideChar => WideCharFieldsSize(c, n);
    case WideArray(length) => if c.maxBytes > 0 { SizeRepeat(n, Wide(c), length); }
    case WideText(absent, length) => WideTextSize(c, absent, length, n);
  }

  lemma WideTextSize(c: Config, absent: bool, length: nat, n: nat)
    requires c.Valid()
    ensures var m := AlignBinary(n, 4) + 4;
            (Size(n, Wire(c, WideText(absent, length)).0), Wire(c, WideText(absent, length)).1) ==
            if c.maxBytes == 0 then (n, false)
            else if c.major == 1 && c.minor == 2 then (if absent then m else WideRunSize(c, m, length), true)
            else if absent then WideCharSize(c, m)
            else (WideRunSize(c, m, length + 1), true)
  {
    var m := AlignBinary(n, 4) + 4;
    SizeOne(n, ULONG);
    WideCharFieldsSize(c, m);
    SizeConcat(n, [ULONG], WideCharFields(c).0);
    if c.maxBytes > 0 {
      AfterUlong(n, Wide(c), length);
      AfterUlong(n, Wide(c), length + 1);
    }
  }

  lemma WideCharFieldsSize(c: Config, n: nat)
    requires c.Valid()
    ensures (Size(n, WideCharFields(c).0), WideCharFields(c).1) == WideCharSize(c, n)
  {
    if c.maxBytes > 0 {
      SizeOne(n, OCTET);
      SizeOne(n, Wide(c));
      SizeConcat(n, [OCTET], Repeat(OCTET, c.maxBytes));
      SizeRepeat(n + 1, OCTET, c.maxBytes);
    }
  }

  lemma AfterUlong(n: nat, f: Field, k: nat)
    requires Multiple(f.size, f.align)
    ensures var m := AlignBinary(n, 4) + 4;
            Size(n, [ULONG] + Repeat(f, k)) == if k == 0 then m else AlignBinary(m, f.align) + f.size * k
  {
    SizeOne(n, ULONG);
    SizeConcat(n, [ULONG], Repeat(f, k));
    SizeRepeat(AlignBinary(n, 4) + 4, f, k);
  }

  /**
   * What the code accounts: the same, but four octets for a wide character of two that is as wide in memory outside
   * GIOP 1.2, and only the length of a string whose length with the NUL wraps.
   */
  lemma AccountedSize(c: Config, w: Write, n: nat)
    requires c.Valid() && ProperWrite(w)
    ensures var m := AlignBinary(n, 4) + 4;
            var double := c.maxBytes == 2 && c.wcharSize == 2 && !(c.major == 1 && c.minor == 2) && c.minor != 0;
            (Size(n, Counted(c, w).0), Counted(c, w).1) ==
            if w.WideChar? && double then (m, true)
            else if w.WideText? && w.absent && double then (m + 4, true)
            else if w.Text? && w.length == 0xFFFF_FFFF then (m, true)
            else if w.WideText? && !w.absent && c.maxBytes > 0 && !(c.major == 1 && c.minor == 2)
                    && w.length == 0xFFFF_FFFF then (m, true)
            else (Size(n, Wire(c, w).0), Wire(c, w).1)
  {
    var m := AlignBinary(n, 4) + 4;
    SizeOne(n, ULONG);
    SizeOne(m, ULONG);
    SizeConcat(n, [ULONG], [ULONG]);
    assert [ULONG, ULONG] == [ULONG] + [ULONG];
    NextIsMultiple(n, 4);
    AlreadyAligned(n, ULONG);
  }

  lemma SizeOne(n: nat, f: Field)
    ensures Size(n, [f]) == AlignBinary(n, f.align) + f.size
  {
    assert [f][1..] == [];
  }

  lemma Positive(a: nat, b: nat)
    requires a > 0 && b > 0
    ensures a * b > 0
  {
  }

  // ---------------------------------------------------------------------------------------
  // The stream
  // ---------------------------------------------------------------------------------------

  /** Everything a list of writes puts on the wire. */
  function AllFields(c: Config, ws: seq<Write>): (fs: seq<Field>)
    requires c.Valid() && forall i :: 0 <= i < |ws| ==> ProperWrite(ws[i])
    ensures Proper(fs)
  {
    if ws == [] then []
    else
      WireProper(c, ws[0]);
      Wire(c, ws[0]).0 + AllFields(c, ws[1..])
  }

  /** Everything the code accounts for them. */
  function AllCounted(c: Config, ws: seq<Write>): seq<Field>
    requires c.Valid()
  {
    if ws == [] then [] else Counted(c, ws[0]).0 + AllCounted(c, ws[1..])
  }

  /** A pseudo-write adds to a size, and clears the good bit when it fails. */
  predicate Added(c: Config, w: Write, size: nat, good: bool, size': nat, good': bool, ok: bool)
    requires c.Valid()
  {
    size' == Size(size, Counted(c, w).0) && ok == Counted(c, w).1 && good' == (good && ok)
  }

  class SizeStream {
    var size: nat
    var goodBit: bool
    const config: Config

    constructor (c: Config)
      ensures size == 0 && goodBit && config == c
    {
      size, goodBit, config := 0, true, c;
    }

    method Reset()
      modifies this
      ensures size == 0 && goodBit == old(goodBit)
    {
      size := 0;
    }

    method Adjust(n: nat, align: Alignment)
      modifies this`size
      ensures size == Size(old(size), [Field(n, align)])
    {
      SizeOne(size, Field(n, align));
      var offset := AlignBinary(size, align) - size;
      size := size + offset;
      size := size + n;
    }

    /** write_1, write_2, write_4 and write_8 */
    method WritePrimitive(n: Alignment) returns (ok: bool)
      modifies this`size
      ensures ok && size == Size(old(size), [Field(n, n)])
    {
      Adjust(n, n);
      ok := true;
    }

    method Write16() returns (ok: bool)
      modifies this`size
      ensures ok && size == Size(old(size), [Field(16, 8)])
    {
      Adjust(16, 8);
      ok := true;
    }

    method WriteArray(n: nat, align: Alignment, length: nat) returns (ok: bool)
      requires Multiple(n, align)
      modifies this`size
      ensures ok && size == Size(old(size), Repeat(Field(n, align), length))
    {
      SizeRepeat(size, Field(n, align), length);
      SizeOne(size, Field(n * length, align));
      if length != 0 {
        Adjust(n * length, align);
      }
      ok := true;
    }

    method WriteBooleanArray(length: nat) returns (ok: bool)
      modifies this`size
      ensures ok && size == Size(old(size), Repeat(OCTET, length))
    {
      SizeRepeat(size, OCTET, length);
      SizeOne(size, Field(length, 1));
      Adjust(length, 1);
      ok := true;
    }

    method WriteWCharArray(length: nat) returns (ok: bool)
      requires config.Valid()
      modifies this
      ensures Added(config, WideArray(length), old(size), old(goodBit), size, goodBit, ok)
    {
      if config.maxBytes == 0 {
        goodBit := false;
        return false;
      }
      if config.maxBytes == config.wcharSize {
        ok := WriteArray(config.wcharSize, if config.wcharSize == 2 then 2 else 4, length);
      } else {
        ok := WriteWCharArrayNarrow(length);
      }
    }

    /** write_wchar_array_i */
    method WriteWCharArrayNarrow(length: nat) returns (ok: bool)
      requires config.Valid() && 0 < config.maxBytes < config.wcharSize
      modifies this`size
      ensures ok && size == Size(old(size), Repeat(Wide(config), length))
    {
      var align := if config.maxBytes == 2 then 2 else 1;
      SizeRepeat(size, Wide(config), length);
      SizeOne(size, Field(config.maxBytes * length, align));
      if length == 0 {
        return true;
      }
      Adjust(config.maxBytes * length, align);
      ok := true;
    }

    method WriteWChar() returns (ok: bool)
      requires config.Valid()
      modifies this
      ensures Added(config, WideChar, old(size), old(goodBit), size, goodBit, ok)
    {
      if config.maxBytes == 0 {
        goodBit := false;
        return false;
      }
      if config.Giop12() {
        SizeConcat(size, [OCTET], Repeat(OCTET, config.maxBytes));
        ok := WritePrimitive(1);
        ok := WriteArray(1, 1, config.maxBytes);
        return;
      } else if config.minor == 0 {
        goodBit := false;
        return false;
      }
      if config.maxBytes == config.wcharSize {
        ok := WritePrimitive(4);
      } else if config.maxBytes == 2 {
        ok := WritePrimitive(2);
      } else {
        ok := WritePrimitive(1);
      }
    }

    method WriteString(length: nat) returns (ok: bool)
      requires config.Valid() && length < ULONG_VALUES
      modifies this
      ensures Added(config, Text(length), old(size), old(goodBit), size, goodBit, ok)
    {
      SizeConcat(size, [ULONG], Repeat(OCTET, length + 1));
      if length != 0 {
        ok := WritePrimitive(4);
        ok := WriteArray(1, 1, (length + 1) % ULONG_VALUES);
      } else {
        ok := WritePrimitive(4);
        assert Repeat(OCTET, 1) == [OCTET];
        ok := WritePrimitive(1);
      }
    }

    method WriteWString(absent: bool, length: nat) returns (ok: bool)
      requires config.Valid() && length < ULONG_VALUES
      modifies this
      ensures Added(config, WideText(absent, length), old(size), old(goodBit), size, goodBit, ok)
    {
      if config.maxBytes == 0 {
        goodBit := false;
        return false;
      }
      if config.Giop12() {
        ok := WritePrimitive(4);
        if !absent {
          ok := AfterLength(length, old(size), length);
        }
      } else if !absent {
        ok := WritePrimitive(4);
        ok := AfterLength((length + 1) % ULONG_VALUES, old(size), length + 1);
      } else {
        SizeConcat(size, [ULONG], Counted(config, WideChar).0);
        ok := WritePrimitive(4);
        ok := WriteWChar();
      }
    }

    /** The characters of a wide string whose length was written from offset n. */
    method AfterLength(length: nat, ghost n: nat, ghost whole: nat) returns (ok: bool)
      requires config.Valid() && config.maxBytes > 0 && size == Size(n, [ULONG])
      requires length == whole % ULONG_VALUES && whole <= ULONG_VALUES
      modifies this
      ensures ok && goodBit == old(goodBit)
      ensures size == if whole == ULONG_VALUES then Size(n, [ULONG]) else Size(n, [ULONG] + Repeat(Wide(config), whole))
    {
      SizeConcat(n, [ULONG], Repeat(Wide(config), length));
      ok := WriteWCharArray(length);
    }

    method Perform(w: Write) returns (ok: bool)
      requires config.Valid() && ProperWrite(w)
      modifies this
      ensures Added(config, w, old(size), old(goodBit), size, goodBit, ok)
    {
      match w {
        case Primitive(n) => ok := WritePrimitive(n);
        case LongDouble => ok := Write16();
        case Array(n, align, length) => ok := WriteArray(n, align, length);
        case Text(length) => ok := WriteString(length);
        case WideChar => ok := WriteWChar();
        case WideArray(length) => ok := WriteWCharArray(length);
        case WideText(absent, length) => ok := WriteWString(absent, length);
      }
    }

    /** Any run of writes, failed and wrongly sized ones included. */
    method PerformAll(ws: seq<Write>)
      requires config.Valid() && forall i :: 0 <= i < |ws| ==> ProperWrite(ws[i])
      modifies this
      ensures size == Size(old(size), AllCounted(config, ws))
      ensures goodBit == (old(goodBit) && AllSucceed(config, ws))
      ensures Exact(config, ws) ==> size == Size(old(size), AllFields(config, ws))
    {
      if Exact(config, ws) { ExactCounted(config, ws); }
      var i := 0;
      while i < |ws|
        invariant i <= |ws|
        invariant Size(size, AllCounted(config, ws[i..])) == Size(old(size), AllCounted(config, ws))
        invariant (goodBit && AllSucceed(config, ws[i..])) == (old(goodBit) && AllSucceed(config, ws))
      {
        OneMore(config, ws, i, size);
        var ok := Perform(ws[i]);
        i := i + 1;
      }
      assert ws[i..] == [];
    }
  }

  /** None of the writes is one whose size the code gets wrong. */
  predicate Exact(c: Config, ws: seq<Write>) {
    forall i :: 0 <= i < |ws| ==> !Deviates(c, ws[i])
  }

  predicate AllSucceed(c: Config, ws: seq<Write>)
    requires c.Valid()
  {
    ws == [] || (Wire(c, ws[0]).1 && AllSucceed(c, ws[1..]))
  }

  lemma OneMore(c: Config, ws: seq<Write>, i: nat, n: nat)
    requires c.Valid() && i < |ws|
    ensures Size(n, AllCounted(c, ws[i..])) == Size(Size(n, Counted(c, ws[i]).0), AllCounted(c, ws[i + 1..]))
    ensures AllSucceed(c, ws[i..]) <==> Counted(c, ws[i]).1 && AllSucceed(c, ws[i + 1..])
  {
    var rest := ws[i..];
    assert rest[0] == ws[i] && rest[1..] == ws[i + 1..];
    SizeConcat(n, Counted(c, ws[i]).0, AllCounted(c, ws[i + 1..]));
  }

  /** Without wrongly sized writes a run is accounted as it is written. */
  lemma {:induction false} ExactCounted(c: Config, ws: seq<Write>)
    requires c.Valid() && Exact(c, ws) && forall i :: 0 <= i < |ws| ==> ProperWrite(ws[i])
    ensures AllCounted(c, ws) == AllFields(c, ws)
  {
    if ws != [] {
      assert !Deviates(c, ws[0]);
      ExactCounted(c, ws[1..]);
    }
  }

  lemma {:induction false} SizeMonotone(n: nat, m: nat, fs: seq<Field>)
    requires n >= m
    ensures Size(n, fs) >= Size(m, fs)
    decreases |fs|
  {
    if fs != [] {
      AlignMonotone(n, m, fs[0].align);
      SizeMonotone(AlignBinary(n, fs[0].align) + fs[0].size, AlignBinary(m, fs[0].align) + fs[0].size, fs[1..]);
    }
  }

  lemma AlignMonotone(n: nat, m: nat, a: Alignment)
    requires n >= m
    ensures AlignBinary(n, a) >= AlignBinary(m, a)
  {
    if a == 2 {
      var p, q := (n + 1) / 2, (m + 1) / 2;
      assert n + 1 < 2 * p + 2 && 2 * q <= m + 1;
    } else if a == 4 {
      var p, q := (n + 3) / 4, (m + 3) / 4;
      assert n + 3 < 4 * p + 4 && 4 * q <= m + 3;
    } else if a == 8 {
      var p, q := (n + 7) / 8, (m + 7) / 8;
      assert n + 7 < 8 * p + 8 && 8 * q <= m + 7;
    }
  }

  /**
   * Unless a string length wraps, a run is never sized too small, from any offset; and it is sized too large when
   * its last write is a wrongly sized one.
   */
  lemma {:induction false} NeverTooSmall(c: Config, ws: seq<Write>, n: nat, m: nat)
    requires c.Valid() && n >= m && forall i :: 0 <= i < |ws| ==> ProperWrite(ws[i]) && !Wraps(c, ws[i])
    ensures Size(n, AllCounted(c, ws)) >= Size(m, AllFields(c, ws))
    ensures ws != [] && Deviates(c, ws[|ws| - 1]) ==> Size(n, AllCounted(c, ws)) > Size(m, AllFields(c, ws))
    decreases |ws|
  {
    if ws != [] {
      var w := ws[0];
      CountedIff(c, w, n);
      SizeMonotone(n, m, Wire(c, w).0);
      SizeConcat(n, Counted(c, w).0, AllCounted(c, ws[1..]));
      SizeConcat(m, Wire(c, w).0, AllFields(c, ws[1..]));
      NeverTooSmall(c, ws[1..], Size(n, Counted(c, w).0), Size(m, Wire(c, w).0));
    }
  }

  /** Somewhere in fs, the padding before a primitive brings the offsets n and m to the same multiple. */
  predicate Absorbed(n: nat, m: nat, fs: seq<Field>)
    decreases |fs|
  {
    fs != [] &&
    var n', m' := AlignBinary(n, fs[0].align), AlignBinary(m, fs[0].align);
    n' == m' || Absorbed(n' + fs[0].size, m' + fs[0].size, fs[1..])
  }

  lemma {:induction false} AbsorbedIff(n: nat, m: nat, fs: seq<Field>)
    requires n != m
    ensures Size(n, fs) == Size(m, fs) <==> Absorbed(n, m, fs)
    decreases |fs|
  {
    if fs != [] {
      var n', m' := AlignBinary(n, fs[0].align), AlignBinary(m, fs[0].align);
      if n' != m' { AbsorbedIff(n' + fs[0].size, m' + fs[0].size, fs[1..]); }
    }
  }

  /** How many writes there are up to the last wrongly sized one. */
  function DeviatingPart(c: Config, ws: seq<Write>): (k: nat)
    ensures k <= |ws| && Exact(c, ws[k..]) && (k > 0 ==> Deviates(c, ws[k - 1]))
  {
    if ws == [] then 0
    else
      var k := DeviatingPart(c, ws[1..]);
      assert ws[k + 1..] == ws[1..][k..];
      if k > 0 then k + 1 else if Deviates(c, ws[0]) then 1
      else assert forall i :: 0 < i < |ws| ==> ws[i] == ws[1..][i - 1]; 0
  }

  lemma {:induction false} CountedConcat(c: Config, a: seq<Write>, b: seq<Write>, ws: seq<Write>)
    requires c.Valid() && ws == a + b
    ensures AllCounted(c, ws) == AllCounted(c, a) + AllCounted(c, b)
    decreases |a|
  {
    if a == [] {
      assert ws == b;
    } else {
      assert ws[0] == a[0] && ws[1..] == a[1..] + b;
      CountedConcat(c, a[1..], b, ws[1..]);
      Joined(Counted(c, a[0]).0, AllCounted(c, a[1..]), AllCounted(c, b));
    }
  }

  lemma {:induction false} FieldsConcat(c: Config, a: seq<Write>, b: seq<Write>, ws: seq<Write>)
    requires c.Valid() && ws == a + b && forall i :: 0 <= i < |ws| ==> ProperWrite(ws[i])
    requires forall i :: 0 <= i < |a| ==> ProperWrite(a[i])
    requires forall i :: 0 <= i < |b| ==> ProperWrite(b[i])
    ensures AllFields(c, ws) == AllFields(c, a) + AllFields(c, b)
    decreases |a|
  {
    if a == [] {
      assert ws == b;
    } else {
      assert ws[0] == a[0] && ws[1..] == a[1..] + b;
      FieldsConcat(c, a[1..], b, ws[1..]);
      Joined(Wire(c, a[0]).0, AllFields(c, a[1..]), AllFields(c, b));
    }
  }

  lemma Joined(a: seq<Field>, b: seq<Field>, d: seq<Field>)
    ensures a + (b + d) == (a + b) + d
  {
  }

  /**
   * A run is sized right exactly when its sizes agree up to its last wrongly sized write, or padding behind that
   * write absorbs the difference. If no string length wraps they agree only when nothing was wrongly sized.
   */
  lemma RunSizedRightIff(c: Config, ws: seq<Write>, n: nat)
    requires c.Valid() && forall i :: 0 <= i < |ws| ==> ProperWrite(ws[i])
    ensures var k := DeviatingPart(c, ws);
            var counted, written := Size(n, AllCounted(c, ws[..k])), Size(n, AllFields(c, ws[..k]));
            && (Size(n, AllCounted(c, ws)) == Size(n, AllFields(c, ws))
                <==> counted == written || Absorbed(counted, written, AllFields(c, ws[k..])))
            && ((forall i :: 0 <= i < |ws| ==> !Wraps(c, ws[i])) ==> (counted == written <==> Exact(c, ws)))
  {
    var k := DeviatingPart(c, ws);
    var a, b := ws[..k], ws[k..];
    assert ws == a + b;
    CountedConcat(c, a, b, ws);
    FieldsConcat(c, a, b, ws);
    ExactCounted(c, b);
    SizeConcat(n, AllCounted(c, a), AllCounted(c, b));
    SizeConcat(n, AllFields(c, a), AllFields(c, b));
    var counted, written := Size(n, AllCounted(c, a)), Size(n, AllFields(c, a));
    if counted != written { AbsorbedIff(counted, written, AllFields(c, b)); }
    if k > 0 && forall i :: 0 <= i < |ws| ==> !Wraps(c, ws[i]) {
      assert a[|a| - 1] == ws[k - 1];
      NeverTooSmall(c, a, n, n);
    }
  }

  lemma RunOfOne(c: Config, w: Write)
    requires c.Valid() && ProperWrite(w)
    ensures AllCounted(c, [w]) == Counted(c, w).0 && AllFields(c, [w]) == Wire(c, w).0
  {
    assert [w][1..] == [];
  }

  /** The padding before a later primitive absorbs the error of a wide character. */
  lemma AbsorbedError()
    ensures var c, ws := Config(1, 1, 2, 2), [WideChar, Primitive(8)];
            && DeviatingPart(c, ws) == 1 && Absorbed(4, 2, AllFields(c, ws[1..]))
            && Size(0, AllCounted(c, ws)) == Size(0, AllFields(c, ws))
  {
    var c, ws := Config(1, 1, 2, 2), [WideChar, Primitive(8)];
    OnlyTheFirst(c, ws);
    RunOfOne(c, WideChar);
    RunOfOne(c, Primitive(8));
    AbsorbedByEight();
    RunSizedRightIff(c, ws, 0);
  }

  lemma OnlyTheFirst(c: Config, ws: seq<Write>)
    requires c == Config(1, 1, 2, 2) && ws == [WideChar, Primitive(8)]
    ensures DeviatingPart(c, ws) == 1 && ws[..1] == [WideChar] && ws[1..] == [Primitive(8)]
  {
    assert [Primitive(8)][1..] == [];
  }

  lemma AbsorbedByEight()
    ensures Size(0, [ULONG]) == 4 && Size(0, [Field(2, 2)]) == 2 && Absorbed(4, 2, [Field(8, 8)])
  {
    SizeOne(0, ULONG);
    SizeOne(0, Field(2, 2));
  }

  /**
   * What a run puts on the wire has the computed length; put behind any multiple of 8 octets, it takes the same room.
   */
  lemma RunSize(c: Config, ws: seq<Write>, base: seq<Octet>)
    requires c.Valid() && forall i :: 0 <= i < |ws| ==> ProperWrite(ws[i])
    ensures Size(0, AllFields(c, ws)) == |EncodedAll([], AllFields(c, ws))|
    ensures |base| % 8 == 0 ==> |EncodedAll(base, AllFields(c, ws))| == |base| + Size(0, AllFields(c, ws))
    ensures Exact(c, ws) ==> Size(0, AllCounted(c, ws)) == |EncodedAll([], AllFields(c, ws))|
  {
    BothLengths(AllFields(c, ws), base);
    if Exact(c, ws) { ExactCounted(c, ws); }
  }

  lemma BothLengths(fs: seq<Field>, base: seq<Octet>)
    requires Proper(fs)
    ensures Size(0, fs) == |EncodedAll([], fs)|
    ensures |base| % 8 == 0 ==> |EncodedAll(base, fs)| == |base| + Size(0, fs)
  {
    SizeIsLength([], fs);
    SizeIsLength(base, fs);
    if |base| % 8 == 0 { SizeShift(|base|, 0, fs); }
  }
}
