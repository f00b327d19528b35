/**
 * Byte-order reversal of arrays of two-byte and four-byte elements.
 *
 * A buffer is an array of bytes and a pointer is an offset into it. Addresses matter only for
 * alignment, so each buffer comes with the address of its first byte.
 */
module SwapArray {
  import opened Alignments

  type byte = bv8

  /** The build the code is compiled for. */
  datatype Platform = Platform(longIsEight: bool, gnuAmd64: bool, littleEndian: bool)

  // ---------------------------------------------------------------------------------------
  // Specification: byte j of every w-byte element is exchanged with byte w-1-j
  // ---------------------------------------------------------------------------------------

  datatype Width = Two | Four

  /** The size in bytes of k packed elements. */
  function Size(w: Width, k: nat): nat {
    if w.Two? then 2 * k else 4 * k
  }

  /** Where the byte at i goes. */
  function Mirror(w: Width, i: nat): nat {
    if w.Two? then i - i % 2 + (1 - i % 2) else i - i % 4 + (3 - i % 4)
  }

  lemma MirrorTwice(w: Width, i: nat, k: nat)
    requires i < Size(w, k)
    ensures Mirror(w, i) < Size(w, k) && Mirror(w, Mirror(w, i)) == i
  {
    if w.Two? { MirrorTwo(i, i / 2, i % 2, k); } else { MirrorFour(i, i / 4, i % 4, k); }
  }

  lemma MirrorTwo(i: nat, q: nat, r: nat, k: nat)
    requires i == 2 * q + r && r < 2 && i < 2 * k
    ensures Mirror(Two, i) < 2 * k && Mirror(Two, Mirror(Two, i)) == i
  {
    Remainder2(i, q, r);
    Remainder2(2 * q + (1 - r), q, 1 - r);
  }

  lemma MirrorFour(i: nat, q: nat, r: nat, k: nat)
    requires i == 4 * q + r && r < 4 && i < 4 * k
    ensures Mirror(Four, i) < 4 * k && Mirror(Four, Mirror(Four, i)) == i
  {
    Remainder4(i, q, r);
    Remainder4(4 * q + (3 - r), q, 3 - r);
  }

  /** The k elements of n that start at s, each with its bytes reversed. */
  function Reversed(w: Width, n: seq<byte>, s: nat, k: nat): (r: seq<byte>)
    ensures |r| == Size(w, k)
  {
    seq(Size(w, k), i requires 0 <= i => At(n, s + Mirror(w, i)))
  }

  function At(n: seq<byte>, i: nat): byte {
    if i < |n| then n[i] else 0
  }

  lemma ReversedTwice(w: Width, m: seq<byte>, s: nat, k: nat)
    requires s + Size(w, k) <= |m|
    ensures var n := Splice(m, s, Reversed(w, m, s, k)); Splice(n, s, Reversed(w, n, s, k)) == m
  {
    var n := Splice(m, s, Reversed(w, m, s, k));
    forall i | 0 <= i < Size(w, k)
      ensures Reversed(w, n, s, k)[i] == m[s + i]
    {
      MirrorTwice(w, i, k);
      var j := Mirror(w, i);
      assert Reversed(w, n, s, k)[i] == n[s + j] == Reversed(w, m, s, k)[j] == m[s + Mirror(w, j)];
    }
    Restored(m, n, s, Reversed(w, n, s, k));
  }

  lemma Restored(m: seq<byte>, n: seq<byte>, s: nat, b: seq<byte>)
    requires |n| == |m| && s + |b| <= |m|
    requires forall i :: 0 <= i < |m| && !(s <= i < s + |b|) ==> n[i] == m[i]
    requires forall i :: 0 <= i < |b| ==> b[i] == m[s + i]
    ensures Splice(n, s, b) == m
  {
  }

  lemma ReversedConcat(w: Width, n: seq<byte>, s: nat, k: nat, j: nat)
    ensures Reversed(w, n, s, k + j) == Reversed(w, n, s, k) + Reversed(w, n, s + Size(w, k), j)
  {
    var a, b := Reversed(w, n, s, k), Reversed(w, n, s + Size(w, k), j);
    forall i | 0 <= i < Size(w, k + j)
      ensures Reversed(w, n, s, k + j)[i] == (a + b)[i]
    {
      if i >= Size(w, k) {
        MirrorShift(w, k, i - Size(w, k));
      }
    }
  }

  lemma MirrorShift(w: Width, k: nat, i: nat)
    ensures Mirror(w, Size(w, k) + i) == Size(w, k) + Mirror(w, i)
  {
    if w.Two? { Remainder2(2 * k + i, k + i / 2, i % 2); } else { Remainder4(4 * k + i, k + i / 4, i % 4); }
  }

  /** Memory after the bytes b are stored at p. */
  function Splice(m: seq<byte>, p: nat, b: seq<byte>): (r: seq<byte>)
    ensures |r| == |m|
  {
    seq(|m|, i requires 0 <= i < |m| => if p <= i < p + |b| then b[i - p] else m[i])
  }

  lemma SpliceNext(m: seq<byte>, p: nat, a: seq<byte>, b: seq<byte>)
    requires p + |a| + |b| <= |m|
    ensures Splice(Splice(m, p, a), p + |a|, b) == Splice(m, p, a + b)
  {
  }

  // ---------------------------------------------------------------------------------------
  // Machine words in memory
  // ---------------------------------------------------------------------------------------

  function Join2(b0: byte, b1: byte): bv16 {
    (b0 as bv16) | ((b1 as bv16) << 8)
  }

  function Join4(b0: byte, b1: byte, b2: byte, b3: byte): bv32 {
    (b0 as bv32) | ((b1 as bv32) << 8) | ((b2 as bv32) << 16) | ((b3 as bv32) << 24)
  }

  function Join8(b0: byte, b1: byte, b2: byte, b3: byte, b4: byte, b5: byte, b6: byte, b7: byte): bv64 {
    (b0 as bv64) | ((b1 as bv64) << 8) | ((b2 as bv64) << 16) | ((b3 as bv64) << 24)
    | ((b4 as bv64) << 32) | ((b5 as bv64) << 40) | ((b6 as bv64) << 48) | ((b7 as bv64) << 56)
  }

  /** The word with these bytes in memory order. */
  function Word2(le: bool, b0: byte, b1: byte): bv16 {
    if le then Join2(b0, b1) else Join2(b1, b0)
  }

  function Word4(le: bool, b0: byte, b1: byte, b2: byte, b3: byte): bv32 {
    if le then Join4(b0, b1, b2, b3) else Join4(b3, b2, b1, b0)
  }

  /** An element read in one byte order before, and in the other afterwards, is the same number. */
  lemma OtherByteOrder2(le: bool, n: seq<byte>, s: nat, k: nat, e: nat)
    requires s + 2 * k <= |n| && e < k
    ensures var r := Reversed(Two, n, s, k);
            Word2(!le, r[2 * e], r[2 * e + 1]) == Word2(le, n[s + 2 * e], n[s + 2 * e + 1])
  {
    var r := Reversed(Two, n, s, k);
    Remainder2(2 * e, e, 0);
    Remainder2(2 * e + 1, e, 1);
    assert r[2 * e] == n[s + (2 * e + 1)] && r[2 * e + 1] == n[s + 2 * e];
  }

  lemma OtherByteOrder4(le: bool, n: seq<byte>, s: nat, k: nat, e: nat)
    requires s + 4 * k <= |n| && e < k
    ensures var r := Reversed(Four, n, s, k);
            Word4(!le, r[4 * e], r[4 * e + 1], r[4 * e + 2], r[4 * e + 3])
            == Word4(le, n[s + 4 * e], n[s + 4 * e + 1], n[s + 4 * e + 2], n[s + 4 * e + 3])
  {
    var r := Reversed(Four, n, s, k);
    Remainder4(4 * e, e, 0);
    Remainder4(4 * e + 1, e, 1);
    Remainder4(4 * e + 2, e, 2);
    Remainder4(4 * e + 3, e, 3);
    assert r[4 * e] == n[s + (4 * e + 3)] && r[4 * e + 1] == n[s + (4 * e + 2)];
    assert r[4 * e + 2] == n[s + (4 * e + 1)] && r[4 * e + 3] == n[s + 4 * e];
  }

  function Word8(le: bool, b0: byte, b1: byte, b2: byte, b3: byte, b4: byte, b5: byte, b6: byte, b7: byte): bv64 {
    if le then Join8(b0, b1, b2, b3, b4, b5, b6, b7) else Join8(b7, b6, b5, b4, b3, b2, b1, b0)
  }

  /** The bytes of a word, least significant first. */
  function Bytes2(x: bv16): (b: seq<byte>)
    ensures |b| == 2
  {
    [(x & 0xFF) as byte, (x >> 8) as byte]
  }

  function Bytes4(x: bv32): (b: seq<byte>)
    ensures |b| == 4
  {
    [(x & 0xFF) as byte, ((x >> 8) & 0xFF) as byte, ((x >> 16) & 0xFF) as byte, (x >> 24) as byte]
  }

  function Bytes8(x: bv64): (b: seq<byte>)
    ensures |b| == 8
  {
    [(x & 0xFF) as byte, ((x >> 8) & 0xFF) as byte, ((x >> 16) & 0xFF) as byte, ((x >> 24) & 0xFF) as byte,
     ((x >> 32) & 0xFF) as byte, ((x >> 40) & 0xFF) as byte, ((x >> 48) & 0xFF) as byte, (x >> 56) as byte]
  }

  lemma Bytes2Join(b0: byte, b1: byte)
    ensures Bytes2(Join2(b0, b1)) == [b0, b1]
  {
  }

  lemma Bytes4Join(b0: byte, b1: byte, b2: byte, b3: byte)
    ensures Bytes4(Join4(b0, b1, b2, b3)) == [b0, b1, b2, b3]
  {
  }

  lemma Bytes8Join(b0: byte, b1: byte, b2: byte, b3: byte, b4: byte, b5: byte, b6: byte, b7: byte)
    ensures Bytes8(Join8(b0, b1, b2, b3, b4, b5, b6, b7)) == [b0, b1, b2, b3, b4, b5, b6, b7]
  {
  }

  // ---------------------------------------------------------------------------------------
  // The mask-and-shift expressions
  // ---------------------------------------------------------------------------------------

  /** swap_2 on one word. */
  function Reverse2(x: bv16): bv16 {
    (x << 8) | (x >> 8)
  }

  /** swap_4 on one word. */
  function Reverse4(x: bv32): bv32 {
    (x << 24) | ((x & 0xff00) << 8) | ((x & 0xff0000) >> 8) | (x >> 24)
  }

  function Pairs4(a: bv32): bv32 {
    ((a & 0x00ff00ff) << 8) | ((a & 0xff00ff00) >> 8)
  }

  function Pairs8(a: bv64): bv64 {
    ((a & 0x00ff00ff00ff00ff) << 8) | ((a & 0xff00ff00ff00ff00) >> 8)
  }

  function Quads8(a: bv64): bv64 {
    ((a & 0x000000ff000000ff) << 24) | ((a & 0x0000ff000000ff00) << 8)
    | ((a & 0x00ff000000ff0000) >> 8) | ((a & 0xff000000ff000000) >> 24)
  }

  lemma Reverse2Join(b0: byte, b1: byte)
    ensures Reverse2(Join2(b0, b1)) == Join2(b1, b0)
  {
  }

  lemma Reverse4Join(b0: byte, b1: byte, b2: byte, b3: byte)
    ensures Reverse4(Join4(b0, b1, b2, b3)) == Join4(b3, b2, b1, b0)
  {
  }

  lemma Pairs4Join(b0: byte, b1: byte, b2: byte, b3: byte)
    ensures Pairs4(Join4(b0, b1, b2, b3)) == Join4(b1, b0, b3, b2)
  {
  }

  lemma Pairs8Join(b0: byte, b1: byte, b2: byte, b3: byte, b4: byte, b5: byte, b6: byte, b7: byte)
    ensures Pairs8(Join8(b0, b1, b2, b3, b4, b5, b6, b7)) == Join8(b1, b0, b3, b2, b5, b4, b7, b6)
  {
  }

  lemma Quads8Join(b0: byte, b1: byte, b2: byte, b3: byte, b4: byte, b5: byte, b6: byte, b7: byte)
    ensures Quads8(Join8(b0, b1, b2, b3, b4, b5, b6, b7)) == Join8(b3, b2, b1, b0, b7, b6, b5, b4)
  {
  }

  lemma Halves4Join(b0: byte, b1: byte, b2: byte, b3: byte)
    ensures (Join4(b0, b1, b2, b3) & 0xffff) as bv16 == Join2(b0, b1)
    ensures (Join4(b0, b1, b2, b3) >> 16) as bv16 == Join2(b2, b3)
  {
  }

  lemma Halves8Join(b0: byte, b1: byte, b2: byte, b3: byte, b4: byte, b5: byte, b6: byte, b7: byte)
    ensures (Join8(b0, b1, b2, b3, b4, b5, b6, b7) & 0xffffffff) as bv32 == Join4(b0, b1, b2, b3)
    ensures (Join8(b0, b1, b2, b3, b4, b5, b6, b7) >> 32) as bv32 == Join4(b4, b5, b6, b7)
  {
    LowHalf8Join(b0, b1, b2, b3, b4, b5, b6, b7);
    HighHalf8Join(b0, b1, b2, b3, b4, b5, b6, b7);
  }

  lemma LowHalf8Join(b0: byte, b1: byte, b2: byte, b3: byte, b4: byte, b5: byte, b6: byte, b7: byte)
    ensures (Join8(b0, b1, b2, b3, b4, b5, b6, b7) & 0xffffffff) as bv32 == Join4(b0, b1, b2, b3)
  {
  }

  lemma HighHalf8Join(b0: byte, b1: byte, b2: byte, b3: byte, b4: byte, b5: byte, b6: byte, b7: byte)
    ensures (Join8(b0, b1, b2, b3, b4, b5, b6, b7) >> 32) as bv32 == Join4(b4, b5, b6, b7)
  {
  }

  lemma Quarters8Join(b0: byte, b1: byte, b2: byte, b3: byte, b4: byte, b5: byte, b6: byte, b7: byte)
    ensures var a := Join8(b0, b1, b2, b3, b4, b5, b6, b7);
            && (a & 0xffff) as bv16 == Join2(b0, b1) && ((a >> 16) & 0xffff) as bv16 == Join2(b2, b3)
            && ((a >> 32) & 0xffff) as bv16 == Join2(b4, b5) && (a >> 48) as bv16 == Join2(b6, b7)
  {
  }

  lemma Reverse2Word(le: bool, b0: byte, b1: byte)
    ensures Reverse2(Word2(le, b0, b1)) == Word2(le, b1, b0)
  {
    if le { Reverse2Join(b0, b1); } else { Reverse2Join(b1, b0); }
  }

  lemma Reverse4Word(le: bool, b0: byte, b1: byte, b2: byte, b3: byte)
    ensures Reverse4(Word4(le, b0, b1, b2, b3)) == Word4(le, b3, b2, b1, b0)
  {
    if le { Reverse4Join(b0, b1, b2, b3); } else { Reverse4Join(b3, b2, b1, b0); }
  }

  lemma Pairs4Word(le: bool, b0: byte, b1: byte, b2: byte, b3: byte)
    ensures Pairs4(Word4(le, b0, b1, b2, b3)) == Word4(le, b1, b0, b3, b2)
  {
    if le { Pairs4Join(b0, b1, b2, b3); } else { Pairs4Join(b3, b2, b1, b0); }
  }

  lemma Pairs8Word(le: bool, b0: byte, b1: byte, b2: byte, b3: byte, b4: byte, b5: byte, b6: byte, b7: byte)
    ensures Pairs8(Word8(le, b0, b1, b2, b3, b4, b5, b6, b7)) == Word8(le, b1, b0, b3, b2, b5, b4, b7, b6)
  {
    if le { Pairs8Join(b0, b1, b2, b3, b4, b5, b6, b7); } else { Pairs8Join(b7, b6, b5, b4, b3, b2, b1, b0); }
  }

  lemma Quads8Word(le: bool, b0: byte, b1: byte, b2: byte, b3: byte, b4: byte, b5: byte, b6: byte, b7: byte)
    ensures Quads8(Word8(le, b0, b1, b2, b3, b4, b5, b6, b7)) == Word8(le, b3, b2, b1, b0, b7, b6, b5, b4)
  {
    if le { Quads8Join(b0, b1, b2, b3, b4, b5, b6, b7); } else { Quads8Join(b7, b6, b5, b4, b3, b2, b1, b0); }
  }

  lemma Quarters(le: bool, a: bv64, b0: byte, b1: byte, b2: byte, b3: byte, b4: byte, b5: byte, b6: byte, b7: byte)
    requires a == Word8(le, b0, b1, b2, b3, b4, b5, b6, b7)
    ensures (if le then (a & 0xffff) as bv16 else (a >> 48) as bv16) == Word2(le, b0, b1)
    ensures (if le then ((a >> 16) & 0xffff) as bv16 else ((a >> 32) & 0xffff) as bv16) == Word2(le, b2, b3)
    ensures (if le then ((a >> 32) & 0xffff) as bv16 else ((a >> 16) & 0xffff) as bv16) == Word2(le, b4, b5)
    ensures (if le then (a >> 48) as bv16 else (a & 0xffff) as bv16) == Word2(le, b6, b7)
  {
    if le { Quarters8Join(b0, b1, b2, b3, b4, b5, b6, b7); } else { Quarters8Join(b7, b6, b5, b4, b3, b2, b1, b0); }
  }

  lemma Halves(le: bool, a: bv32, b0: byte, b1: byte, b2: byte, b3: byte)
    requires a == Word4(le, b0, b1, b2, b3)
    ensures (if le then (a & 0xffff) as bv16 else (a >> 16) as bv16) == Word2(le, b0, b1)
    ensures (if le then (a >> 16) as bv16 else (a & 0xffff) as bv16) == Word2(le, b2, b3)
  {
    if le { Halves4Join(b0, b1, b2, b3); } else { Halves4Join(b3, b2, b1, b0); }
  }

  lemma WordHalves(le: bool, a: bv64, b0: byte, b1: byte, b2: byte, b3: byte, b4: byte, b5: byte, b6: byte, b7: byte)
    requires a == Word8(le, b0, b1, b2, b3, b4, b5, b6, b7)
    ensures (if le then (a & 0xffffffff) as bv32 else (a >> 32) as bv32) == Word4(le, b0, b1, b2, b3)
    ensures (if le then (a >> 32) as bv32 else (a & 0xffffffff) as bv32) == Word4(le, b4, b5, b6, b7)
  {
    if le { Halves8Join(b0, b1, b2, b3, b4, b5, b6, b7); } else { Halves8Join(b7, b6, b5, b4, b3, b2, b1, b0); }
  }

  lemma List4(m: seq<byte>, s: nat)
    requires s + 4 <= |m|
    ensures Reversed(Two, m, s, 2) == [m[s + 1], m[s], m[s + 3], m[s + 2]]
    ensures Reversed(Four, m, s, 1) == [m[s + 3], m[s + 2], m[s + 1], m[s]]
  {
  }

  lemma List8(m: seq<byte>, s: nat)
    requires s + 8 <= |m|
    ensures Reversed(Two, m, s, 4) == [m[s + 1], m[s], m[s + 3], m[s + 2], m[s + 5], m[s + 4], m[s + 7], m[s + 6]]
    ensures Reversed(Four, m, s, 2) == [m[s + 3], m[s + 2], m[s + 1], m[s], m[s + 7], m[s + 6], m[s + 5], m[s + 4]]
  {
  }

  // ---------------------------------------------------------------------------------------
  // Stores
  // ---------------------------------------------------------------------------------------

  /** A store: the bytes b replace those at p. */
  method Store(m: array<byte>, p: nat, b: seq<byte>)
    requires p + |b| <= m.Length
    modifies m
    ensures m[..] == Splice(old(m[..]), p, b)
  {
    forall i | 0 <= i < |b| {
      m[p + i] := b[i];
    }
  }

  /** Stores a word; the ghost arguments are the bytes it is made of, in memory order. */
  method Write2(m: array<byte>, p: nat, le: bool, x: bv16, ghost c0: byte, ghost c1: byte)
    requires p + 2 <= m.Length && x == Word2(le, c0, c1)
    modifies m
    ensures m[..] == Splice(old(m[..]), p, [c0, c1])
  {
    var b := Bytes2(x);
    if le {
      Bytes2Join(c0, c1);
    } else {
      Bytes2Join(c1, c0);
      b := [b[1], b[0]];
    }
    Store(m, p, b);
  }

  method Write4(m: array<byte>, p: nat, le: bool, x: bv32, ghost c0: byte, ghost c1: byte, ghost c2: byte,
                ghost c3: byte)
    requires p + 4 <= m.Length && x == Word4(le, c0, c1, c2, c3)
    modifies m
    ensures m[..] == Splice(old(m[..]), p, [c0, c1, c2, c3])
  {
    var b := Bytes4(x);
    if le {
      Bytes4Join(c0, c1, c2, c3);
    } else {
      Bytes4Join(c3, c2, c1, c0);
      b := [b[3], b[2], b[1], b[0]];
    }
    Store(m, p, b);
  }

  method Write8(m: array<byte>, p: nat, le: bool, x: bv64, ghost c0: byte, ghost c1: byte, ghost c2: byte,
                ghost c3: byte,
                ghost c4: byte, ghost c5: byte, ghost c6: byte, ghost c7: byte)
    requires p + 8 <= m.Length && x == Word8(le, c0, c1, c2, c3, c4, c5, c6, c7)
    modifies m
    ensures m[..] == Splice(old(m[..]), p, [c0, c1, c2, c3, c4, c5, c6, c7])
  {
    var b := Bytes8(x);
    if le {
      Bytes8Join(c0, c1, c2, c3, c4, c5, c6, c7);
    } else {
      Bytes8Join(c7, c6, c5, c4, c3, c2, c1, c0);
      b := [b[7], b[6], b[5], b[4], b[3], b[2], b[1], b[0]];
    }
    Store(m, p, b);
  }

  /** A 64-bit word stored in two-byte chunks. */
  method SplitWrite8(m: array<byte>, p: nat, le: bool, a: bv64, ghost c0: byte, ghost c1: byte, ghost c2: byte,
                     ghost c3: byte,
                     ghost c4: byte, ghost c5: byte, ghost c6: byte, ghost c7: byte)
    requires p + 8 <= m.Length && a == Word8(le, c0, c1, c2, c3, c4, c5, c6, c7)
    modifies m
    ensures m[..] == Splice(old(m[..]), p, [c0, c1, c2, c3, c4, c5, c6, c7])
  {
    Quarters(le, a, c0, c1, c2, c3, c4, c5, c6, c7);
    var b1, b2, b3, b4 := (a >> 48) as bv16, ((a >> 32) & 0xffff) as bv16, ((a >> 16) & 0xffff) as bv16,
      (a & 0xffff) as bv16;
    if le {
      WriteFour(m, p, le, b4, b3, b2, b1, c0, c1, c2, c3, c4, c5, c6, c7);
    } else {
      WriteFour(m, p, le, b1, b2, b3, b4, c0, c1, c2, c3, c4, c5, c6, c7);
    }
  }

  /** Two 32-bit words stored in two-byte chunks. */
  method SplitWrite4(m: array<byte>, p: nat, le: bool, a: bv32, b: bv32, ghost c0: byte, ghost c1: byte,
                     ghost c2: byte, ghost c3: byte,
                     ghost c4: byte, ghost c5: byte, ghost c6: byte, ghost c7: byte)
    requires p + 8 <= m.Length && a == Word4(le, c0, c1, c2, c3) && b == Word4(le, c4, c5, c6, c7)
    modifies m
    ensures m[..] == Splice(old(m[..]), p, [c0, c1, c2, c3, c4, c5, c6, c7])
  {
    Halves(le, a, c0, c1, c2, c3);
    Halves(le, b, c4, c5, c6, c7);
    var h1, h2, h3, h4 := (a >> 16) as bv16, (a & 0xffff) as bv16, (b >> 16) as bv16, (b & 0xffff) as bv16;
    if le {
      WriteFour(m, p, le, h2, h1, h4, h3, c0, c1, c2, c3, c4, c5, c6, c7);
    } else {
      WriteFour(m, p, le, h1, h2, h3, h4, c0, c1, c2, c3, c4, c5, c6, c7);
    }
  }

  /** Four two-byte stores in a row. */
  method WriteFour(m: array<byte>, p: nat, le: bool, h0: bv16, h1: bv16, h2: bv16, h3: bv16,
                   ghost c0: byte, ghost c1: byte, ghost c2: byte, ghost c3: byte,
                   ghost c4: byte, ghost c5: byte, ghost c6: byte, ghost c7: byte)
    requires p + 8 <= m.Length
    requires h0 == Word2(le, c0, c1) && h1 == Word2(le, c2, c3) && h2 == Word2(le, c4, c5) && h3 == Word2(le, c6, c7)
    modifies m
    ensures m[..] == Splice(old(m[..]), p, [c0, c1, c2, c3, c4, c5, c6, c7])
  {
    SpliceFour(m[..], p, [c0, c1], [c2, c3], [c4, c5], [c6, c7]);
    Write2(m, p, le, h0, c0, c1);
    Write2(m, p + 2, le, h1, c2, c3);
    Write2(m, p + 4, le, h2, c4, c5);
    Write2(m, p + 6, le, h3, c6, c7);
    assert [c0, c1] + [c2, c3] + [c4, c5] + [c6, c7] == [c0, c1, c2, c3, c4, c5, c6, c7];
  }

  lemma SpliceFour(m: seq<byte>, p: nat, a: seq<byte>, b: seq<byte>, c: seq<byte>, d: seq<byte>)
    requires |a| == |b| == |c| == |d| && p + 4 * |a| <= |m|
    ensures Splice(Splice(Splice(Splice(m, p, a), p + |a|, b), p + 2 * |a|, c), p + 3 * |a|, d)
            == Splice(m, p, a + b + c + d)
  {
    SpliceNext(m, p, a, b);
    SpliceNext(m, p, a + b, c);
    SpliceNext(m, p, a + b + c, d);
  }

  /** A 64-bit word stored in four-byte chunks. */
  method SplitWrite44(m: array<byte>, p: nat, le: bool, a: bv64, ghost c0: byte, ghost c1: byte, ghost c2: byte,
                      ghost c3: byte,
                      ghost c4: byte, ghost c5: byte, ghost c6: byte, ghost c7: byte)
    requires p + 8 <= m.Length && a == Word8(le, c0, c1, c2, c3, c4, c5, c6, c7)
    modifies m
    ensures m[..] == Splice(old(m[..]), p, [c0, c1, c2, c3, c4, c5, c6, c7])
  {
    WordHalves(le, a, c0, c1, c2, c3, c4, c5, c6, c7);
    SpliceNext(m[..], p, [c0, c1, c2, c3], [c4, c5, c6, c7]);
    var h1, h2 := (a >> 32) as bv32, (a & 0xffffffff) as bv32;
    if le {
      Write4(m, p, le, h2, c0, c1, c2, c3);
      Write4(m, p + 4, le, h1, c4, c5, c6, c7);
    } else {
      Write4(m, p, le, h1, c0, c1, c2, c3);
      Write4(m, p + 4, le, h2, c4, c5, c6, c7);
    }
    assert [c0, c1, c2, c3] + [c4, c5, c6, c7] == [c0, c1, c2, c3, c4, c5, c6, c7];
  }

  // ---------------------------------------------------------------------------------------
  // Turns of the loops
  // ---------------------------------------------------------------------------------------

  /** Where a buffer lies, and whether its words are taken to be eight bytes long, or only four. */
  datatype Place = Place(base: nat, wide: bool)

  /** A word may start here. */
  predicate OnWord(a: Place, p: nat) {
    if a.wide then (a.base + p) % 8 == 0 else (a.base + p) % 4 == 0
  }

  /** Words are read from multiples of their size, and stored whole exactly at these. */
  predicate Placed(w: Width, pl: Platform, aligned: bool, from: Place, s: nat, onto: Place, t: nat) {
    && from.wide == onto.wide == (pl.longIsEight && (w.Four? || !pl.gnuAmd64))
    && OnWord(from, s) && (w.Two? || pl.longIsEight ==> (aligned <==> OnWord(onto, t)))
  }

  /** Sixteen bytes on, or eight, is a word on. */
  lemma WordsOn(a: Place, p: nat)
    ensures OnWord(a, p + 8) <==> OnWord(a, p)
    ensures OnWord(a, p + 16) <==> OnWord(a, p)
  {
    var q := a.base + p;
    Remainder8(q + 8, q / 8 + 1, q % 8);
    Remainder8(q + 16, q / 8 + 2, q % 8);
    Remainder4(q + 8, q / 4 + 2, q % 4);
    Remainder4(q + 16, q / 4 + 4, q % 4);
  }

  lemma FourOn(w: Width, pl: Platform, aligned: bool, from: Place, s: nat, onto: Place, t: nat, k: nat)
    requires Placed(w, pl, aligned, from, s + Size(w, k), onto, t + Size(w, k))
    ensures Placed(w, pl, aligned, from, s + Size(w, k + 4), onto, t + Size(w, k + 4))
  {
    WordsOn(from, s + Size(w, k));
    WordsOn(onto, t + Size(w, k));
  }

  /** swap_2: one element. */
  method Swap2(le: bool, src: array<byte>, s: nat, dst: array<byte>, t: nat)
    requires s + 2 <= src.Length && t + 2 <= dst.Length
    modifies dst
    ensures dst[..] == Splice(old(dst[..]), t, Reversed(Two, old(src[..]), s, 1))
  {
    ghost var b0, b1 := src[s], src[s + 1];
    var x := Word2(le, src[s], src[s + 1]);
    assert Reversed(Two, src[..], s, 1) == [b1, b0];
    Reverse2Word(le, b0, b1);
    Write2(dst, t, le, Reverse2(x), b1, b0);
  }

  /** swap_4: one element. */
  method Swap4(le: bool, src: array<byte>, s: nat, dst: array<byte>, t: nat)
    requires s + 4 <= src.Length && t + 4 <= dst.Length
    modifies dst
    ensures dst[..] == Splice(old(dst[..]), t, Reversed(Four, old(src[..]), s, 1))
  {
    var a := Word4(le, src[s], src[s + 1], src[s + 2], src[s + 3]);
    StoreQuad(le, a, dst, t, src[..], s);
  }

  method StoreQuad(le: bool, a: bv32, dst: array<byte>, t: nat, ghost m: seq<byte>, ghost s: nat)
    requires t + 4 <= dst.Length && s + 4 <= |m|
    requires a == Word4(le, m[s], m[s + 1], m[s + 2], m[s + 3])
    modifies dst
    ensures dst[..] == Splice(old(dst[..]), t, Reversed(Four, m, s, 1))
  {
    List4(m, s);
    Reverse4Word(le, m[s], m[s + 1], m[s + 2], m[s + 3]);
    Write4(dst, t, le, Reverse4(a), m[s + 3], m[s + 2], m[s + 1], m[s]);
  }

  /** One turn of the 64-bit loops of swap_2_array: four elements; whole says that t is the place of a word. */
  method FourPairs64(le: bool, aligned: bool, src: array<byte>, s: nat, dst: array<byte>, t: nat, ghost whole: bool)
    requires aligned == whole
    requires s + 8 <= src.Length && t + 8 <= dst.Length
    modifies dst
    ensures dst[..] == Splice(old(dst[..]), t, Reversed(Two, old(src[..]), s, 4))
  {
    ghost var b0, b1, b2, b3, b4, b5, b6, b7 :=
      src[s], src[s + 1], src[s + 2], src[s + 3], src[s + 4], src[s + 5], src[s + 6], src[s + 7];
    var a := Word8(le, src[s], src[s + 1], src[s + 2], src[s + 3], src[s + 4], src[s + 5], src[s + 6], src[s + 7]);
    List8(src[..], s);
    Pairs8Word(le, b0, b1, b2, b3, b4, b5, b6, b7);
    if aligned {
      assert whole;
      Write8(dst, t, le, Pairs8(a), b1, b0, b3, b2, b5, b4, b7, b6);
    } else {
      SplitWrite8(dst, t, le, Pairs8(a), b1, b0, b3, b2, b5, b4, b7, b6);
    }
  }

  /** One turn of the 32-bit loops of swap_2_array: four elements. */
  method FourPairs32(le: bool, aligned: bool, src: array<byte>, s: nat, dst: array<byte>, t: nat, ghost whole: bool)
    requires aligned == whole
    requires s + 8 <= src.Length && t + 8 <= dst.Length
    modifies dst
    ensures dst[..] == Splice(old(dst[..]), t, Reversed(Two, old(src[..]), s, 4))
  {
    var a := Word4(le, src[s], src[s + 1], src[s + 2], src[s + 3]);
    var b := Word4(le, src[s + 4], src[s + 5], src[s + 6], src[s + 7]);
    if aligned {
      assert whole;
      StorePairsWhole(le, a, b, dst, t, src[..], s);
    } else {
      StorePairsSplit(le, a, b, dst, t, src[..], s);
    }
  }

  method StorePairsWhole(le: bool, a: bv32, b: bv32, dst: array<byte>, t: nat, ghost m: seq<byte>, ghost s: nat)
    requires t + 8 <= dst.Length && s + 8 <= |m|
    requires a == Word4(le, m[s], m[s + 1], m[s + 2], m[s + 3])
             && b == Word4(le, m[s + 4], m[s + 5], m[s + 6], m[s + 7])
    modifies dst
    ensures dst[..] == Splice(old(dst[..]), t, Reversed(Two, m, s, 4))
  {
    Grow(Two, dst[..], t, m, s, 2, 2);
    StorePairs(le, a, dst, t, m, s);
    StorePairs(le, b, dst, t + 4, m, s + 4);
  }

  method StorePairsSplit(le: bool, a: bv32, b: bv32, dst: array<byte>, t: nat, ghost m: seq<byte>, ghost s: nat)
    requires t + 8 <= dst.Length && s + 8 <= |m|
    requires a == Word4(le, m[s], m[s + 1], m[s + 2], m[s + 3])
             && b == Word4(le, m[s + 4], m[s + 5], m[s + 6], m[s + 7])
    modifies dst
    ensures dst[..] == Splice(old(dst[..]), t, Reversed(Two, m, s, 4))
  {
    List8(m, s);
    Pairs4Word(le, m[s], m[s + 1], m[s + 2], m[s + 3]);
    Pairs4Word(le, m[s + 4], m[s + 5], m[s + 6], m[s + 7]);
    SplitWrite4(dst, t, le, Pairs4(a), Pairs4(b), m[s + 1], m[s], m[s + 3], m[s + 2], m[s + 5], m[s + 4], m[s + 7],
                m[s + 6]);
  }

  method StorePairs(le: bool, a: bv32, dst: array<byte>, t: nat, ghost m: seq<byte>, ghost s: nat)
    requires t + 4 <= dst.Length && s + 4 <= |m|
    requires a == Word4(le, m[s], m[s + 1], m[s + 2], m[s + 3])
    modifies dst
    ensures dst[..] == Splice(old(dst[..]), t, Reversed(Two, m, s, 2))
  {
    List4(m, s);
    Pairs4Word(le, m[s], m[s + 1], m[s + 2], m[s + 3]);
    Write4(dst, t, le, Pairs4(a), m[s + 1], m[s], m[s + 3], m[s + 2]);
  }

  /** A word of two four-byte elements, reversed and stored whole or in halves. */
  method StoreQuads(le: bool, aligned: bool, a: bv64, dst: array<byte>, t: nat, ghost m: seq<byte>, ghost s: nat,
                    ghost whole: bool)
    requires aligned == whole
    requires t + 8 <= dst.Length && s + 8 <= |m|
    requires a == Word8(le, m[s], m[s + 1], m[s + 2], m[s + 3], m[s + 4], m[s + 5], m[s + 6], m[s + 7])
    modifies dst
    ensures dst[..] == Splice(old(dst[..]), t, Reversed(Four, m, s, 2))
  {
    ghost var b0, b1, b2, b3, b4, b5, b6, b7 := m[s], m[s + 1], m[s + 2], m[s + 3], m[s + 4], m[s + 5], m[s + 6],
      m[s + 7];
    List8(m, s);
    Quads8Word(le, b0, b1, b2, b3, b4, b5, b6, b7);
    if aligned {
      assert whole;
      Write8(dst, t, le, Quads8(a), b3, b2, b1, b0, b7, b6, b5, b4);
    } else {
      SplitWrite44(dst, t, le, Quads8(a), b3, b2, b1, b0, b7, b6, b5, b4);
    }
  }

  /** One turn of the 64-bit loops of swap_4_array: four elements. */
  method FourQuads64(le: bool, aligned: bool, src: array<byte>, s: nat, dst: array<byte>, t: nat, ghost whole: bool)
    requires aligned == whole
    requires s + 16 <= src.Length && t + 16 <= dst.Length
    modifies dst
    ensures dst[..] == Splice(old(dst[..]), t, Reversed(Four, old(src[..]), s, 4))
  {
    ghost var m := src[..];
    Grow(Four, dst[..], t, m, s, 2, 2);
    var a := Word8(le, src[s], src[s + 1], src[s + 2], src[s + 3], src[s + 4], src[s + 5], src[s + 6], src[s + 7]);
    var b := Word8(le, src[s + 8], src[s + 9], src[s + 10], src[s + 11], src[s + 12], src[s + 13], src[s + 14],
                   src[s + 15]);
    StoreQuads(le, aligned, a, dst, t, m, s, whole);
    StoreQuads(le, aligned, b, dst, t + 8, m, s + 8, whole);
  }

  /** One turn of the 32-bit loop of swap_4_array: four elements. */
  method FourQuads32(le: bool, src: array<byte>, s: nat, dst: array<byte>, t: nat)
    requires s + 16 <= src.Length && t + 16 <= dst.Length
    modifies dst
    ensures dst[..] == Splice(old(dst[..]), t, Reversed(Four, old(src[..]), s, 4))
  {
    ghost var m := src[..];
    Grow(Four, dst[..], t, m, s, 1, 1);
    Grow(Four, dst[..], t, m, s, 2, 1);
    Grow(Four, dst[..], t, m, s, 3, 1);
    var a := Word4(le, src[s], src[s + 1], src[s + 2], src[s + 3]);
    var b := Word4(le, src[s + 4], src[s + 5], src[s + 6], src[s + 7]);
    var c := Word4(le, src[s + 8], src[s + 9], src[s + 10], src[s + 11]);
    var d := Word4(le, src[s + 12], src[s + 13], src[s + 14], src[s + 15]);
    StoreQuad(le, a, dst, t, m, s);
    StoreQuad(le, b, dst, t + 4, m, s + 4);
    StoreQuad(le, c, dst, t + 8, m, s + 8);
    StoreQuad(le, d, dst, t + 12, m, s + 12);
  }

  /** Storing k reversed elements and then the next j stores k + j. */
  lemma Grow(w: Width, m: seq<byte>, t: nat, n: seq<byte>, s: nat, k: nat, j: nat)
    requires t + Size(w, k + j) <= |m|
    ensures Splice(Splice(m, t, Reversed(w, n, s, k)), t + Size(w, k), Reversed(w, n, s + Size(w, k), j))
            == Splice(m, t, Reversed(w, n, s, k + j))
  {
    ReversedConcat(w, n, s, k, j);
    SpliceNext(m, t, Reversed(w, n, s, k), Reversed(w, n, s + Size(w, k), j));
  }

  lemma Next(w: Width, m: seq<byte>, t: nat, n: seq<byte>, s: nat, k: nat, j: nat, before: seq<byte>, x: seq<byte>,
             after: seq<byte>)
    requires t + Size(w, k + j) <= |m|
    requires before == Splice(m, t, Reversed(w, n, s, k)) && x == Reversed(w, n, s + Size(w, k), j)
    requires after == Splice(before, t + Size(w, k), x)
    ensures after == Splice(m, t, Reversed(w, n, s, k + j))
  {
    Grow(w, m, t, n, s, k, j);
  }

  // ---------------------------------------------------------------------------------------
  // The two routines
  // ---------------------------------------------------------------------------------------

  /** Source and target share no bytes, or are the same bytes. */
  ghost predicate Separate(src: array<byte>, s: nat, dst: array<byte>, t: nat, size: nat) {
    src != dst || s == t || s + size <= t || t + size <= s
  }

  /**
   * After k of all elements the target holds them reversed and the rest of the source can still be read.
   * m and n are the contents of dst and src on entry.
   */
  ghost predicate Done(w: Width, src: array<byte>, s: nat, dst: array<byte>, t: nat, m: seq<byte>, n: seq<byte>,
                       k: nat, all: nat)
    reads src, dst
  {
    && Room(w, src, s, dst, t, m, n, all) && k <= all
    && (src == dst || src[..] == n)
    && dst[..] == Splice(m, t, Reversed(w, n, s, k))
  }

  ghost predicate Room(w: Width, src: array<byte>, s: nat, dst: array<byte>, t: nat, m: seq<byte>, n: seq<byte>,
                       all: nat) {
    && s + Size(w, all) <= |n| == src.Length && t + Size(w, all) <= |m| == dst.Length
    && Separate(src, s, dst, t, Size(w, all)) && (src == dst ==> m == n)
  }

  lemma Unread(w: Width, src: array<byte>, s: nat, dst: array<byte>, t: nat, m: seq<byte>, n: seq<byte>, k: nat,
               j: nat, all: nat)
    requires Done(w, src, s, dst, t, m, n, k, all) && k + j <= all
    ensures Reversed(w, src[..], s + Size(w, k), j) == Reversed(w, n, s + Size(w, k), j)
  {
    if src == dst {
      assert src[..] == Splice(m, t, Reversed(w, n, s, k));
      Untouched(w, m, s, t, Reversed(w, n, s, k), k, j, all);
    }
  }

  lemma Untouched(w: Width, m: seq<byte>, s: nat, t: nat, x: seq<byte>, k: nat, j: nat, all: nat)
    requires |x| == Size(w, k) && k + j <= all
    requires s + Size(w, all) <= |m| && t + Size(w, all) <= |m|
    requires s == t || s + Size(w, all) <= t || t + Size(w, all) <= s
    ensures Reversed(w, Splice(m, t, x), s + Size(w, k), j) == Reversed(w, m, s + Size(w, k), j)
  {
  }

  /** One element (j is 1), or four (j is 4) by the loop body the platform and the target's alignment select. */
  method Move(w: Width, j: nat, pl: Platform, aligned: bool, src: array<byte>, s: nat, dst: array<byte>, t: nat,
              ghost from: Place, ghost onto: Place)
    requires j == 4 ==> Placed(w, pl, aligned, from, s, onto, t)
    requires (j == 1 || j == 4) && s + Size(w, j) <= src.Length && t + Size(w, j) <= dst.Length
    modifies dst
    ensures dst[..] == Splice(old(dst[..]), t, Reversed(w, old(src[..]), s, j))
  {
    if j == 4 {
      if w.Two? {
        if pl.longIsEight {
          FourPairs64(pl.littleEndian, aligned, src, s, dst, t, OnWord(onto, t));
        } else {
          FourPairs32(pl.littleEndian, aligned, src, s, dst, t, OnWord(onto, t));
        }
      } else {
        if pl.longIsEight {
          FourQuads64(pl.littleEndian, aligned, src, s, dst, t, OnWord(onto, t));
        } else {
          FourQuads32(pl.littleEndian, src, s, dst, t);
        }
      }
    } else {
      if w.Two? { Swap2(pl.littleEndian, src, s, dst, t); } else { Swap4(pl.littleEndian, src, s, dst, t); }
    }
  }

  /** The same, with the cursors k elements along. */
  method Step(w: Width, j: nat, pl: Platform, aligned: bool, src: array<byte>, so: nat, dst: array<byte>, to: nat,
              k: nat, ghost from: Place, ghost onto: Place, ghost m: seq<byte>, ghost n: seq<byte>, ghost all: nat)
    requires j == 4 ==> Placed(w, pl, aligned, from, so + Size(w, k), onto, to + Size(w, k))
    requires (j == 1 || j == 4) && k + j <= all && Done(w, src, so, dst, to, m, n, k, all)
    modifies dst
    ensures Done(w, src, so, dst, to, m, n, k + j, all)
  {
    ghost var before, x := dst[..], Reversed(w, src[..], so + Size(w, k), j);
    Unread(w, src, so, dst, to, m, n, k, j, all);
    Move(w, j, pl, aligned, src, so + Size(w, k), dst, to + Size(w, k), from, onto);
    Next(w, m, to, n, so, k, j, before, x, dst[..]);
  }

  method One(w: Width, pl: Platform, src: array<byte>, so: nat, dst: array<byte>, to: nat, k: nat,
             ghost m: seq<byte>, ghost n: seq<byte>, ghost all: nat)
    requires k < all && Done(w, src, so, dst, to, m, n, k, all)
    modifies dst
    ensures Done(w, src, so, dst, to, m, n, k + 1, all)
  {
    Step(w, 1, pl, false, src, so, dst, to, k, Place(0, false), Place(0, false), m, n, all);
  }

  method FourMore(w: Width, pl: Platform, aligned: bool, src: array<byte>, so: nat, dst: array<byte>, to: nat, k: nat,
                  ghost from: Place, ghost onto: Place, ghost m: seq<byte>, ghost n: seq<byte>, ghost all: nat)
    requires Placed(w, pl, aligned, from, so + Size(w, k), onto, to + Size(w, k))
    requires k + 4 <= all && Done(w, src, so, dst, to, m, n, k, all)
    modifies dst
    ensures Placed(w, pl, aligned, from, so + Size(w, k + 4), onto, to + Size(w, k + 4))
    ensures Done(w, src, so, dst, to, m, n, k + 4, all)
  {
    Step(w, 4, pl, aligned, src, so, dst, to, k, from, onto, m, n, all);
    FourOn(w, pl, aligned, from, so, onto, to, k);
  }

  /**
   * swap_2_array: source aligned to its elements, any target alignment, any byte order and word size.
   * The target may be the source itself or bytes that do not overlap it.
   */
  method Swap2Array(pl: Platform, src: array<byte>, so: nat, srcBase: nat, dst: array<byte>, to: nat, dstBase: nat,
                    count: nat)
    requires count > 0 && (srcBase + so) % 2 == 0
    requires so + 2 * count <= src.Length && to + 2 * count <= dst.Length
    requires Separate(src, so, dst, to, 2 * count)
    modifies dst
    ensures dst[..] == Splice(old(dst[..]), to, Reversed(Two, old(src[..]), so, count))
  {
    ghost var m, s := dst[..], src[..];
    Start(Two, src, so, dst, to, count);
    var narrow := !pl.longIsEight || pl.gnuAmd64;
    var k := Prefix2(pl, narrow, src, so, srcBase, dst, to, count, m, s);
    if k == count {
      return;
    }
    var target := dstBase + to + 2 * k;
    var aligned := if narrow then target == AlignBinary(target, 4) else target == AlignBinary(target, 8);
    if narrow { NextOf4(target); } else { NextOf8(target); }
    k := Unrolled(Two, pl, aligned, src, so, dst, to, k, count, Place(srcBase, !narrow), Place(dstBase, !narrow), m, s);
    Tail(Two, pl, src, so, dst, to, k, count, m, s);
  }

  /** Moves elements until the wide reads are aligned, or none is left; k counts them. */
  method Prefix2(pl: Platform, narrow: bool, src: array<byte>, so: nat, srcBase: nat, dst: array<byte>, to: nat,
                 count: nat,
                 ghost m: seq<byte>, ghost s: seq<byte>)
    returns (k: nat)
    requires count > 0 && (srcBase + so) % 2 == 0 && Done(Two, src, so, dst, to, m, s, 0, count)
    modifies dst
    ensures Done(Two, src, so, dst, to, m, s, k, count)
    ensures k == count || OnWord(Place(srcBase, !narrow), so + 2 * k)
  {
    k := 0;
    if narrow {
      PairMismatch(srcBase + so);
      if srcBase + so != AlignBinary(srcBase + so, 4) {
        One(Two, pl, src, so, dst, to, 0, m, s, count);
        k := 1;
      }
    } else {
      k := PrefixLoop2(pl, src, so, srcBase, dst, to, count, m, s);
    }
  }

  lemma PairMismatch(address: nat)
    requires address % 2 == 0
    ensures address == AlignBinary(address, 4) ==> address % 4 == 0
    ensures address != AlignBinary(address, 4) ==> (address + 2) % 4 == 0
  {
    NextOf4(address);
    var q, h := address / 4, address / 2;
    if address % 4 != 0 {
      assert address % 4 == 2 by { assert address == 2 * h && address % 4 == 2 * (h - 2 * q); }
      Remainder4(address + 2, q + 1, 0);
    }
  }

  method PrefixLoop2(pl: Platform, src: array<byte>, so: nat, srcBase: nat, dst: array<byte>, to: nat, count: nat,
                     ghost m: seq<byte>, ghost s: seq<byte>)
    returns (k: nat)
    requires (srcBase + so) % 2 == 0 && Done(Two, src, so, dst, to, m, s, 0, count)
    modifies dst
    ensures Done(Two, src, so, dst, to, m, s, k, count)
    ensures k == count || (srcBase + so + 2 * k) % 8 == 0
  {
    k := 0;
    var limit := AlignBinary(srcBase + so, 8);
    ghost var pad := PairsToNext(srcBase + so);
    while srcBase + so + 2 * k < limit && k < count
      invariant k <= pad && Done(Two, src, so, dst, to, m, s, k, count)
    {
      One(Two, pl, src, so, dst, to, k, m, s, count);
      k := k + 1;
    }
  }

  lemma PairsToNext(address: nat) returns (pad: nat)
    requires address % 2 == 0
    ensures AlignBinary(address, 8) == address + 2 * pad && AlignBinary(address, 8) % 8 == 0
  {
    NextOf8(address);
    var q, r := address / 8, address % 8;
    EvenRemainder(address, q, r);
    pad := if r == 0 then 0 else (8 - r) / 2;
  }

  lemma EvenRemainder(n: nat, q: nat, r: nat)
    requires n == 8 * q + r && n % 2 == 0
    ensures r % 2 == 0
  {
    var h := n / 2;
    assert n == 2 * h && r == 2 * (h - 4 * q);
  }

  /** The unrolled loop: four elements a turn while four are left of the count - start it begins with. */
  method Unrolled(w: Width, pl: Platform, aligned: bool, src: array<byte>, so: nat, dst: array<byte>, to: nat,
                  start: nat, count: nat, ghost from: Place, ghost onto: Place,
                  ghost m: seq<byte>, ghost s: seq<byte>)
    returns (k: nat)
    requires Placed(w, pl, aligned, from, so + Size(w, start), onto, to + Size(w, start))
    requires Done(w, src, so, dst, to, m, s, start, count)
    modifies dst
    ensures k == count - (count - start) % 4 && Done(w, src, so, dst, to, m, s, k, count)
  {
    k := start;
    var end := start + ((count - start) - (count - start) % 4);
    ghost var turns, i := (count - start) / 4, 0;
    assert end == start + 4 * turns;
    while k < end
      invariant i <= turns && k == start + 4 * i && Done(w, src, so, dst, to, m, s, k, count)
      invariant Placed(w, pl, aligned, from, so + Size(w, k), onto, to + Size(w, k))
    {
      FourMore(w, pl, aligned, src, so, dst, to, k, from, onto, m, s, count);
      k, i := k + 4, i + 1;
    }
  }

  /** The fall-through switch over the elements left after the unrolled loop. */
  method Tail(w: Width, pl: Platform, src: array<byte>, so: nat, dst: array<byte>, to: nat, start: nat, count: nat,
              ghost m: seq<byte>, ghost s: seq<byte>)
    requires count < start + 4 && Done(w, src, so, dst, to, m, s, start, count)
    modifies dst
    ensures Done(w, src, so, dst, to, m, s, count, count)
  {
    var k, left := start, count - start;
    if left == 3 {
      One(w, pl, src, so, dst, to, k, m, s, count);
      k := k + 1;
    }
    if left >= 2 {
      One(w, pl, src, so, dst, to, k, m, s, count);
      k := k + 1;
    }
    if left >= 1 {
      One(w, pl, src, so, dst, to, k, m, s, count);
    }
  }

  /** The mismatch of a four-byte element with an eight-byte word can only be by one element. */
  method Prefix4(pl: Platform, src: array<byte>, so: nat, srcBase: nat, dst: array<byte>, to: nat, count: nat,
                 ghost m: seq<byte>, ghost s: seq<byte>)
    returns (k: nat)
    requires count > 0 && (srcBase + so) % 4 == 0 && Done(Four, src, so, dst, to, m, s, 0, count)
    modifies dst
    ensures Done(Four, src, so, dst, to, m, s, k, count)
    ensures OnWord(Place(srcBase, pl.longIsEight), so + 4 * k)
  {
    k := 0;
    NextOf8(srcBase + so);
    HalfWord(srcBase + so);
    if pl.longIsEight && srcBase + so != AlignBinary(srcBase + so, 8) {
      One(Four, pl, src, so, dst, to, k, m, s, count);
      k := 1;
    }
  }

  lemma HalfWord(address: nat)
    requires address % 4 == 0
    ensures address % 8 == 0 || (address % 8 == 4 && (address + 4) % 8 == 0)
  {
    var h := address / 4;
    HalfWordAt(address, h / 2, h % 2);
  }

  lemma HalfWordAt(address: nat, p: nat, b: nat)
    requires address == 8 * p + 4 * b && b < 2
    ensures address % 8 == 4 * b && (b == 1 ==> (address + 4) % 8 == 0)
  {
    Remainder8(address, p, 4 * b);
    if b == 1 { Remainder8(address + 4, p + 1, 0); }
  }

  lemma Start(w: Width, src: array<byte>, s: nat, dst: array<byte>, t: nat, all: nat)
    requires s + Size(w, all) <= src.Length && t + Size(w, all) <= dst.Length
    requires Separate(src, s, dst, t, Size(w, all))
    ensures Done(w, src, s, dst, t, dst[..], src[..], 0, all)
  {
    assert Splice(dst[..], t, Reversed(w, src[..], s, 0)) == dst[..];
  }

  /** swap_4_array: the same promise for four-byte elements. */
  method Swap4Array(pl: Platform, src: array<byte>, so: nat, srcBase: nat, dst: array<byte>, to: nat, dstBase: nat,
                    count: nat)
    requires count > 0 && (srcBase + so) % 4 == 0
    requires so + 4 * count <= src.Length && to + 4 * count <= dst.Length
    requires Separate(src, so, dst, to, 4 * count)
    modifies dst
    ensures dst[..] == Splice(old(dst[..]), to, Reversed(Four, old(src[..]), so, count))
  {
    ghost var m, s := dst[..], src[..];
    Start(Four, src, so, dst, to, count);
    var k := Prefix4(pl, src, so, srcBase, dst, to, count, m, s);
    if k == count {
      return;
    }
    var target := dstBase + to + 4 * k;
    var aligned := target == AlignBinary(target, 8);
    NextOf8(target);
    k := Unrolled(Four, pl, aligned, src, so, dst, to, k, count, Place(srcBase, pl.longIsEight),
                  Place(dstBase, pl.longIsEight), m, s);
    Tail(Four, pl, src, so, dst, to, k, count, m, s);
  }

  /** Swapping elements in place a second time, on whatever platforms, restores the array. */
  method SwapTwice(pl: Platform, other: Platform, w: Width, a: array<byte>, so: nat, base: nat, count: nat)
    requires count > 0 && (base + so) % Size(w, 1) == 0 && so + Size(w, count) <= a.Length
    modifies a
    ensures a[..] == old(a[..])
  {
    ReversedTwice(w, a[..], so, count);
    if w.Two? {
      Swap2Array(pl, a, so, base, a, so, base, count);
      Swap2Array(other, a, so, base, a, so, base, count);
    } else {
      Swap4Array(pl, a, so, base, a, so, base, count);
      Swap4Array(other, a, so, base, a, so, base, count);
    }
  }
}
