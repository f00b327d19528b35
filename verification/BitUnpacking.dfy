/**
 * Machine words as bit sequences, least significant bit first. The word type and its
 * operations are parameters, so that one set of lemmas serves every register width.
 */
module BitUnpacking {
  import opened CrcPolynomial

  /** Eight bits of one byte in the order the reflected registers shift them. */
  function Octet(b: bv8): (o: Bits)
    ensures |o| == 8
  {
    [b & 0x01 != 0, b & 0x02 != 0, b & 0x04 != 0, b & 0x08 != 0,
     b & 0x10 != 0, b & 0x20 != 0, b & 0x40 != 0, b & 0x80 != 0]
  }

  /** The bits of a message in the order they enter the register. */
  function MessageBits(msg: seq<bv8>): (bits: Bits)
    ensures |bits| == 8 * |msg|
  {
    if msg == [] then [] else Octet(msg[0]) + MessageBits(msg[1..])
  }

  /** The n lowest bits of x; low reads the lowest bit, half shifts right by one. */
  function Unpack<T>(low: T -> bool, half: T -> T, n: nat, x: T): (b: Bits)
    ensures |b| == n
  {
    if n == 0 then [] else [low(x)] + Unpack(low, half, n - 1, half(x))
  }

  function Halve<T>(half: T -> T, n: nat, x: T): T {
    if n == 0 then x else Halve(half, n - 1, half(x))
  }

  lemma {:induction false} UnpackXor<T(!new)>(low: T -> bool, half: T -> T, xor: (T, T) -> T, n: nat, x: T, y: T)
    requires forall a, b :: low(xor(a, b)) == (low(a) != low(b))
    requires forall a, b :: half(xor(a, b)) == xor(half(a), half(b))
    ensures Unpack(low, half, n, xor(x, y)) == Xor(Unpack(low, half, n, x), Unpack(low, half, n, y))
  {
    if n > 0 {
      UnpackXor(low, half, xor, n - 1, half(x), half(y));
    }
  }

  lemma {:induction false} UnpackMore<T>(low: T -> bool, half: T -> T, n: nat, x: T)
    ensures Unpack(low, half, n + 1, x) == Unpack(low, half, n, x) + [low(Halve(half, n, x))]
  {
    if n > 0 {
      UnpackMore(low, half, n - 1, half(x));
    }
  }

  lemma UnpackHalf<T>(low: T -> bool, half: T -> T, n: nat, x: T)
    requires n > 0 && !low(Halve(half, n, x))
    ensures Unpack(low, half, n, half(x)) == Shift(Unpack(low, half, n, x))
  {
    UnpackMore(low, half, n, x);
    assert Unpack(low, half, n + 1, x)[1..] == Unpack(low, half, n, half(x));
  }

  lemma {:induction false} UnpackZero<T>(low: T -> bool, half: T -> T, n: nat, zero: T)
    requires !low(zero) && half(zero) == zero
    ensures Unpack(low, half, n, zero) == Zeros(n)
  {
    if n > 0 {
      UnpackZero(low, half, n - 1, zero);
    }
  }

  /** Reading on after the word has run out gives zeros. */
  lemma {:induction false} UnpackLonger<T>(low: T -> bool, half: T -> T, n: nat, k: nat, x: T)
    requires var zero := Halve(half, n, x); !low(zero) && half(zero) == zero
    ensures Unpack(low, half, n + k, x) == Unpack(low, half, n, x) + Zeros(k)
  {
    if n == 0 {
      UnpackZero(low, half, k, x);
    } else {
      UnpackLonger(low, half, n - 1, k, half(x));
    }
  }

  lemma {:induction false} UnpackInjective<T(!new)>(low: T -> bool, half: T -> T, n: nat, x: T, y: T)
    requires forall a, b :: low(a) == low(b) && half(a) == half(b) ==> a == b
    requires Halve(half, n, x) == Halve(half, n, y)
    requires Unpack(low, half, n, x) == Unpack(low, half, n, y)
    ensures x == y
  {
    if n > 0 {
      var u, v := Unpack(low, half, n, x), Unpack(low, half, n, y);
      assert u[0] == v[0] && u[1..] == v[1..];
      UnpackInjective(low, half, n - 1, half(x), half(y));
    }
  }

  lemma UnpackEight<T>(low: T -> bool, half: T -> T, n: nat, x0: T, x1: T, x2: T, x3: T, x4: T, x5: T, x6: T, x7: T,
                       x8: T)
    requires x1 == half(x0) && x2 == half(x1) && x3 == half(x2) && x4 == half(x3)
    requires x5 == half(x4) && x6 == half(x5) && x7 == half(x6) && x8 == half(x7)
    ensures Unpack(low, half, n + 8, x0)
            == [low(x0), low(x1), low(x2), low(x3), low(x4), low(x5), low(x6), low(x7)] + Unpack(low, half, n, x8)
  {
    assert Unpack(low, half, n + 8, x0) == [low(x0), low(x1)] + Unpack(low, half, n + 6, x2);
    assert Unpack(low, half, n + 6, x2) == [low(x2), low(x3)] + Unpack(low, half, n + 4, x4);
    assert Unpack(low, half, n + 4, x4) == [low(x4), low(x5)] + Unpack(low, half, n + 2, x6);
    assert Unpack(low, half, n + 2, x6) == [low(x6), low(x7)] + Unpack(low, half, n, x8);
  }

  lemma HalveEight<T>(half: T -> T, n: nat, x: T)
    ensures Halve(half, n + 8, x) == Halve(half, n, half(half(half(half(half(half(half(half(x)))))))))
  {
    var x4 := half(half(half(half(x))));
    assert Halve(half, n + 8, x) == Halve(half, n + 6, half(half(x))) == Halve(half, n + 4, x4);
    assert Halve(half, n + 4, x4) == Halve(half, n + 2, half(half(x4)));
    assert Halve(half, n + 2, half(half(x4))) == Halve(half, n, half(half(half(half(x4)))));
  }

  /** A four-byte word read byte by byte; byte reads the lowest byte, down shifts right by eight. */
  lemma UnpackFourBytes<T(!new)>(low: T -> bool, half: T -> T, byte: T -> bv8, down: T -> T, x: T)
    requires forall n: nat, y :: Unpack(low, half, n + 8, y) == Octet(byte(y)) + Unpack(low, half, n, down(y))
    ensures Unpack(low, half, 32, x)
            == Octet(byte(x)) + (Octet(byte(down(x))) + (Octet(byte(down(down(x)))) + Octet(byte(down(down(down(x)))))))
  {
    var x1 := down(x);
    var x2 := down(x1);
    var x3 := down(x2);
    assert Unpack(low, half, 24 + 8, x) == Octet(byte(x)) + Unpack(low, half, 24, x1);
    assert Unpack(low, half, 16 + 8, x1) == Octet(byte(x1)) + Unpack(low, half, 16, x2);
    assert Unpack(low, half, 8 + 8, x2) == Octet(byte(x2)) + Unpack(low, half, 8, x3);
    assert Unpack(low, half, 0 + 8, x3) == Octet(byte(x3)) + Unpack(low, half, 0, down(x3));
  }

  lemma UnpackTwoBytes<T(!new)>(low: T -> bool, half: T -> T, byte: T -> bv8, down: T -> T, x: T)
    requires forall n: nat, y :: Unpack(low, half, n + 8, y) == Octet(byte(y)) + Unpack(low, half, n, down(y))
    ensures Unpack(low, half, 16, x) == Octet(byte(x)) + Octet(byte(down(x)))
  {
    assert Unpack(low, half, 8 + 8, x) == Octet(byte(x)) + Unpack(low, half, 8, down(x));
    assert Unpack(low, half, 0 + 8, down(x)) == Octet(byte(down(x))) + Unpack(low, half, 0, down(down(x)));
  }

  lemma HalveFourBytes<T(!new)>(half: T -> T, down: T -> T, x: T)
    requires forall n: nat, y :: Halve(half, n + 8, y) == Halve(half, n, down(y))
    ensures Halve(half, 32, x) == down(down(down(down(x))))
  {
    assert Halve(half, 24 + 8, x) == Halve(half, 24, down(x));
    assert Halve(half, 16 + 8, down(x)) == Halve(half, 16, down(down(x)));
    assert Halve(half, 8 + 8, down(down(x))) == Halve(half, 8, down(down(down(x))));
    assert Halve(half, 0 + 8, down(down(down(x)))) == Halve(half, 0, down(down(down(down(x)))));
  }

  lemma HalveTwoBytes<T(!new)>(half: T -> T, down: T -> T, x: T)
    requires forall n: nat, y :: Halve(half, n + 8, y) == Halve(half, n, down(y))
    ensures Halve(half, 16, x) == down(down(x))
  {
    assert Halve(half, 8 + 8, x) == Halve(half, 8, down(x));
    assert Halve(half, 0 + 8, down(x)) == Halve(half, 0, down(down(x)));
  }

  lemma MessageBitsFour(a: bv8, b: bv8, c: bv8, d: bv8)
    ensures MessageBits([a, b, c, d]) == Octet(a) + (Octet(b) + (Octet(c) + Octet(d)))
  {
    assert [a, b, c, d][1..] == [b, c, d] && [b, c, d][1..] == [c, d] && [c, d][1..] == [d] && [d][1..] == [];
    assert MessageBits([c, d]) == Octet(c) + MessageBits([d]) && MessageBits([d]) == Octet(d) + MessageBits([]);
    assert MessageBits([]) == [];
  }

  lemma MessageBitsTwo(a: bv8, b: bv8)
    ensures MessageBits([a, b]) == Octet(a) + Octet(b)
  {
    assert [a, b][1..] == [b] && [b][1..] == [];
    assert MessageBits([b]) == Octet(b) + MessageBits([]);
  }

  lemma OctetInjective(a: bv8, b: bv8)
    requires Octet(a) == Octet(b)
    ensures a == b
  {
    var o, p := Octet(a), Octet(b);
    assert o[0] == p[0] && o[1] == p[1] && o[2] == p[2] && o[3] == p[3];
    assert o[4] == p[4] && o[5] == p[5] && o[6] == p[6] && o[7] == p[7];
  }

  lemma {:induction false} MessageBitsConcat(a: seq<bv8>, b: seq<bv8>)
    ensures MessageBits(a + b) == MessageBits(a) + MessageBits(b)
  {
    if a == [] {
      assert a + b == b;
    } else {
      assert (a + b)[1..] == a[1..] + b;
      MessageBitsConcat(a[1..], b);
    }
  }

  lemma MessageBitsWindow(before: seq<bv8>, a: seq<bv8>, after: seq<bv8>)
    ensures MessageBits(before + a + after) == MessageBits(before) + MessageBits(a) + MessageBits(after)
  {
    MessageBitsConcat(before + a, after);
    MessageBitsConcat(before, a);
  }

  lemma {:induction false} MessageBitsInjective(a: seq<bv8>, b: seq<bv8>)
    requires MessageBits(a) == MessageBits(b)
    ensures a == b
  {
    if a != [] {
      var u, v := MessageBits(a), MessageBits(b);
      assert |a| == |b|;
      assert u[..8] == Octet(a[0]) && v[..8] == Octet(b[0]);
      assert u[8..] == MessageBits(a[1..]) && v[8..] == MessageBits(b[1..]);
      OctetInjective(a[0], b[0]);
      MessageBitsInjective(a[1..], b[1..]);
    }
  }

  // ---------------------------------------------------------------------------------------
  // Registers updated byte by byte
  // ---------------------------------------------------------------------------------------

  function Fold<T>(f: (T, bv8) -> T, r: T, msg: seq<bv8>): T
    decreases |msg|
  {
    if msg == [] then r else Fold(f, f(r, msg[0]), msg[1..])
  }

  function Flatten(iov: seq<seq<bv8>>): seq<bv8> {
    if iov == [] then [] else iov[0] + Flatten(iov[1..])
  }

  lemma {:induction false} FlattenSnoc(iov: seq<seq<bv8>>, n: nat)
    requires n < |iov|
    ensures Flatten(iov[..n + 1]) == Flatten(iov[..n]) + iov[n]
  {
    if n == 0 {
      assert iov[..1] == [iov[0]] && iov[..0] == [];
      assert Flatten([iov[0]]) == iov[0] + Flatten([]);
    } else {
      FlattenSnoc(iov[1..], n - 1);
      assert iov[..n + 1][1..] == iov[1..][..n] && iov[..n][1..] == iov[1..][..n - 1];
    }
  }

  lemma {:induction false} FoldConcat<T>(f: (T, bv8) -> T, r: T, a: seq<bv8>, b: seq<bv8>)
    ensures Fold(f, r, a + b) == Fold(f, Fold(f, r, a), b)
    decreases |a|
  {
    if a == [] {
      assert a + b == b;
    } else {
      assert (a + b)[1..] == a[1..] + b;
      FoldConcat(f, f(r, a[0]), a[1..], b);
    }
  }

  lemma FoldSnoc<T>(f: (T, bv8) -> T, r: T, msg: seq<bv8>, n: nat)
    requires n < |msg|
    ensures Fold(f, r, msg[..n + 1]) == f(Fold(f, r, msg[..n]), msg[n])
  {
    assert msg[..n + 1] == msg[..n] + [msg[n]];
    FoldConcat(f, r, msg[..n], [msg[n]]);
    assert Fold(f, Fold(f, r, msg[..n]), [msg[n]]) == Fold(f, f(Fold(f, r, msg[..n]), msg[n]), []);
  }

  /** The seed is complemented on the way in and the result on the way out. */
  function Seeded<T>(f: (T, bv8) -> T, not: T -> T, seed: T, msg: seq<bv8>): T {
    not(Fold(f, not(seed), msg))
  }

  lemma SeededChained<T>(f: (T, bv8) -> T, not: T -> T, seed: T, a: seq<bv8>, b: seq<bv8>)
    requires var x := Fold(f, not(seed), a); not(not(x)) == x
    ensures Seeded(f, not, Seeded(f, not, seed, a), b) == Seeded(f, not, seed, a + b)
  {
    FoldConcat(f, not(seed), a, b);
  }

  /** A byte step that agrees with the polynomial register on every byte agrees on every message. */
  lemma {:induction false} FoldIsUpdate<T(!new)>(f: (T, bv8) -> T, bits: T -> Bits, g: Bits, r: T, msg: seq<bv8>)
    requires |g| > 0 && forall x :: |bits(x)| == |g|
    requires forall x, ch :: bits(f(x, ch)) == Update(g, bits(x), Octet(ch))
    ensures bits(Fold(f, r, msg)) == Update(g, bits(r), MessageBits(msg))
    decreases |msg|
  {
    if msg != [] {
      FoldIsUpdate(f, bits, g, f(r, msg[0]), msg[1..]);
      UpdateConcat(g, bits(r), Octet(msg[0]), MessageBits(msg[1..]));
    }
  }

  /**
   * One byte through a lookup table: if the table holds eight steps of every index, the index is the
   * low byte mixed with the message byte, and the rest is shifted down, the register is updated.
   */
  lemma TableLookup<T(!new)>(bits: T -> Bits, mix: (T, T) -> T, entry: bv8 -> T, wide: bv8 -> T,
                             index: (T, bv8) -> bv8, down: T -> T, g: Bits, r: T, ch: bv8)
    requires |g| >= 8 && forall x :: |bits(x)| == |g|
    requires forall x, y :: bits(mix(x, y)) == Xor(bits(x), bits(y))
    requires forall i :: bits(entry(i)) == Steps(g, 8, bits(wide(i)))
    requires forall x, c :: bits(wide(index(x, c))) == Xor(bits(x)[..8], Octet(c)) + Zeros(|g| - 8)
    requires forall x :: bits(down(x)) == bits(x)[8..] + Zeros(8)
    ensures bits(mix(entry(index(r, ch)), down(r))) == Update(g, bits(r), Octet(ch))
  {
    var i := index(r, ch);
    assert bits(mix(entry(i), down(r))) == Xor(bits(entry(i)), bits(down(r)));
    LookupBits(g, bits(r), bits(wide(i)), bits(entry(i)), bits(down(r)), Octet(ch));
  }

  lemma LookupBits(g: Bits, r: Bits, i: Bits, e: Bits, h: Bits, o: Bits)
    requires |g| == |r| == |i| >= |o| == 8
    requires e == Steps(g, 8, i)
    requires i == Xor(r[..8], o) + Zeros(|g| - 8)
    requires h == r[8..] + Zeros(8)
    ensures Xor(e, h) == Update(g, r, o)
  {
    TableStep(g, r, o);
  }
}
