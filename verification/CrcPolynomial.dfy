/**
 * Cyclic redundancy codes as polynomial arithmetic over GF(2), for any width.
 *
 * A register of width W is a sequence of W bits; index 0 is the bit shifted out next, so it
 * holds the coefficient of x^(W-1). A generator of degree W is written without its leading
 * term, in the same order. A message is a sequence of bits in transmission order.
 */
module CrcPolynomial {

  type Bits = seq<bool>

  function Zeros(n: nat): (z: Bits)
    ensures |z| == n && forall i :: 0 <= i < n ==> !z[i]
  {
    seq(n, i => false)
  }

  function Xor(a: Bits, b: Bits): (c: Bits)
    requires |a| == |b|
    ensures |c| == |a| && forall i :: 0 <= i < |a| ==> c[i] == (a[i] != b[i])
  {
    seq(|a|, i requires 0 <= i < |a| => a[i] != b[i])
  }

  function Not(a: Bits): (c: Bits)
    ensures |c| == |a| && forall i :: 0 <= i < |a| ==> c[i] == !a[i]
  {
    seq(|a|, i requires 0 <= i < |a| => !a[i])
  }

  lemma NotNot(a: Bits)
    ensures Not(Not(a)) == a
  {
  }

  lemma NotInjective(a: Bits, b: Bits)
    requires |a| == |b| && a != b
    ensures Not(a) != Not(b)
  {
    var i :| 0 <= i < |a| && a[i] != b[i];
    assert Not(a)[i] != Not(b)[i];
  }

  function Shift(r: Bits): (s: Bits)
    requires |r| > 0
    ensures |s| == |r|
  {
    r[1..] + [false]
  }

  /** One shift of the feedback register. */
  function Step(g: Bits, r: Bits): (s: Bits)
    requires |g| == |r| > 0
    ensures |s| == |r|
  {
    if r[0] then Xor(Shift(r), g) else Shift(r)
  }

  function Steps(g: Bits, n: nat, r: Bits): (s: Bits)
    requires |g| == |r| > 0
    ensures |s| == |r|
  {
    if n == 0 then r else Steps(g, n - 1, Step(g, r))
  }

  /** The register after one message bit. */
  function Absorb(g: Bits, r: Bits, bit: bool): (s: Bits)
    requires |g| == |r| > 0
    ensures |s| == |r|
  {
    Step(g, r[0 := r[0] != bit])
  }

  /** The register after a whole message. */
  function Update(g: Bits, r: Bits, bits: Bits): (s: Bits)
    requires |g| == |r| > 0
    ensures |s| == |r|
    decreases |bits|
  {
    if bits == [] then r else Update(g, Absorb(g, r, bits[0]), bits[1..])
  }

  lemma {:induction false} UpdateConcat(g: Bits, r: Bits, a: Bits, b: Bits)
    requires |g| == |r| > 0
    ensures Update(g, r, a + b) == Update(g, Update(g, r, a), b)
    decreases |a|
  {
    if a == [] {
      assert a + b == b;
    } else {
      assert (a + b)[1..] == a[1..] + b;
      UpdateConcat(g, Absorb(g, r, a[0]), a[1..], b);
    }
  }

  lemma {:induction false} StepsConcat(g: Bits, m: nat, n: nat, r: Bits)
    requires |g| == |r| > 0
    ensures Steps(g, m + n, r) == Steps(g, n, Steps(g, m, r))
    decreases m
  {
    if m > 0 {
      StepsConcat(g, m - 1, n, Step(g, r));
    }
  }

  lemma StepsFour(g: Bits, r0: Bits, r1: Bits, r2: Bits, r3: Bits, r4: Bits)
    requires |g| == |r0| == |r1| == |r2| == |r3| > 0
    requires r1 == Step(g, r0) && r2 == Step(g, r1) && r3 == Step(g, r2) && r4 == Step(g, r3)
    ensures Steps(g, 4, r0) == r4
  {
    assert Steps(g, 4, r0) == Steps(g, 2, r2);
    assert Steps(g, 2, r2) == Steps(g, 0, r4);
  }

  // ---------------------------------------------------------------------------------------
  // The register is the remainder of a polynomial division
  // ---------------------------------------------------------------------------------------

  /** Schoolbook product, highest power first; p is [true] + g. */
  function Product(q: Bits, p: Bits): (m: Bits)
    requires |p| > 0
    ensures |m| == |q| + |p| - 1
    decreases |q|
  {
    if q == [] then Zeros(|p| - 1)
    else Xor((if q[0] then p else Zeros(|p|)) + Zeros(|q| - 1), [false] + Product(q[1..], p))
  }

  /** The quotient bits are the feedback bits of the register. */
  function Quotient(g: Bits, r: Bits, bits: Bits): (q: Bits)
    requires |g| == |r| > 0
    ensures |q| == |bits|
    decreases |bits|
  {
    if bits == [] then []
    else [r[0] != bits[0]] + Quotient(g, Absorb(g, r, bits[0]), bits[1..])
  }

  /** The dividend: message times x^W, plus the initial register times x^|bits|. */
  function Dividend(r: Bits, bits: Bits): (d: Bits)
    ensures |d| == |r| + |bits|
  {
    Xor(r + Zeros(|bits|), bits + Zeros(|r|))
  }

  /** Long division: dividend == quotient * generator + register, and the register has degree below W. */
  lemma {:induction false} RegisterIsRemainder(g: Bits, r: Bits, bits: Bits)
    requires |g| == |r| > 0
    ensures Dividend(r, bits)
            == Xor(Product(Quotient(g, r, bits), [true] + g), Zeros(|bits|) + Update(g, r, bits))
    decreases |bits|
  {
    if bits == [] {
      DivideNothing(g, r);
    } else {
      var r' := Absorb(g, r, bits[0]);
      RegisterIsRemainder(g, r', bits[1..]);
      DividendStep(g, r, bits);
      ProductStep(g, r, bits);
      PadZero(|bits|, Update(g, r, bits));
      XorUnder(FirstRow(g, r, bits), Product(Quotient(g, r', bits[1..]), [true] + g),
               Zeros(|bits| - 1) + Update(g, r', bits[1..]));
    }
  }

  lemma DivideNothing(g: Bits, r: Bits)
    requires |g| == |r| > 0
    ensures Dividend(r, []) == Xor(Product(Quotient(g, r, []), [true] + g), Zeros(0) + Update(g, r, []))
  {
  }

  lemma PadZero(n: nat, u: Bits)
    requires n > 0
    ensures Zeros(n) + u == [false] + (Zeros(n - 1) + u)
  {
  }

  lemma ProductStep(g: Bits, r: Bits, bits: Bits)
    requires |g| == |r| > 0 && bits != []
    ensures Product(Quotient(g, r, bits), [true] + g)
            == Xor(FirstRow(g, r, bits),
                   [false] + Product(Quotient(g, Absorb(g, r, bits[0]), bits[1..]), [true] + g))
  {
    assert Quotient(g, r, bits)[1..] == Quotient(g, Absorb(g, r, bits[0]), bits[1..]);
  }

  /** The first line of the long division: the generator or nothing, under the leading terms. */
  function FirstRow(g: Bits, r: Bits, bits: Bits): (f: Bits)
    requires |g| == |r| > 0 && bits != []
    ensures |f| == |r| + |bits|
  {
    (if r[0] != bits[0] then [true] + g else Zeros(|g| + 1)) + Zeros(|bits| - 1)
  }

  lemma DividendStep(g: Bits, r: Bits, bits: Bits)
    requires |g| == |r| > 0 && bits != []
    ensures Dividend(r, bits)
            == Xor(FirstRow(g, r, bits), [false] + Dividend(Absorb(g, r, bits[0]), bits[1..]))
  {
  }

  lemma XorUnder(first: Bits, a: Bits, b: Bits)
    requires |first| == |a| + 1 == |b| + 1
    ensures Xor(first, [false] + Xor(a, b)) == Xor(Xor(first, [false] + a), [false] + b)
  {
  }

  lemma XorTake(a: Bits, b: Bits, k: nat)
    requires |a| == |b| && k <= |a|
    ensures Xor(a, b)[..k] == Xor(a[..k], b[..k])
  {
  }

  lemma XorSwap(a: Bits, b: Bits, c: Bits, d: Bits)
    requires |a| == |b| == |c| == |d| && Xor(a, b) == Xor(c, d)
    ensures Xor(a, c) == Xor(b, d)
  {
  }

  lemma XorZero(a: Bits, b: Bits)
    requires |a| == |b| && Xor(a, b) == Zeros(|a|)
    ensures a == b
  {
  }

  /** A product with a monic generator that has no term of degree W or more is zero. */
  lemma {:induction false} ProductDegree(q: Bits, p: Bits)
    requires |p| > 0 && p[0]
    requires forall i :: 0 <= i < |q| ==> !Product(q, p)[i]
    ensures q == Zeros(|q|)
    decreases |q|
  {
    if q != [] {
      var m, rest := Product(q, p), Product(q[1..], p);
      assert !m[0] && !q[0];
      forall i | 0 <= i < |q| - 1
        ensures !rest[i]
      {
        assert m[i + 1] == ((Zeros(|p|) + Zeros(|q| - 1))[i + 1] != ([false] + rest)[i + 1]);
      }
      ProductDegree(q[1..], p);
    }
  }

  lemma {:induction false} ProductXor(a: Bits, b: Bits, p: Bits)
    requires |a| == |b| && |p| > 0
    ensures Product(Xor(a, b), p) == Xor(Product(a, p), Product(b, p))
    decreases |a|
  {
    if a != [] {
      assert Xor(a, b)[1..] == Xor(a[1..], b[1..]);
      ProductXor(a[1..], b[1..], p);
    }
  }

  /** Only one remainder fits: any other division of the same dividend leaves the same register. */
  lemma RemainderUnique(g: Bits, r: Bits, bits: Bits, q: Bits, rem: Bits)
    requires |g| == |r| == |rem| > 0 && |q| == |bits|
    requires Dividend(r, bits) == Xor(Product(q, [true] + g), Zeros(|bits|) + rem)
    ensures rem == Update(g, r, bits) && q == Quotient(g, r, bits)
  {
    var p, q' := [true] + g, Quotient(g, r, bits);
    var a, b := Zeros(|bits|) + rem, Zeros(|bits|) + Update(g, r, bits);
    RegisterIsRemainder(g, r, bits);
    XorSwap(Product(q, p), a, Product(q', p), b);
    ProductXor(q, q', p);
    ProductDegree(Xor(q, q'), p);
    XorZero(q, q');
    XorCancel(Product(q, p), a, b);
    assert rem == a[|bits|..] && Update(g, r, bits) == b[|bits|..];
  }

  /** The register, and nothing else, is the remainder of the dividend by the generator. */
  ghost predicate IsRemainder(g: Bits, r: Bits, bits: Bits, rem: Bits)
    requires |g| == |r| == |rem|
  {
    exists q: Bits :: |q| == |bits| && Dividend(r, bits) == Xor(Product(q, [true] + g), Zeros(|bits|) + rem)
  }

  lemma RemainderIff(g: Bits, r: Bits, bits: Bits, rem: Bits)
    requires |g| == |r| == |rem| > 0
    ensures IsRemainder(g, r, bits, rem) <==> rem == Update(g, r, bits)
  {
    RegisterIsRemainder(g, r, bits);
    if IsRemainder(g, r, bits, rem) {
      var q: Bits :| |q| == |bits| && Dividend(r, bits) == Xor(Product(q, [true] + g), Zeros(|bits|) + rem);
      RemainderUnique(g, r, bits, q, rem);
    }
  }

  lemma XorCancel(m: Bits, a: Bits, b: Bits)
    requires |m| == |a| == |b| && Xor(m, a) == Xor(m, b)
    ensures a == b
  {
  }

  // ---------------------------------------------------------------------------------------
  // Linearity and injectivity of the register
  // ---------------------------------------------------------------------------------------

  lemma StepLinear(g: Bits, a: Bits, b: Bits)
    requires |g| == |a| == |b| > 0
    ensures Step(g, Xor(a, b)) == Xor(Step(g, a), Step(g, b))
  {
  }

  lemma {:induction false} StepsLinear(g: Bits, n: nat, a: Bits, b: Bits)
    requires |g| == |a| == |b| > 0
    ensures Steps(g, n, Xor(a, b)) == Xor(Steps(g, n, a), Steps(g, n, b))
  {
    if n > 0 {
      StepLinear(g, a, b);
      StepsLinear(g, n - 1, Step(g, a), Step(g, b));
    }
  }

  /** The generator's constant term makes a step reversible. */
  lemma StepInjective(g: Bits, a: Bits, b: Bits)
    requires |g| == |a| == |b| > 0 && g[|g| - 1]
    requires Step(g, a) == Step(g, b)
    ensures a == b
  {
    var w := |g|;
    assert Step(g, a)[w - 1] == a[0] && Step(g, b)[w - 1] == b[0];
    forall i | 0 < i < w
      ensures a[i] == b[i]
    {
      assert Step(g, a)[i - 1] == (a[i] != (a[0] && g[i - 1]));
      assert Step(g, b)[i - 1] == (b[i] != (b[0] && g[i - 1]));
    }
  }

  lemma {:induction false} StepsInjective(g: Bits, n: nat, a: Bits, b: Bits)
    requires |g| == |a| == |b| > 0 && g[|g| - 1]
    requires Steps(g, n, a) == Steps(g, n, b)
    ensures a == b
  {
    if n > 0 {
      StepsInjective(g, n - 1, Step(g, a), Step(g, b));
      StepInjective(g, a, b);
    }
  }

  lemma {:induction false} UpdateInjective(g: Bits, a: Bits, b: Bits, bits: Bits)
    requires |g| == |a| == |b| > 0 && g[|g| - 1]
    requires Update(g, a, bits) == Update(g, b, bits)
    ensures a == b
    decreases |bits|
  {
    if bits != [] {
      UpdateInjective(g, Absorb(g, a, bits[0]), Absorb(g, b, bits[0]), bits[1..]);
      var a', b' := a[0 := a[0] != bits[0]], b[0 := b[0] != bits[0]];
      StepInjective(g, a', b');
      assert a[0] == (a'[0] != bits[0]) && b[0] == (b'[0] != bits[0]);
      assert forall i :: 0 < i < |a| ==> a[i] == a'[i] && b[i] == b'[i];
    }
  }

  /** Up to W message bits can be added to the register at once and shifted through afterwards. */
  lemma {:induction false} UpdateWord(g: Bits, r: Bits, bits: Bits)
    requires |g| == |r| > 0 && |bits| <= |g|
    ensures Update(g, r, bits) == Steps(g, |bits|, Xor(r, bits + Zeros(|g| - |bits|)))
    decreases |bits|
  {
    var w, n := |g|, |bits|;
    var v := bits + Zeros(w - n);
    if n == 0 {
      assert Xor(r, v) == r;
    } else {
      var r' := Absorb(g, r, bits[0]);
      UpdateWord(g, r', bits[1..]);
      var x, y := r[0 := r[0] != bits[0]], Xor(r, v);
      var v' := bits[1..] + Zeros(w - n + 1);
      forall i | 0 <= i < w
        ensures Step(g, y)[i] == (r'[i] != v'[i])
      {
        if i < w - 1 {
          assert Step(g, y)[i] == (y[i + 1] != (y[0] && g[i]));
          assert r'[i] == (r[i + 1] != (x[0] && g[i]));
          assert v[i + 1] == v'[i];
        }
      }
      assert Step(g, y) == Xor(r', v');
    }
  }

  // ---------------------------------------------------------------------------------------
  // The table-driven step
  // ---------------------------------------------------------------------------------------

  /** Bits that start as zeros fall out of the register without feedback. */
  lemma {:induction false} StepsShiftOut(g: Bits, k: nat, high: Bits)
    requires |g| == k + |high| && |g| > 0
    ensures Steps(g, k, Zeros(k) + high) == high + Zeros(k)
    decreases k
  {
    if k == 0 {
      assert Zeros(0) + high == high == high + Zeros(0);
    } else {
      var r := Zeros(k) + high;
      assert Step(g, r) == Zeros(k - 1) + (high + [false]);
      StepsShiftOut(g, k - 1, high + [false]);
      assert (high + [false]) + Zeros(k - 1) == high + Zeros(k);
    }
  }

  /**
   * The table method for k bits at a time: look up k steps of the low part mixed with the
   * message bits, and mix the result with the rest of the register shifted down by k.
   */
  lemma TableStep(g: Bits, r: Bits, o: Bits)
    requires |g| == |r| > 0 && |o| <= |g|
    ensures var k := |o|;
            Update(g, r, o)
            == Xor(Steps(g, k, Xor(r[..k], o) + Zeros(|g| - k)), r[k..] + Zeros(k))
  {
    var k, w := |o|, |g|;
    UpdateWord(g, r, o);
    SplitRegister(r, o, w - k);
    StepsLinear(g, k, Xor(r[..k], o) + Zeros(w - k), Zeros(k) + r[k..]);
    StepsShiftOut(g, k, r[k..]);
  }

  lemma SplitRegister(r: Bits, o: Bits, n: nat)
    requires |r| == |o| + n
    ensures Xor(r, o + Zeros(n)) == Xor(Xor(r[..|o|], o) + Zeros(n), Zeros(|o|) + r[|o|..])
  {
  }

  // ---------------------------------------------------------------------------------------
  // What the code detects
  // ---------------------------------------------------------------------------------------

  /** Every error burst of at most W bits, at any bit offset of any message, changes the register. */
  lemma BurstDetected(g: Bits, r: Bits, before: Bits, a: Bits, b: Bits, after: Bits)
    requires |g| == |r| > 0 && g[|g| - 1]
    requires |a| == |b| <= |g| && a != b
    ensures Update(g, r, before + a + after) != Update(g, r, before + b + after)
  {
    UpdateAround(g, r, before, a, after);
    UpdateAround(g, r, before, b, after);
    BurstStays(g, Update(g, r, before), a, b, after);
  }

  lemma BurstStays(g: Bits, r: Bits, a: Bits, b: Bits, after: Bits)
    requires |g| == |r| > 0 && g[|g| - 1]
    requires |a| == |b| <= |g| && a != b
    ensures Update(g, Update(g, r, a), after) != Update(g, Update(g, r, b), after)
  {
    if Update(g, Update(g, r, a), after) == Update(g, Update(g, r, b), after) {
      UpdateInjective(g, Update(g, r, a), Update(g, r, b), after);
      WordInjective(g, r, a, b);
    }
  }

  lemma UpdateAround(g: Bits, r: Bits, before: Bits, a: Bits, after: Bits)
    requires |g| == |r| > 0
    ensures Update(g, r, before + a + after) == Update(g, Update(g, Update(g, r, before), a), after)
  {
    UpdateConcat(g, r, before + a, after);
    UpdateConcat(g, r, before, a);
  }

  lemma WordInjective(g: Bits, r: Bits, a: Bits, b: Bits)
    requires |g| == |r| > 0 && g[|g| - 1]
    requires |a| == |b| <= |g| && Update(g, r, a) == Update(g, r, b)
    ensures a == b
  {
    UpdateWord(g, r, a);
    UpdateWord(g, r, b);
    var va, vb := a + Zeros(|g| - |a|), b + Zeros(|g| - |a|);
    StepsInjective(g, |a|, Xor(r, va), Xor(r, vb));
    forall i | 0 <= i < |a|
      ensures a[i] == b[i]
    {
      assert Xor(r, va)[i] == (r[i] != va[i]);
      assert Xor(r, vb)[i] == (r[i] != vb[i]);
    }
  }

  /** The value left in the register by a frame that carries its own complemented check bits. */
  function Residue(g: Bits): (s: Bits)
    requires |g| > 0
    ensures |s| == |g|
  {
    Steps(g, |g|, Not(Zeros(|g|)))
  }

  /** W trailing bits leave the residue exactly when they are the complemented register. */
  lemma ResidueIff(g: Bits, r: Bits, check: Bits)
    requires |g| == |r| == |check| > 0 && g[|g| - 1]
    ensures Update(g, r, check) == Residue(g) <==> check == Not(r)
  {
    UpdateWord(g, r, Not(r));
    assert Xor(r, Not(r) + Zeros(0)) == Not(Zeros(|g|));
    assert Update(g, r, Not(r)) == Residue(g);
    if Update(g, r, check) == Residue(g) {
      WordInjective(g, r, check, Not(r));
    }
  }

  /** True when an odd number of bits is set. */
  function Parity(a: Bits): bool {
    if a == [] then false else a[0] != Parity(a[1..])
  }

  lemma {:induction false} ParityXor(a: Bits, b: Bits)
    requires |a| == |b|
    ensures Parity(Xor(a, b)) == (Parity(a) != Parity(b))
  {
    if a != [] {
      assert Xor(a, b)[1..] == Xor(a[1..], b[1..]);
      ParityXor(a[1..], b[1..]);
    }
  }

  lemma {:induction false} ParityConcat(a: Bits, b: Bits)
    ensures Parity(a + b) == (Parity(a) != Parity(b))
  {
    if a == [] {
      assert a + b == b;
    } else {
      assert (a + b)[1..] == a[1..] + b;
      ParityConcat(a[1..], b);
    }
  }

  lemma {:induction false} ParityAfterZeros(n: nat, rest: Bits)
    ensures Parity(Zeros(n) + ([true] + rest)) == !Parity(rest)
  {
    var a := Zeros(n) + ([true] + rest);
    if n == 0 {
      assert a == [true] + rest && a[1..] == rest;
    } else {
      assert a[1..] == Zeros(n - 1) + ([true] + rest);
      ParityAfterZeros(n - 1, rest);
    }
  }

  /** A generator with an even number of terms (odd without the leading one) keeps the parity. */
  lemma {:induction false} UpdateParity(g: Bits, r: Bits, bits: Bits)
    requires |g| == |r| > 0 && Parity(g)
    ensures Parity(Update(g, r, bits)) == (Parity(r) != Parity(bits))
    decreases |bits|
  {
    if bits != [] {
      var x := r[0 := r[0] != bits[0]];
      assert x[1..] == r[1..];
      ParityConcat(x[1..], [false]);
      assert Parity(Shift(x)) == (Parity(x) != x[0]);
      ParityXor(Shift(x), g);
      UpdateParity(g, Absorb(g, r, bits[0]), bits[1..]);
    }
  }

  /** Such a generator sees every error that flips an odd number of bits, however they are spread. */
  lemma OddErrorDetected(g: Bits, r: Bits, a: Bits, b: Bits)
    requires |g| == |r| > 0 && Parity(g)
    requires |a| == |b| && Parity(Xor(a, b))
    ensures Update(g, r, a) != Update(g, r, b)
  {
    UpdateParity(g, r, a);
    UpdateParity(g, r, b);
    ParityXor(a, b);
  }
}
