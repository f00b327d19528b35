/**
 * Which errors a checksum misses, and the order of x modulo its generator, which decides about two wrong bits.
 *
 * Registers are polynomials as in CrcPolynomial: the first bit has the highest degree, a step multiplies by x.
 */
module CrcOrder {
  import opened CrcPolynomial
  import N = FrameSize

  // ---------------------------------------------------------------------------------------
  // Any error
  // ---------------------------------------------------------------------------------------

  lemma {:induction false} UpdateXor(g: Bits, r: Bits, r': Bits, a: Bits, b: Bits)
    requires |g| == |r| == |r'| > 0 && |a| == |b|
    ensures Update(g, Xor(r, r'), Xor(a, b)) == Xor(Update(g, r, a), Update(g, r', b))
    decreases |a|
  {
    if a != [] {
      AbsorbXor(g, r, r', a[0], b[0]);
      UpdateXor(g, Absorb(g, r, a[0]), Absorb(g, r', b[0]), a[1..], b[1..]);
      assert Xor(a, b)[1..] == Xor(a[1..], b[1..]);
    }
  }

  lemma AbsorbXor(g: Bits, r: Bits, r': Bits, x: bool, y: bool)
    requires |g| == |r| == |r'| > 0
    ensures Absorb(g, Xor(r, r'), x != y) == Xor(Absorb(g, r, x), Absorb(g, r', y))
  {
    var s, s', t := r[0 := r[0] != x], r'[0 := r'[0] != y], Xor(r, r');
    assert t[0 := t[0] != (x != y)] == Xor(s, s');
    StepLinear(g, s, s');
  }

  lemma XorIsZero(a: Bits, b: Bits)
    requires |a| == |b|
    ensures Xor(a, b) == Zeros(|a|) <==> a == b
  {
    if Xor(a, b) == Zeros(|a|) {
      forall i | 0 <= i < |a|
        ensures a[i] == b[i]
      {
        assert Xor(a, b)[i] == Zeros(|a|)[i];
      }
    }
  }

  /** Whether an error is missed depends on the wrong bits alone: their register, from zero, must be zero. */
  lemma MissedIff(g: Bits, r: Bits, a: Bits, b: Bits)
    requires |g| == |r| > 0 && |a| == |b|
    ensures Update(g, r, a) == Update(g, r, b) <==> Update(g, Zeros(|g|), Xor(a, b)) == Zeros(|g|)
  {
    XorIsZero(r, r);
    UpdateXor(g, r, r, a, b);
    XorIsZero(Update(g, r, a), Update(g, r, b));
  }

  /** An error is missed exactly when the generator divides it. */
  lemma MissedIffMultiple(g: Bits, r: Bits, a: Bits, b: Bits)
    requires |g| == |r| > 0 && |a| == |b|
    ensures Update(g, r, a) == Update(g, r, b) <==> IsRemainder(g, Zeros(|g|), Xor(a, b), Zeros(|g|))
  {
    MissedIff(g, r, a, b);
    RemainderIff(g, Zeros(|g|), Xor(a, b), Zeros(|g|));
  }

  // ---------------------------------------------------------------------------------------
  // Two wrong bits
  // ---------------------------------------------------------------------------------------

  /** Two bits set at a distance of d, behind p and before q others. */
  function TwoBits(p: nat, d: nat, q: nat): Bits
    requires d > 0
  {
    Zeros(p) + ([true] + (Zeros(d - 1) + ([true] + Zeros(q))))
  }

  /** The register that holds the highest power. */
  function Top(w: nat): (r: Bits)
    requires w > 0
    ensures |r| == w
  {
    [true] + Zeros(w - 1)
  }

  /** n steps take the highest power back to itself, as n is a period of the powers of x. */
  predicate Period(g: Bits, n: nat)
    requires |g| > 0
  {
    Steps(g, n, Top(|g|)) == Top(|g|)
  }

  lemma {:induction false} StepsOfZero(g: Bits, n: nat)
    requires |g| > 0
    ensures Steps(g, n, Zeros(|g|)) == Zeros(|g|)
  {
    if n > 0 {
      assert Shift(Zeros(|g|)) == Zeros(|g|);
      StepsOfZero(g, n - 1);
    }
  }

  lemma {:induction false} UpdateZeros(g: Bits, r: Bits, n: nat)
    requires |g| == |r| > 0
    ensures Update(g, r, Zeros(n)) == Steps(g, n, r)
    decreases n
  {
    if n > 0 {
      assert Zeros(n)[1..] == Zeros(n - 1) && r[0 := r[0] != false] == r;
      UpdateZeros(g, Step(g, r), n - 1);
    }
  }

  lemma UpdateOne(g: Bits, r: Bits, rest: Bits)
    requires |g| == |r| > 0
    ensures Update(g, r, [true] + rest) == Update(g, Step(g, Xor(r, Top(|g|))), rest)
  {
    FlipFirst(r);
    assert ([true] + rest)[1..] == rest;
  }

  lemma FlipFirst(r: Bits)
    requires |r| > 0
    ensures r[0 := r[0] != true] == Xor(r, Top(|r|))
  {
    assert forall i :: 0 < i < |r| ==> !Top(|r|)[i];
  }

  /** Two wrong bits are missed exactly when their distance is a period. */
  lemma TwoBitsIff(g: Bits, p: nat, d: nat, q: nat)
    requires |g| > 0 && g[|g| - 1] && d > 0
    ensures Update(g, Zeros(|g|), TwoBits(p, d, q)) == Zeros(|g|) <==> Period(g, d)
  {
    var z, t, second := Zeros(|g|), Top(|g|), [true] + Zeros(q);
    AfterZeros(g, z, p, [true] + (Zeros(d - 1) + second));
    StepsOfZero(g, p);
    UpdateOne(g, z, Zeros(d - 1) + second);
    XorWithZero(t);
    AfterZeros(g, Step(g, t), d - 1, second);
    SecondBit(g, Steps(g, d, t), q);
  }

  lemma AfterZeros(g: Bits, r: Bits, n: nat, rest: Bits)
    requires |g| == |r| > 0
    ensures Update(g, r, Zeros(n) + rest) == Update(g, Steps(g, n, r), rest)
  {
    UpdateConcat(g, r, Zeros(n), rest);
    UpdateZeros(g, r, n);
  }

  lemma XorWithZero(t: Bits)
    ensures Xor(Zeros(|t|), t) == t
  {
  }

  lemma SecondBit(g: Bits, r: Bits, q: nat)
    requires |g| == |r| > 0 && g[|g| - 1]
    ensures Update(g, r, [true] + Zeros(q)) == Zeros(|g|) <==> r == Top(|g|)
  {
    var x := Xor(r, Top(|g|));
    UpdateOne(g, r, Zeros(q));
    UpdateZeros(g, Step(g, x), q);
    StepsOfZero(g, q + 1);
    if Steps(g, q + 1, x) == Zeros(|g|) { StepsInjective(g, q + 1, x, Zeros(|g|)); }
    XorIsZero(r, Top(|g|));
  }

  // ---------------------------------------------------------------------------------------
  // Periods
  // ---------------------------------------------------------------------------------------

  lemma PeriodSum(g: Bits, a: nat, b: nat)
    requires |g| > 0 && g[|g| - 1] && Period(g, b)
    ensures Period(g, a + b) <==> Period(g, a)
  {
    StepsConcat(g, b, a, Top(|g|));
  }

  lemma {:induction false} PeriodMultiple(g: Bits, n: nat, k: nat)
    requires |g| > 0 && g[|g| - 1] && Period(g, n)
    ensures Period(g, n * k)
    decreases k
  {
    if k > 0 {
      PeriodMultiple(g, n, k - 1);
      PeriodSum(g, n * (k - 1), n);
      assert n * (k - 1) + n == n * k;
    }
  }

  lemma {:induction false} PeriodGcd(g: Bits, a: nat, b: nat)
    requires |g| > 0 && g[|g| - 1] && Period(g, a) && Period(g, b)
    ensures Period(g, N.Gcd(a, b))
    decreases b
  {
    if b > 0 {
      N.Remainder(a, b);
      assert a / b >= 0;
      PeriodMultiple(g, b, a / b);
      PeriodSum(g, a % b, b * (a / b));
      PeriodGcd(g, b, a % b);
    }
  }

  // ---------------------------------------------------------------------------------------
  // The order, from the prime factors of a period
  // ---------------------------------------------------------------------------------------

  predicate Prime(p: nat) {
    p > 1 && forall d :: 1 < d < p ==> p % d != 0
  }

  function ProductOf(factors: seq<nat>): nat {
    if factors == [] then 1 else factors[0] * ProductOf(factors[1..])
  }

  /** A divisor of p * x that p does not divide is a divisor of x. */
  lemma Coprime(p: nat, f: nat, x: nat)
    requires Prime(p) && N.Divides(f, p * x) && !N.Divides(p, f)
    ensures N.Divides(f, x)
  {
    N.GcdDivides(p, f);
    var d := N.Gcd(p, f);
    N.DivisorBound(d, p);
    var i, j := N.Bezout(p, f);
    N.DividesCombination(f, p * x, f, i, x * j) by { N.DividesProduct(f, 1); }
    assert (p * x) * i + f * (x * j) == x * (p * i + f * j) by { Distribute(p, f, x, i, j); }
  }

  lemma Distribute(p: int, f: int, x: int, i: int, j: int)
    ensures (p * x) * i + f * (x * j) == x * (p * i + f * j)
  {
    assert (p * x) * i == x * (p * i) && f * (x * j) == x * (f * j);
  }

  lemma {:induction false} PrimeFactor(primes: seq<nat>, f: nat) returns (i: nat)
    requires (forall k :: 0 <= k < |primes| ==> Prime(primes[k])) && f > 1 && N.Divides(f, ProductOf(primes))
    ensures i < |primes| && N.Divides(primes[i], f)
  {
    if primes == [] {
      N.DivisorBound(f, 1);
      assert false;
    } else if N.Divides(primes[0], f) {
      i := 0;
    } else {
      Coprime(primes[0], f, ProductOf(primes[1..]));
      var k := PrimeFactor(primes[1..], f);
      i := k + 1;
    }
  }

  /**
   * If the product of some primes is a period, and none of its quotients by one of them is, the periods are exactly
   * its multiples.
   */
  lemma OrderIff(g: Bits, primes: seq<nat>, n: nat, k: nat)
    requires |g| > 0 && g[|g| - 1] && n == ProductOf(primes) > 0 && Period(g, n)
    requires forall i :: 0 <= i < |primes| ==> Prime(primes[i]) && !Period(g, n / primes[i])
    ensures Period(g, k) <==> N.Divides(n, k)
  {
    if Period(g, k) {
      var d := N.Gcd(k, n);
      PeriodGcd(g, k, n);
      N.GcdDivides(k, n);
      var f := n / d;
      N.Quotient(d, n);
      assert n == f * d == d * f;
      N.DividesProduct(f, d);
      NotProper(g, primes, n, d, f);
      assert f == 1;
    } else if N.Divides(n, k) {
      N.Quotient(n, k);
      PeriodMultiple(g, n, k / n);
    }
  }

  /** A divisor of n that is a period is n itself. */
  lemma NotProper(g: Bits, primes: seq<nat>, n: nat, d: nat, f: nat)
    requires |g| > 0 && g[|g| - 1] && n == d * f == ProductOf(primes) > 0 && N.Divides(f, n) && Period(g, d)
    requires forall i :: 0 <= i < |primes| ==> Prime(primes[i]) && !Period(g, n / primes[i])
    ensures f <= 1
  {
    if f > 1 {
      var i := PrimeFactor(primes, f);
      SmallerPeriod(g, n, d, f, primes[i]);
      assert false;
    }
  }

  lemma SmallerPeriod(g: Bits, n: nat, d: nat, f: nat, p: nat)
    requires |g| > 0 && g[|g| - 1] && n == d * f && p > 1 && N.Divides(p, f) && Period(g, d)
    ensures Period(g, n / p)
  {
    Cofactor(n, d, f, p);
    PeriodMultiple(g, d, f / p);
  }

  lemma Cofactor(n: nat, d: nat, f: nat, p: nat)
    requires n == d * f && p > 1 && N.Divides(p, f)
    ensures n / p == d * (f / p)
  {
    N.Quotient(p, f);
    var e := f / p;
    assert n == p * (d * e) by { assert d * (p * e) == p * (d * e); }
    N.MultipleModulo(p, d * e);
  }

  /** Trial division by everything from low to high. */
  predicate NoFactor(n: nat, low: nat, high: nat)
    requires low > 0
    decreases high
  {
    high < low || (n % high != 0 && NoFactor(n, low, high - 1))
  }

  predicate NoFactorUpTo(n: nat, high: nat) {
    forall d :: 1 < d <= high ==> n % d != 0
  }

  lemma {:induction false} MoreTrials(n: nat, tried: nat, low: nat, high: nat)
    requires low == tried + 1 && low > 1 && NoFactorUpTo(n, tried) && NoFactor(n, low, high)
    ensures NoFactorUpTo(n, high)
    decreases high
  {
    if high > tried { MoreTrials(n, tried, low, high - 1); }
  }

  lemma PrimeByTrial(n: nat, root: nat)
    requires n > 1 && NoFactorUpTo(n, root) && (root + 1) * (root + 1) > n
    ensures Prime(n)
  {
    forall d | 1 < d < n
      ensures n % d != 0
    {
      if n % d == 0 {
        N.Quotient(d, n);
        SmallFactor(n, d, n / d, root);
      }
    }
  }

  lemma SmallFactor(n: nat, d: nat, e: nat, root: nat)
    requires n == d * e && 1 < d < n && NoFactorUpTo(n, root) && (root + 1) * (root + 1) > n
    ensures n % d != 0
  {
    OneIsSmall(d, e, root);
    if d > root { N.MultipleModulo(e, d); }
  }

  lemma OneIsSmall(d: nat, e: nat, root: nat)
    requires 1 < d < d * e && d * e < (root + 1) * (root + 1)
    ensures e > 1 && (d <= root || e <= root)
  {
    if d > root && e > root { Larger(d, e, root + 1); }
  }

  lemma Larger(d: nat, e: nat, m: nat)
    requires d >= m && e >= m
    ensures d * e >= m * m
  {
    assert d * e >= m * e && m * e >= m * m;
  }

  // ---------------------------------------------------------------------------------------
  // Powers by multiplication
  // ---------------------------------------------------------------------------------------

  function One(w: nat): (r: Bits)
    requires w > 0
    ensures |r| == w
  {
    Zeros(w - 1) + [true]
  }

  /** The register of x^n. */
  function Power(g: Bits, n: nat): (r: Bits)
    requires |g| > 0
    ensures |r| == |g|
  {
    Steps(g, n, One(|g|))
  }

  /** Adds a times the polynomial r to acc, moved up by the length of r. */
  function MulFrom(g: Bits, acc: Bits, a: Bits, r: Bits): (m: Bits)
    requires |g| == |acc| == |a| > 0
    ensures |m| == |g|
    decreases |r|
  {
    if r == [] then acc else MulFrom(g, AddIf(Step(g, acc), r[0], a), a, r[1..])
  }

  function AddIf(acc: Bits, bit: bool, a: Bits): (m: Bits)
    requires |acc| == |a|
    ensures |m| == |a|
  {
    if bit then Xor(acc, a) else acc
  }

  lemma {:induction false} MulConcat(g: Bits, acc: Bits, a: Bits, r: Bits, s: Bits)
    requires |g| == |acc| == |a| > 0
    ensures MulFrom(g, acc, a, r + s) == MulFrom(g, MulFrom(g, acc, a, r), a, s)
    decreases |r|
  {
    if r == [] {
      assert r + s == s;
    } else {
      assert (r + s)[1..] == r[1..] + s;
      MulConcat(g, AddIf(Step(g, acc), r[0], a), a, r[1..], s);
    }
  }

  lemma MulOne(g: Bits, acc: Bits, a: Bits, bit: bool)
    requires |g| == |acc| == |a| > 0
    ensures MulFrom(g, acc, a, [bit]) == AddIf(Step(g, acc), bit, a)
  {
    assert [bit][1..] == [];
  }

  lemma MulFour(g: Bits, m0: Bits, m1: Bits, m2: Bits, m3: Bits, m4: Bits, a: Bits,
                b0: bool, b1: bool, b2: bool, b3: bool)
    requires |g| == |m0| == |m1| == |m2| == |m3| == |m4| == |a| > 0
    requires MulFrom(g, m0, a, [b0]) == m1 && MulFrom(g, m1, a, [b1]) == m2
    requires MulFrom(g, m2, a, [b2]) == m3 && MulFrom(g, m3, a, [b3]) == m4
    ensures MulFrom(g, m0, a, [b0] + [b1] + [b2] + [b3]) == m4
  {
    MulConcat(g, m0, a, [b0], [b1]);
    MulConcat(g, m0, a, [b0] + [b1], [b2]);
    MulConcat(g, m0, a, [b0] + [b1] + [b2], [b3]);
  }

  lemma EightOfFours(b0: bool, b1: bool, b2: bool, b3: bool, b4: bool, b5: bool, b6: bool, b7: bool)
    ensures [b0, b1, b2, b3, b4, b5, b6, b7] == ([b0] + [b1] + [b2] + [b3]) + ([b4] + [b5] + [b6] + [b7])
  {
  }

  /** One turn of a multiplication on words: acc moved up, and a added if the bit is set. */
  function Turn<T>(step: T -> T, mix: (T, T) -> T, acc: T, a: T, bit: bool): T {
    if bit then mix(step(acc), a) else step(acc)
  }

  function FourTurns<T>(step: T -> T, mix: (T, T) -> T, acc: T, a: T, b0: bool, b1: bool, b2: bool, b3: bool): T {
    Turn(step, mix, Turn(step, mix, Turn(step, mix, Turn(step, mix, acc, a, b0), a, b1), a, b2), a, b3)
  }

  function EightTurns<T>(step: T -> T, mix: (T, T) -> T, acc: T, a: T, b0: bool, b1: bool, b2: bool, b3: bool,
                         b4: bool, b5: bool, b6: bool, b7: bool): T {
    FourTurns(step, mix, FourTurns(step, mix, acc, a, b0, b1, b2, b3), a, b4, b5, b6, b7)
  }

  /** The word type's step and sum are those of registers. */
  ghost predicate WordOps<T(!new)>(g: Bits, bits: T -> Bits, step: T -> T, mix: (T, T) -> T)
    requires |g| > 0
  {
    && (forall x :: |bits(x)| == |g|)
    && (forall x :: bits(step(x)) == Step(g, bits(x)))
    && (forall x, y :: bits(mix(x, y)) == Xor(bits(x), bits(y)))
  }

  lemma TurnBits<T(!new)>(g: Bits, bits: T -> Bits, step: T -> T, mix: (T, T) -> T, acc: T, a: T, bit: bool)
    requires |g| > 0 && WordOps(g, bits, step, mix)
    ensures bits(Turn(step, mix, acc, a, bit)) == MulFrom(g, bits(acc), bits(a), [bit])
  {
    MulOne(g, bits(acc), bits(a), bit);
  }

  lemma FourTurnsBits<T(!new)>(g: Bits, bits: T -> Bits, step: T -> T, mix: (T, T) -> T, acc: T, a: T,
                               b0: bool, b1: bool, b2: bool, b3: bool)
    requires |g| > 0 && WordOps(g, bits, step, mix)
    ensures bits(FourTurns(step, mix, acc, a, b0, b1, b2, b3))
            == MulFrom(g, bits(acc), bits(a), [b0] + [b1] + [b2] + [b3])
  {
    var x1 := Turn(step, mix, acc, a, b0);
    var x2 := Turn(step, mix, x1, a, b1);
    var x3 := Turn(step, mix, x2, a, b2);
    var x4 := Turn(step, mix, x3, a, b3);
    TurnBits(g, bits, step, mix, acc, a, b0);
    TurnBits(g, bits, step, mix, x1, a, b1);
    TurnBits(g, bits, step, mix, x2, a, b2);
    TurnBits(g, bits, step, mix, x3, a, b3);
    MulFour(g, bits(acc), bits(x1), bits(x2), bits(x3), bits(x4), bits(a), b0, b1, b2, b3);
  }

  lemma EightTurnsBits<T(!new)>(g: Bits, bits: T -> Bits, step: T -> T, mix: (T, T) -> T, acc: T, a: T,
                                b0: bool, b1: bool, b2: bool, b3: bool, b4: bool, b5: bool, b6: bool, b7: bool)
    requires |g| > 0 && WordOps(g, bits, step, mix)
    ensures bits(EightTurns(step, mix, acc, a, b0, b1, b2, b3, b4, b5, b6, b7))
            == MulFrom(g, bits(acc), bits(a), [b0, b1, b2, b3, b4, b5, b6, b7])
  {
    var low, high := [b0] + [b1] + [b2] + [b3], [b4] + [b5] + [b6] + [b7];
    FourTurnsBits(g, bits, step, mix, acc, a, b0, b1, b2, b3);
    FourTurnsBits(g, bits, step, mix, FourTurns(step, mix, acc, a, b0, b1, b2, b3), a, b4, b5, b6, b7);
    EightOfFours(b0, b1, b2, b3, b4, b5, b6, b7);
    MulConcat(g, bits(acc), bits(a), low, high);
  }

  lemma OneStepMore(g: Bits, n: nat, r: Bits)
    requires |g| == |r| > 0
    ensures Step(g, Steps(g, n, r)) == Steps(g, n, Step(g, r))
  {
    StepsConcat(g, n, 1, r);
    StepsConcat(g, 1, n, r);
    assert Steps(g, 1, r) == Step(g, r) && Steps(g, 1, Steps(g, n, r)) == Step(g, Steps(g, n, r));
  }

  /** Multiplying by x^n is n steps. */
  lemma {:induction false} MulPower(g: Bits, n: nat, r: Bits, s: Bits)
    requires |g| == |r| > 0 && |s| <= |g| && r[..|s|] == Zeros(|s|)
    ensures MulFrom(g, Steps(g, n, r), Power(g, n), s) == Steps(g, n, r[|s|..] + s)
    decreases |s|
  {
    if s == [] {
      assert r[0..] + [] == r;
    } else {
      var next := r[1..] + [s[0]];
      FirstIsZero(r, s, next);
      PushStep(g, n, r, s[0], next);
      MulPower(g, n, next, s[1..]);
    }
  }

  lemma FirstIsZero(r: Bits, s: Bits, next: Bits)
    requires 0 < |s| <= |r| && r[..|s|] == Zeros(|s|) && next == r[1..] + [s[0]]
    ensures !r[0] && next[..|s| - 1] == Zeros(|s| - 1) && next[|s| - 1..] + s[1..] == r[|s|..] + s
  {
    assert r[..|s|][0] == r[0] && next[..|s| - 1] == r[..|s|][1..];
  }

  lemma PushStep(g: Bits, n: nat, r: Bits, bit: bool, next: Bits)
    requires |g| == |r| > 0 && !r[0] && next == r[1..] + [bit]
    ensures AddIf(Step(g, Steps(g, n, r)), bit, Power(g, n)) == Steps(g, n, next)
  {
    OneStepMore(g, n, r);
    PushBit(r, bit, next);
    if bit { StepsLinear(g, n, Shift(r), One(|g|)); }
  }

  lemma PushBit(r: Bits, bit: bool, next: Bits)
    requires |r| > 0 && next == r[1..] + [bit]
    ensures next == AddIf(Shift(r), bit, One(|r|))
  {
  }

  lemma PowerSum(g: Bits, m: nat, n: nat)
    requires |g| > 0
    ensures MulFrom(g, Zeros(|g|), Power(g, n), Power(g, m)) == Power(g, m + n)
  {
    StepsOfZero(g, n);
    MulWhole(g, n, Zeros(|g|), Power(g, m));
    StepsConcat(g, m, n, One(|g|));
  }

  lemma MulWhole(g: Bits, n: nat, z: Bits, s: Bits)
    requires |g| == |s| > 0 && z == Zeros(|g|)
    ensures MulFrom(g, Steps(g, n, z), Power(g, n), s) == Steps(g, n, s)
  {
    assert z[..|s|] == z && z[|s|..] + s == s;
    MulPower(g, n, z, s);
  }

  lemma StepsCommute(g: Bits, m: nat, n: nat, r: Bits)
    requires |g| == |r| > 0
    ensures Steps(g, n, Steps(g, m, r)) == Steps(g, m, Steps(g, n, r))
  {
    StepsConcat(g, m, n, r);
    StepsConcat(g, n, m, r);
  }

  lemma TopIsPower(g: Bits, k: nat)
    requires |g| == k + 1
    ensures Power(g, k) == Top(|g|)
  {
    ShiftedUp(g, k);
    assert Zeros(0) + ([true] + Zeros(k)) == Top(|g|);
  }

  /** A period is an exponent whose power is 1. */
  lemma PeriodIff(g: Bits, n: nat)
    requires |g| > 0 && g[|g| - 1]
    ensures Period(g, n) <==> Power(g, n) == One(|g|)
  {
    var k: nat := |g| - 1;
    TopIsPower(g, k);
    StepsCommute(g, k, n, One(|g|));
    if Period(g, n) { StepsInjective(g, k, Power(g, n), One(|g|)); }
  }

  /** Two exponents have the same power exactly when they differ by a period. */
  lemma SamePowerIff(g: Bits, n: nat, m: nat, period: nat)
    requires |g| > 0 && g[|g| - 1] && m == n + period
    ensures Power(g, n) == Power(g, m) <==> Period(g, period)
  {
    PeriodIff(g, period);
    StepsConcat(g, period, n, One(|g|));
    if Power(g, n) == Power(g, m) { StepsInjective(g, n, Power(g, period), One(|g|)); }
  }

  lemma {:induction false} ShiftedUp(g: Bits, k: nat)
    requires k < |g|
    ensures Power(g, k) == Zeros(|g| - 1 - k) + ([true] + Zeros(k))
  {
    if k > 0 {
      ShiftedUp(g, k - 1);
      OneStepMore(g, k - 1, One(|g|));
      var r := Zeros(|g| - k) + ([true] + Zeros(k - 1));
      assert Power(g, k) == Step(g, r);
      ShiftedOnce(|g| - k, k - 1, r);
    }
  }

  lemma ShiftedOnce(a: nat, b: nat, r: Bits)
    requires a > 0 && r == Zeros(a) + ([true] + Zeros(b))
    ensures !r[0] && Shift(r) == Zeros(a - 1) + ([true] + Zeros(b + 1))
  {
    var s := Zeros(a - 1) + ([true] + Zeros(b + 1));
    forall i | 0 <= i < |s|
      ensures Shift(r)[i] == s[i]
    {
    }
  }
}
