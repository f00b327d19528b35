/**
 * The greatest common divisor and the enclosing frame of two periods, in unsigned longs.
 */
module FrameSize {

  predicate Divides(d: nat, n: int) {
    d > 0 && n % d == 0
  }

  /** The number of values of an unsigned long is a parameter: arithmetic is modulo it. */
  function Wrap(n: nat, modulus: nat): nat
    requires modulus > 0
  {
    n % modulus
  }

  // ---------------------------------------------------------------------------------------
  // Division
  // ---------------------------------------------------------------------------------------

  lemma AtLeastOnce(d: int, e: int)
    requires d > 0 && e >= 1
    ensures d * e >= d
  {
  }

  lemma Small(d: int, e: int)
    requires d > 0 && -d < d * e < d
    ensures e == 0
  {
  }

  lemma Remainder(n: int, d: nat)
    requires d > 0
    ensures n == d * (n / d) + n % d && 0 <= n % d < d
  {
  }

  lemma QuotientUnique(n: int, d: nat, q: int, r: nat)
    requires 0 <= r < d && n == d * q + r
    ensures n / d == q && n % d == r
  {
    Remainder(n, d);
    assert d * (q - n / d) == d * q - d * (n / d);
    Small(d, q - n / d);
  }

  lemma MultipleModulo(d: nat, k: int)
    requires d > 0
    ensures (d * k) % d == 0 && (d * k) / d == k
  {
    QuotientUnique(d * k, d, k, 0);
  }

  lemma Quotient(d: nat, n: int)
    requires Divides(d, n)
    ensures n == d * (n / d)
  {
    Remainder(n, d);
  }

  lemma DividesProduct(d: nat, k: int)
    requires d > 0
    ensures Divides(d, d * k)
  {
    MultipleModulo(d, k);
  }

  /** A divisor of two numbers divides what is left of one after any multiples of the other. */
  lemma DividesCombination(d: nat, a: int, b: int, j: int, k: int)
    requires Divides(d, a) && Divides(d, b)
    ensures Divides(d, a * j + b * k)
  {
    Quotient(d, a);
    Quotient(d, b);
    var q := (a / d) * j + (b / d) * k;
    assert a * j + b * k == d * q by {
      assert a * j == d * ((a / d) * j);
      assert b * k == d * ((b / d) * k);
    }
    DividesProduct(d, q);
  }

  // ---------------------------------------------------------------------------------------
  // Greatest common divisor
  // ---------------------------------------------------------------------------------------

  function Gcd(x: nat, y: nat): nat
    decreases y
  {
    if y == 0 then x else Gcd(y, x % y)
  }

  /** Euclid's algorithm. */
  method ComputeGcd(a: nat, b: nat) returns (x: nat)
    ensures x == Gcd(a, b)
  {
    x := a;
    var y: nat := b;
    while y != 0
      invariant Gcd(x, y) == Gcd(a, b)
      decreases y
    {
      var r := x % y;
      x := y;
      y := r;
    }
  }

  lemma {:induction false} GcdDivides(x: nat, y: nat)
    requires x > 0 || y > 0
    ensures Divides(Gcd(x, y), x) && Divides(Gcd(x, y), y)
    decreases y
  {
    if y != 0 {
      GcdDivides(y, x % y);
      Remainder(x, y);
      DividesCombination(Gcd(x, y), y, x % y, x / y, 1);
    }
  }

  lemma {:induction false} Bezout(x: nat, y: nat) returns (i: int, j: int)
    ensures x * i + y * j == Gcd(x, y)
    decreases y
  {
    if y == 0 {
      i, j := 1, 0;
    } else {
      var i', j' := Bezout(y, x % y);
      i, j := j', i' - (x / y) * j';
      Remainder(x, y);
      BezoutStep(x, y, x / y, x % y, i', j');
    }
  }

  lemma BezoutStep(x: int, y: int, q: int, r: int, i: int, j: int)
    requires x == y * q + r
    ensures x * j + y * (i - q * j) == y * i + r * j
  {
    assert x * j == y * q * j + r * j;
    assert y * (i - q * j) == y * i - y * q * j;
  }

  /** Exactly the divisors of the greatest common divisor divide both numbers, so it is the greatest. */
  lemma GcdGreatest(x: nat, y: nat, d: nat)
    requires x > 0 || y > 0
    ensures Divides(d, x) && Divides(d, y) <==> Divides(d, Gcd(x, y))
    ensures Divides(d, x) && Divides(d, y) ==> d <= Gcd(x, y)
  {
    var g := Gcd(x, y);
    GcdDivides(x, y);
    if Divides(d, x) && Divides(d, y) {
      var i, j := Bezout(x, y);
      DividesCombination(d, x, y, i, j);
      DivisorBound(d, g);
    } else if Divides(d, g) {
      DividesTransitive(d, g, x);
      DividesTransitive(d, g, y);
    }
  }

  lemma DivisorBound(d: nat, n: nat)
    requires Divides(d, n) && n > 0
    ensures d <= n
  {
    Quotient(d, n);
    if n / d >= 1 { AtLeastOnce(d, n / d); }
  }

  lemma DividesTransitive(d: nat, g: nat, n: int)
    requires Divides(d, g) && Divides(g, n)
    ensures Divides(d, n)
  {
    Quotient(g, n);
    DividesCombination(d, g, 0, n / g, 0) by { MultipleModulo(d, 0); }
  }

  // ---------------------------------------------------------------------------------------
  // Least common multiple
  // ---------------------------------------------------------------------------------------

  predicate CommonMultiple(m: nat, a: nat, b: nat) {
    m > 0 && Divides(a, m) && Divides(b, m)
  }

  /** The smallest positive number both divide. */
  predicate IsLcm(l: nat, a: nat, b: nat) {
    CommonMultiple(l, a, b) && forall m: nat :: CommonMultiple(m, a, b) ==> l <= m
  }

  lemma LcmUnique(l: nat, m: nat, a: nat, b: nat)
    requires IsLcm(l, a, b) && IsLcm(m, a, b)
    ensures l == m
  {
  }

  lemma GcdPositive(x: nat, y: nat)
    requires x > 0 || y > 0
    ensures Gcd(x, y) > 0
  {
    GcdDivides(x, y);
  }

  /** The product over the greatest common divisor. */
  function Lcm(a: nat, b: nat): (l: nat)
    requires a > 0 && b > 0
  {
    GcdPositive(a, b);
    a * b / Gcd(a, b)
  }

  lemma LcmFactors(a: nat, b: nat)
    requires a > 0 && b > 0
    ensures var g := Gcd(a, b);
            && g > 0 && Divides(g, a) && Divides(g, b)
            && Lcm(a, b) == a * (b / g) == b * (a / g) && a * b == g * Lcm(a, b)
  {
    var g := Gcd(a, b);
    GcdDivides(a, b);
    Quotient(g, a);
    Quotient(g, b);
    Factors(a, b, g, a / g, b / g);
    MultipleModulo(g, a * (b / g));
  }

  lemma Factors(a: int, b: int, g: int, p: int, q: int)
    requires a == g * p && b == g * q
    ensures a * q == b * p && a * b == g * (a * q)
  {
    assert a * q == (g * p) * q && b * p == (g * q) * p;
    assert a * b == a * (g * q);
  }

  lemma LcmIsLcm(a: nat, b: nat)
    requires a > 0 && b > 0
    ensures IsLcm(Lcm(a, b), a, b)
  {
    var g, l := Gcd(a, b), Lcm(a, b);
    LcmFactors(a, b);
    DividesProduct(a, b / g);
    DividesProduct(b, a / g);
    PositiveFactor(g, l, a * b) by { AtLeastOnce(a, b); }
    forall m: nat | CommonMultiple(m, a, b)
      ensures l <= m
    {
      MultipleOfLcm(a, b, g, l, m);
    }
  }

  lemma PositiveFactor(g: int, l: int, p: int)
    requires g > 0 && p > 0 && p == g * l
    ensures l > 0
  {
    if l <= -1 { AtLeastOnce(g, -l); }
    assert g * (-l) == -(g * l);
  }

  /** Every common multiple is a multiple of it. */
  lemma MultipleOfLcm(a: nat, b: nat, g: nat, l: nat, m: nat)
    requires a > 0 && b > 0 && g == Gcd(a, b) > 0 && a * b == g * l && l > 0 && CommonMultiple(m, a, b)
    ensures Divides(l, m) && l <= m
  {
    var i, j := Bezout(a, b);
    Quotient(a, m);
    Quotient(b, m);
    var c := i * (m / b) + j * (m / a);
    Combine(m, a, b, g, i, j, m / a, m / b);
    Regroup(a * b, g, l, c);
    CancelFactor(g, m, l * c);
    DividesProduct(l, c);
    DivisorBound(l, m);
  }

  lemma Combine(m: int, a: int, b: int, g: int, i: int, j: int, s: int, t: int)
    requires a * i + b * j == g && m == a * s && m == b * t
    ensures m * g == (a * b) * (i * t + j * s)
  {
  }

  lemma Regroup(p: int, g: int, l: int, c: int)
    requires p == g * l
    ensures p * c == g * (l * c)
  {
  }

  lemma CancelFactor(g: nat, m: int, n: int)
    requires g > 0 && g * m == g * n
    ensures m == n
  {
    MultipleModulo(g, m);
    MultipleModulo(g, n);
  }

  // ---------------------------------------------------------------------------------------
  // The enclosing frame
  // ---------------------------------------------------------------------------------------

  function Frame(period1: nat, period2: nat, modulus: nat): nat
    requires period1 < modulus && period2 < modulus
  {
    var g := Gcd(period1, period2);
    if period1 == 0 then period2
    else if period2 == 0 then period1
    else if g == 1 then Wrap(period1 * period2, modulus)
    else if g == period1 then period2
    else if g == period2 then period1
    else
      GcdPositive(period1, period2);
      Wrap(period1 * period2, modulus) / g
  }

  method MinimumFrameSize(period1: nat, period2: nat, modulus: nat) returns (frame: nat)
    requires period1 < modulus && period2 < modulus
    ensures frame == Frame(period1, period2, modulus) && frame < modulus
  {
    if period1 == 0 {
      return period2;
    }
    if period2 == 0 {
      return period1;
    }
    var g := ComputeGcd(period1, period2);
    GcdPositive(period1, period2);
    if g == 1 {
      return Wrap(period1 * period2, modulus);
    } else if g == period1 {
      return period2;
    } else if g == period2 {
      return period1;
    } else {
      DivisionShrinks(Wrap(period1 * period2, modulus), g);
      return Wrap(period1 * period2, modulus) / g;
    }
  }

  lemma DivisionShrinks(n: nat, g: nat)
    requires g > 0
    ensures n / g <= n
  {
    Remainder(n, g);
    if n / g >= 1 { AtLeastOnce(n / g, g); }
  }

  /** With one period unset the frame is the other one. */
  lemma UnsetPeriod(p: nat, modulus: nat)
    requires p < modulus
    ensures Frame(0, p, modulus) == p == Frame(p, 0, modulus)
  {
  }

  /**
   * The frame of two periods is their least common multiple exactly when one divides the other or their product
   * is representable.
   */
  lemma FrameIsLcmIff(period1: nat, period2: nat, modulus: nat)
    requires 0 < period1 < modulus && 0 < period2 < modulus
    ensures IsLcm(Frame(period1, period2, modulus), period1, period2)
            <==> Divides(period1, period2) || Divides(period2, period1) || period1 * period2 < modulus
  {
    var a, b, l := period1, period2, Lcm(period1, period2);
    LcmIsLcm(a, b);
    if IsLcm(Frame(a, b, modulus), a, b) { LcmUnique(Frame(a, b, modulus), l, a, b); }
    LcmFactors(a, b);
    DividesIffGcd(a, b);
    if Gcd(a, b) == 1 {
      CoprimeProduct(a, b, modulus);
    } else if Gcd(a, b) == a {
      CancelFactor(a, l, b);
    } else if Gcd(a, b) == b {
      CancelFactor(b, l, a);
    } else {
      WrappedQuotient(a * b, modulus, Gcd(a, b), l);
    }
  }

  lemma CoprimeProduct(a: nat, b: nat, modulus: nat)
    requires 0 < a < modulus && 0 < b < modulus
    ensures Wrap(a * b, modulus) == a * b <==> a * b < modulus
    ensures a == 1 || b == 1 ==> a * b < modulus
  {
    Wrapped(a * b, modulus);
  }

  /** One number divides the other exactly when it is the greatest common divisor. */
  lemma DividesIffGcd(a: nat, b: nat)
    requires a > 0 && b > 0
    ensures Divides(a, b) <==> Gcd(a, b) == a
    ensures Divides(b, a) <==> Gcd(a, b) == b
  {
    MultipleModulo(a, 1);
    MultipleModulo(b, 1);
    GcdDivides(a, b);
    GcdGreatest(a, b, a);
    GcdGreatest(a, b, b);
    DivisorBound(Gcd(a, b), a);
    DivisorBound(Gcd(a, b), b);
  }

  lemma Wrapped(n: nat, modulus: nat)
    requires modulus > 0
    ensures n < modulus ==> Wrap(n, modulus) == n
    ensures n >= modulus ==> Wrap(n, modulus) < modulus <= n
  {
  }

  lemma WrappedQuotient(n: nat, modulus: nat, g: nat, l: nat)
    requires modulus > 0 && g > 0 && n == g * l
    ensures n < modulus ==> Wrap(n, modulus) / g == l
    ensures n >= modulus ==> Wrap(n, modulus) / g != l
  {
    Wrapped(n, modulus);
    MultipleModulo(g, l);
    Remainder(Wrap(n, modulus), g);
  }

  /** With a 32-bit unsigned long, the frame of 65536 and 65537 comes out as 65536. */
  lemma WrappedExample()
    ensures var frame := Frame(65536, 65537, 0x1_0000_0000);
            frame == 65536 && !IsLcm(frame, 65536, 65537)
  {
    var a, b, m := 65536, 65537, 0x1_0000_0000;
    assert Gcd(a, b) == 1;
    FrameIsLcmIff(a, b, m);
    assert a * b == m + a;
  }
}
