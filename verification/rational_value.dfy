/** Fractions as values: the normal form, its uniqueness, and why the shortcuts of the compound
    operators reach it. */
module RationalValue {
  import opened NumberTheory

  datatype Ratio = Ratio(n: int, d: int)

  /** The class invariant: a positive denominator, in lowest terms. */
  predicate Reduced(r: Ratio) { r.d > 0 && Coprime(r.n, r.d) }

  predicate SameValue(a: Ratio, b: Ratio) { a.n * b.d == b.n * a.d }

  /** The normal form of n/d. */
  function Normal(n: int, d: int): Ratio
    requires d != 0
  {
    var g := Gcd(n, d);
    if d > 0 then Ratio(n / g, d / g) else Ratio(-(n / g), -(d / g))
  }

  lemma CoprimeNegate(a: int, b: int)
    requires Coprime(a, b)
    ensures Coprime(-a, b) && Coprime(a, -b) && Coprime(-a, -b)
  {
  }

  lemma FlipValue(n: int, d: int, p: int, q: int, g: int)
    requires n == p * g && d == q * g
    ensures p * d == n * q && (-p) * d == n * (-q)
  {
    assert p * (q * g) == p * g * q;
    MulSigns(p, d);
    MulSigns(n, q);
  }

  /** The normal form is reduced and has the value it was made from. */
  lemma NormalCorrect(n: int, d: int)
    requires d != 0
    ensures Reduced(Normal(n, d)) && SameValue(Normal(n, d), Ratio(n, d))
  {
    var g := Gcd(n, d);
    GcdQuotients(n, d);
    var p, q := n / g, d / g;
    FlipValue(n, d, p, q, g);
    CoprimeNegate(p, q);
    SignOfQuotient(q, g, d);
  }

  lemma SignOfQuotient(q: int, g: int, d: int)
    requires g > 0 && q * g == d && d != 0
    ensures d > 0 <==> q > 0
    ensures q != 0
  {
  }

  /** Fieldwise `operator==` decides equality of values: the normal form is canonical. */
  lemma EqualIffSameValue(a: Ratio, b: Ratio)
    requires Reduced(a) && Reduced(b)
    ensures a == b <==> SameValue(a, b)
  {
    if SameValue(a, b) {
      DividesIntro(a.d, a.n * b.d, b.n);
      CoprimeSymmetric(a.n, a.d);
      CoprimeCancels(a.d, a.n, b.d);
      DividesIntro(b.d, b.n * a.d, a.n);
      CoprimeSymmetric(b.n, b.d);
      CoprimeCancels(b.d, b.n, a.d);
      DividesAntisymmetric(a.d, b.d);
      assert (a.n - b.n) * a.d == 0;
      MulSmall(a.n - b.n, a.d, 0);
    }
  }

  /** Anything reduced with the value of n/d is its normal form. */
  lemma NormalUnique(r: Ratio, n: int, d: int)
    requires d != 0 && Reduced(r) && SameValue(r, Ratio(n, d))
    ensures Normal(n, d) == r
  {
    var m := Normal(n, d);
    NormalCorrect(n, d);
    CrossCancelValue(m.n, m.d, r.n, r.d, n, d);
    EqualIffSameValue(m, r);
  }

  lemma CrossCancelValue(a: int, b: int, p: int, q: int, n: int, d: int)
    requires d != 0 && a * d == n * b && p * d == n * q
    ensures a * q == p * b
  {
    assert (a * q - p * b) * d == 0 by {
      assert a * q * d == n * b * q by { assert a * q * d == a * d * q; }
      assert p * b * d == n * q * b by { assert p * b * d == p * d * b; }
    }
    MulSmall(a * q - p * b, d, 0);
  }

  // ----- addition: one gcd of the denominators, one of the new numerator with it -----

  /** a/b + c/d as `operator+=` computes it. */
  function Sum(a: Ratio, c: Ratio): Ratio
    requires a.d > 0 && c.d > 0
  {
    var g := Gcd(a.d, c.d);
    var b1 := a.d / g;
    var n := a.n * (c.d / g) + c.n * b1;
    var h := Gcd(n, g);
    Ratio(n / h, b1 * (c.d / h))
  }

  /** The new numerator has no factor in common with either cofactor of the denominators. */
  lemma NumeratorCoprime(a: Ratio, c: Ratio, b1: int, d1: int, g: int)
    requires Reduced(a) && Reduced(c) && Coprime(b1, d1) && a.d == b1 * g && c.d == d1 * g
    ensures Coprime(a.n * d1 + c.n * b1, b1) && Coprime(a.n * d1 + c.n * b1, d1)
  {
    DividesIntro(b1, a.d, g);
    DividesIntro(d1, c.d, g);
    CoprimeSymmetric(b1, d1);
    CoprimeShare(a.n, a.d, b1, d1, c.n);
    CoprimeShare(c.n, c.d, d1, b1, a.n);
  }

  lemma CoprimeShare(n: int, d: int, p: int, q: int, m: int)
    requires Coprime(n, d) && Divides(p, d) && Coprime(p, q)
    ensures Coprime(n * q + m * p, p)
  {
    CoprimeSymmetric(n, d);
    CoprimeDivisor(p, d, n);
    CoprimeMul(p, n, q);
    CoprimeSymmetric(p, n * q);
    CoprimeAddMultiple(n * q, p, m);
  }

  lemma SumValue(a: int, b: int, c: int, d: int, g: int, b1: int, d1: int, n: int, h: int, n1: int, g1: int)
    requires b == b1 * g && d == d1 * g && n == a * d1 + c * b1 && n == n1 * h && g == g1 * h
    ensures n1 * (b * d) == (a * d + c * b) * (b1 * (d1 * g1))
  {
    assert a * d + c * b == n * g by {
      assert a * (d1 * g) == a * d1 * g;
      assert c * (b1 * g) == c * b1 * g;
    }
    var k := b1 * d1;
    assert b * d == k * g * g;
    assert n * g1 == n1 * g by {
      assert n1 * h * g1 == n1 * (g1 * h);
    }
    assert b1 * (d1 * g1) == k * g1;
    ScaledProduct(n, g, k, g1, n1);
  }

  lemma ScaledProduct(n: int, g: int, k: int, g1: int, n1: int)
    requires n * g1 == n1 * g
    ensures n1 * (k * g * g) == n * g * (k * g1)
  {
    assert n1 * (k * g * g) == n1 * g * (k * g);
    assert n * g * (k * g1) == n * g1 * (k * g);
  }

  /** `operator+=` divides only by the gcd of the new numerator with the gcd of the denominators,
      and still reaches the normal form of the exact sum. */
  lemma SumIsNormal(a: Ratio, c: Ratio)
    requires Reduced(a) && Reduced(c)
    ensures a.d * c.d != 0 && Sum(a, c) == Normal(a.n * c.d + c.n * a.d, a.d * c.d)
  {
    var g := Gcd(a.d, c.d);
    GcdQuotients(a.d, c.d);
    var b1, d1 := a.d / g, c.d / g;
    var n := a.n * d1 + c.n * b1;
    NumeratorCoprime(a, c, b1, d1, g);
    var h := Gcd(n, g);
    GcdQuotients(n, g);
    var n1, g1 := n / h, g / h;
    QuotientOfProduct(d1, g1, h, c.d);
    assert c.d / h == d1 * g1;
    DividesIntro(n1, n, h);
    CoprimeDivisor(n1, n, b1);
    CoprimeDivisor(n1, n, d1);
    CoprimeMul(n1, d1, g1);
    CoprimeMul(n1, b1, d1 * g1);
    SumValue(a.n, a.d, c.n, c.d, g, b1, d1, n, h, n1, g1);
    PositiveFactor(b1, g);
    PositiveFactor(d1 * g1, h);
    PositiveProduct(b1, d1 * g1);
    PositiveProduct(a.d, c.d);
    NormalUnique(Ratio(n1, b1 * (d1 * g1)), a.n * c.d + c.n * a.d, a.d * c.d);
  }

  /** a/b - c/d as `operator-=` computes it. */
  function Difference(a: Ratio, c: Ratio): Ratio
    requires a.d > 0 && c.d > 0
  {
    var g := Gcd(a.d, c.d);
    var b1 := a.d / g;
    var n := a.n * (c.d / g) - c.n * b1;
    var h := Gcd(n, g);
    Ratio(n / h, b1 * (c.d / h))
  }

  /** Likewise for `operator-=` and the exact difference. */
  lemma DifferenceIsNormal(a: Ratio, c: Ratio)
    requires Reduced(a) && Reduced(c)
    ensures a.d * c.d != 0 && Difference(a, c) == Normal(a.n * c.d - c.n * a.d, a.d * c.d)
  {
    CoprimeNegate(c.n, c.d);
    SumIsNormal(a, Ratio(-c.n, c.d));
    MulSigns(c.n, a.d);
    MulSigns(c.n, a.d / Gcd(a.d, c.d));
    assert Difference(a, c) == Sum(a, Ratio(-c.n, c.d));
  }

  lemma QuotientOfProduct(p: int, q: int, h: int, d: int)
    requires h > 0 && d == p * (q * h)
    ensures d / h == p * q && p * q * h == d
  {
    assert d == p * q * h;
    DividesIntro(h, d, p * q);
    assert (d / h - p * q) * h == 0;
    MulSmall(d / h - p * q, h, 0);
  }

  lemma PositiveProduct(a: int, b: int)
    requires a > 0 && b > 0
    ensures a * b > 0
  {
  }

  // ----- multiplication and division: cross-cancellation -----

  /** a/b * c/d after cancelling a with d and c with b, before any sign is fixed. */
  function Cross(a: int, b: int, c: int, d: int): Ratio
    requires b != 0 && d != 0
  {
    var g1, g2 := Gcd(a, d), Gcd(c, b);
    Ratio((a / g1) * (c / g2), (b / g2) * (d / g1))
  }

  lemma CrossValue(a1: int, b1: int, c1: int, d1: int, g1: int, g2: int)
    ensures a1 * c1 * (b1 * g2 * (d1 * g1)) == a1 * g1 * (c1 * g2) * (b1 * d1)
  {
    calc {
      a1 * c1 * (b1 * g2 * (d1 * g1));
      a1 * c1 * (b1 * d1 * (g1 * g2));
      a1 * c1 * (g1 * g2) * (b1 * d1);
      a1 * g1 * (c1 * g2) * (b1 * d1);
    }
  }

  lemma CrossCoprime(a: int, b: int, c: int, d: int, a1: int, b1: int, c1: int, d1: int, g1: int, g2: int)
    requires Coprime(a, b) && Coprime(c, d) && Coprime(a1, d1) && Coprime(c1, b1)
    requires a == a1 * g1 && d == d1 * g1 && c == c1 * g2 && b == b1 * g2
    ensures Coprime(a1 * c1, b1 * d1)
  {
    DividesIntro(a1, a, g1);
    DividesIntro(d1, d, g1);
    DividesIntro(c1, c, g2);
    DividesIntro(b1, b, g2);
    PairCoprime(a, b, a1, b1);
    PairCoprime(c, d, c1, d1);
    CoprimeMul(a1, b1, d1);
    CoprimeMul(c1, b1, d1);
    CoprimeSymmetric(a1, b1 * d1);
    CoprimeSymmetric(c1, b1 * d1);
    CoprimeMul(b1 * d1, a1, c1);
    CoprimeSymmetric(b1 * d1, a1 * c1);
  }

  lemma PairCoprime(a: int, b: int, a1: int, b1: int)
    requires Coprime(a, b) && Divides(a1, a) && Divides(b1, b)
    ensures Coprime(a1, b1)
  {
    CoprimeDivisor(a1, a, b);
    CoprimeSymmetric(a1, b);
    CoprimeDivisor(b1, b, a1);
    CoprimeSymmetric(b1, a1);
  }

  /** Cross-cancellation alone leaves lowest terms. */
  lemma CrossIsLowest(a: int, b: int, c: int, d: int)
    requires b != 0 && d != 0 && Coprime(a, b) && Coprime(c, d)
    ensures var x := Cross(a, b, c, d);
            Coprime(x.n, x.d) && x.d != 0 && SameValue(x, Ratio(a * c, b * d))
    ensures var x := Cross(a, b, c, d); (x.d > 0 <==> (b > 0) == (d > 0))
  {
    var g1, g2 := Gcd(a, d), Gcd(c, b);
    GcdQuotients(a, d);
    GcdQuotients(c, b);
    var a1, b1, c1, d1 := a / g1, b / g2, c / g2, d / g1;
    CrossCoprime(a, b, c, d, a1, b1, c1, d1, g1, g2);
    CrossValue(a1, b1, c1, d1, g1, g2);
    SignOfQuotient(b1, g2, b);
    SignOfQuotient(d1, g1, d);
    SignOfProduct(b1, d1);
  }

  lemma SignOfProduct(p: int, q: int)
    requires p != 0 && q != 0
    ensures p * q != 0 && (p * q > 0 <==> (p > 0) == (q > 0))
  {
  }

  /** `operator*=` reaches the normal form of the product. */
  lemma ProductIsNormal(a: Ratio, c: Ratio)
    requires Reduced(a) && Reduced(c)
    ensures a.d * c.d != 0 && Cross(a.n, a.d, c.n, c.d) == Normal(a.n * c.n, a.d * c.d)
  {
    CrossIsLowest(a.n, a.d, c.n, c.d);
    PositiveProduct(a.d, c.d);
    NormalUnique(Cross(a.n, a.d, c.n, c.d), a.n * c.n, a.d * c.d);
  }

  function FixSign(r: Ratio): Ratio {
    if r.d < 0 then Ratio(-r.n, -r.d) else r
  }

  /** `operator/=` by a non-zero value reaches the normal form of the quotient. */
  lemma QuotientIsNormal(a: Ratio, c: Ratio)
    requires Reduced(a) && Reduced(c) && c.n != 0
    ensures a.d * c.n != 0 && FixSign(Cross(a.n, a.d, c.d, c.n)) == Normal(a.n * c.d, a.d * c.n)
  {
    CoprimeSymmetric(c.n, c.d);
    CrossIsLowest(a.n, a.d, c.d, c.n);
    var x := Cross(a.n, a.d, c.d, c.n);
    CoprimeNegate(x.n, x.d);
    MulSigns(x.n, a.d * c.n);
    MulSigns(a.n * c.d, x.d);
    SignOfProduct(a.d, c.n);
    NormalUnique(FixSign(x), a.n * c.d, a.d * c.n);
  }

  // ----- `is_normalized`: Euclid's algorithm on truncated remainders -----

  function InnerGcd(a: int, b: int): int
    decreases Abs(b)
  {
    if b == 0 then a else TruncDivMod(a, b); InnerGcd(b, TruncMod(a, b))
  }

  predicate IsNormalized(n: int, d: int) {
    d > 0 && (n != 0 || d == 1) && Abs(InnerGcd(n, d)) == 1
  }

  lemma {:induction false} InnerGcdIsGcd(a: int, b: int)
    ensures Abs(InnerGcd(a, b)) == Gcd(a, b)
    decreases Abs(b)
  {
    if b == 0 {
    } else {
      TruncDivMod(a, b);
      InnerGcdIsGcd(b, TruncMod(a, b));
    }
  }

  /** `is_normalized`, which runs on signed numbers, agrees with the class invariant. */
  lemma IsNormalizedIffReduced(n: int, d: int)
    ensures IsNormalized(n, d) <==> Reduced(Ratio(n, d))
  {
    InnerGcdIsGcd(n, d);
    if n == 0 && d > 0 {
      assert Gcd(n, d) == d by { GcdNatZero(d); }
    }
  }

  lemma GcdNatZero(d: nat)
    ensures GcdNat(0, d) == d
  {
    if d > 0 {
      assert GcdNat(0, d) == GcdNat(d, 0 % d);
      assert 0 % d == 0;
    }
  }
}
