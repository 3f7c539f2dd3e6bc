/** The gcd and lcm of rationals: `gcd_evaluator` and `lcm_evaluator` for `rational`. */
module RationalGcd {
  import opened NumberTheory
  import opened RationalValue

  /** `gcd_evaluator`: the constructor normalizes the pair. */
  function GcdOf(a: Ratio, b: Ratio): Ratio
    requires Reduced(a) && Reduced(b)
  {
    LcmMultiple(a.d, b.d);
    Normal(Gcd(a.n, b.n), Lcm(a.d, b.d))
  }

  /** `lcm_evaluator`. */
  function LcmOf(a: Ratio, b: Ratio): Ratio
    requires Reduced(a) && Reduced(b)
  {
    Normal(Lcm(a.n, b.n), Gcd(a.d, b.d))
  }

  /** m is k times a. */
  predicate IsTimes(m: Ratio, k: int, a: Ratio) { m.n * a.d == k * a.n * m.d }

  /** m is an integer multiple of a. */
  ghost predicate Multiple(m: Ratio, a: Ratio) { exists k :: IsTimes(m, k, a) }

  lemma TimesValue(m: Ratio, k: int, a: Ratio, x: Ratio)
    requires IsTimes(m, k, a) && SameValue(m, x) && m.d != 0
    ensures IsTimes(x, k, a)
  {
    CrossCancelValue(x.n, x.d, k * a.n, a.d, m.n, m.d);
  }

  lemma TimesOfValue(m: Ratio, k: int, a: Ratio, x: Ratio)
    requires IsTimes(m, k, a) && SameValue(a, x) && a.d != 0
    ensures IsTimes(m, k, x)
  {
    ScaleCross(k, a.n, a.d, x.n, x.d);
    CrossCancelValue(m.n, m.d, k * x.n, x.d, k * a.n, a.d);
  }

  lemma ScaleCross(k: int, p: int, q: int, n: int, d: int)
    requires p * d == n * q
    ensures k * n * q == k * p * d
  {
    assert k * n * q == k * (n * q);
    assert k * p * d == k * (p * d);
  }

  lemma Factors(p: int, g: int, q: int, d: int)
    ensures p * g * (q * d) == p * q * g * d
  {
    assert p * g * (q * d) == p * g * q * d;
    assert p * g * q == p * q * g;
  }

  lemma MultipleFromFactors(n: int, d: int, p: int, g: int, q: int, l: int)
    requires n == p * g && l == q * d
    ensures Multiple(Ratio(n, d), Ratio(g, l))
  {
    Factors(p, g, q, d);
    assert IsTimes(Ratio(n, d), p * q, Ratio(g, l));
  }

  lemma TimesDivides(m: Ratio, a: Ratio) returns (k: int)
    requires Multiple(m, a) && Reduced(m) && Reduced(a)
    ensures IsTimes(m, k, a)
    ensures Divides(a.n, m.n) && Divides(m.d, a.d)
  {
    k :| IsTimes(m, k, a);
    CrossDivides(m.n, m.d, k, a.n, a.d);
  }

  lemma CrossDivides(n: int, d: int, k: int, p: int, q: int)
    requires n * q == k * p * d && Coprime(n, d) && Coprime(p, q)
    ensures Divides(p, n) && Divides(d, q)
  {
    assert q * n == k * d * p by {
      assert k * d * p == k * p * d;
    }
    DividesIntro(p, q * n, k * d);
    CoprimeCancels(p, q, n);
    DividesIntro(d, n * q, k * p);
    CoprimeSymmetric(n, d);
    CoprimeCancels(d, n, q);
  }

  lemma MultipleSame(m: Ratio, a: Ratio, x: Ratio, y: Ratio)
    requires Multiple(m, a) && SameValue(m, x) && SameValue(a, y) && m.d != 0 && a.d != 0
    ensures Multiple(x, y)
  {
    var k :| IsTimes(m, k, a);
    TimesValue(m, k, a, x);
    TimesOfValue(x, k, a, y);
  }

  lemma SameValueSymmetric(a: Ratio, b: Ratio)
    requires SameValue(a, b)
    ensures SameValue(b, a)
  {
  }

  /** Both rationals are integer multiples of their gcd. */
  lemma GcdOfDivides(a: Ratio, b: Ratio)
    requires Reduced(a) && Reduced(b)
    ensures Reduced(GcdOf(a, b)) && Multiple(a, GcdOf(a, b)) && Multiple(b, GcdOf(a, b))
  {
    var raw := Ratio(Gcd(a.n, b.n), Lcm(a.d, b.d));
    LcmMultiple(a.d, b.d);
    NormalCorrect(raw.n, raw.d);
    GcdDivides(a.n, b.n);
    var p := DividesElim(raw.n, a.n);
    var q := DividesElim(a.d, raw.d);
    MultipleFromFactors(a.n, a.d, p, raw.n, q, raw.d);
    p := DividesElim(raw.n, b.n);
    q := DividesElim(b.d, raw.d);
    MultipleFromFactors(b.n, b.d, p, raw.n, q, raw.d);
    SameValueSymmetric(GcdOf(a, b), raw);
    MultipleSame(a, raw, a, GcdOf(a, b));
    MultipleSame(b, raw, b, GcdOf(a, b));
  }

  /** Every rational both are integer multiples of divides their gcd. */
  lemma GcdOfGreatest(a: Ratio, b: Ratio, h: Ratio)
    requires Reduced(a) && Reduced(b) && Reduced(h)
    requires Multiple(a, h) && Multiple(b, h)
    ensures Multiple(GcdOf(a, b), h)
  {
    var raw := Ratio(Gcd(a.n, b.n), Lcm(a.d, b.d));
    LcmMultiple(a.d, b.d);
    NormalCorrect(raw.n, raw.d);
    var _ := TimesDivides(a, h);
    var _ := TimesDivides(b, h);
    GcdGreatest(h.n, a.n, b.n);
    LcmLeast(a.d, b.d, h.d);
    var p := DividesElim(h.n, raw.n);
    var q := DividesElim(raw.d, h.d);
    MultipleFromFactors(raw.n, raw.d, p, h.n, q, h.d);
    SameValueSymmetric(GcdOf(a, b), raw);
    MultipleSame(raw, h, GcdOf(a, b), h);
  }

  /** The lcm is an integer multiple of both rationals. */
  lemma LcmOfMultiple(a: Ratio, b: Ratio)
    requires Reduced(a) && Reduced(b)
    ensures Reduced(LcmOf(a, b)) && Multiple(LcmOf(a, b), a) && Multiple(LcmOf(a, b), b)
  {
    var raw := Ratio(Lcm(a.n, b.n), Gcd(a.d, b.d));
    LcmMultiple(a.n, b.n);
    GcdDivides(a.d, b.d);
    NormalCorrect(raw.n, raw.d);
    var p := DividesElim(a.n, raw.n);
    var q := DividesElim(raw.d, a.d);
    MultipleFromFactors(raw.n, raw.d, p, a.n, q, a.d);
    p := DividesElim(b.n, raw.n);
    q := DividesElim(raw.d, b.d);
    MultipleFromFactors(raw.n, raw.d, p, b.n, q, b.d);
    SameValueSymmetric(LcmOf(a, b), raw);
    MultipleSame(raw, a, LcmOf(a, b), a);
    MultipleSame(raw, b, LcmOf(a, b), b);
  }

  /** Every common integer multiple is one of the lcm. */
  lemma LcmOfLeast(a: Ratio, b: Ratio, m: Ratio)
    requires Reduced(a) && Reduced(b) && Reduced(m)
    requires Multiple(m, a) && Multiple(m, b)
    ensures Multiple(m, LcmOf(a, b))
  {
    var raw := Ratio(Lcm(a.n, b.n), Gcd(a.d, b.d));
    NormalCorrect(raw.n, raw.d);
    var _ := TimesDivides(m, a);
    var _ := TimesDivides(m, b);
    LcmLeast(a.n, b.n, m.n);
    GcdGreatest(m.d, a.d, b.d);
    var p := DividesElim(raw.n, m.n);
    var q := DividesElim(m.d, raw.d);
    MultipleFromFactors(m.n, m.d, p, raw.n, q, raw.d);
    SameValueSymmetric(LcmOf(a, b), raw);
    MultipleSame(m, raw, m, LcmOf(a, b));
  }

  lemma MulEquations(a: int, b: int, c: int, d: int, p: int, q: int, r: int, s: int)
    requires a * b == c * d && p * q == r * s
    ensures a * p * (b * q) == c * r * (d * s)
  {
    assert a * p * (b * q) == a * b * (p * q);
    assert c * r * (d * s) == c * d * (r * s);
  }

  /** gcd times lcm is the absolute value of the product. */
  lemma GcdTimesLcm(a: Ratio, b: Ratio)
    requires Reduced(a) && Reduced(b)
    ensures var g, l := GcdOf(a, b), LcmOf(a, b);
            SameValue(Ratio(g.n * l.n, g.d * l.d), Ratio(Abs(a.n) * Abs(b.n), a.d * b.d))
  {
    var g, l := GcdOf(a, b), LcmOf(a, b);
    LcmMultiple(a.d, b.d);
    LcmMultiple(a.n, b.n);
    NormalCorrect(Gcd(a.n, b.n), Lcm(a.d, b.d));
    NormalCorrect(Lcm(a.n, b.n), Gcd(a.d, b.d));
    MulEquations(g.n, Lcm(a.d, b.d), Gcd(a.n, b.n), g.d, l.n, Gcd(a.d, b.d), Lcm(a.n, b.n), l.d);
  }
}
