/** Integer facts behind exact rational arithmetic: truncating division, gcd, lcm, coprimality. */
module NumberTheory {

  function Abs(a: int): nat { if a < 0 then -a else a }

  /** C++ `/`: the quotient truncated toward zero. */
  function TruncDiv(a: int, b: int): int
    requires b != 0
  {
    if (a < 0) == (b < 0) then Abs(a) / Abs(b) else -(Abs(a) / Abs(b))
  }

  /** C++ `%`: the remainder of truncating division, with the sign of the dividend. */
  function TruncMod(a: int, b: int): int
    requires b != 0
  {
    if a < 0 then -(Abs(a) % Abs(b)) else Abs(a) % Abs(b)
  }

  lemma DivModNat(x: nat, y: nat)
    requires y > 0
    ensures x == x / y * y + x % y && x % y < y && x % y <= x && x / y <= x
  {
    MulAtLeast(x / y, y);
  }

  lemma MulAtLeast(q: nat, y: nat)
    requires y > 0
    ensures q <= q * y
  {
  }

  lemma TruncDivMod(a: int, b: int)
    requires b != 0
    ensures a == TruncDiv(a, b) * b + TruncMod(a, b)
    ensures Abs(TruncMod(a, b)) < Abs(b) && Abs(TruncMod(a, b)) <= Abs(a) && Abs(TruncDiv(a, b)) <= Abs(a)
  {
    DivModNat(Abs(a), Abs(b));
    MulSigns(Abs(a) / Abs(b), b);
  }

  lemma MulSigns(q: int, b: int)
    ensures (-q) * b == -(q * b) && q * (-b) == -(q * b)
  {
  }

  lemma ScaleLe(a: int, b: int, d: int)
    requires a <= b && d > 0
    ensures a * d <= b * d
  {
  }

  // ----- divisibility -----

  predicate Divides(d: int, n: int) { if d == 0 then n == 0 else n % d == 0 }

  lemma DividesIntro(d: int, n: int, k: int)
    requires n == k * d
    ensures Divides(d, n)
  {
    if d != 0 {
      assert (k * d) % d == 0 by {
        ModOfMultiple(k, d);
      }
    }
  }

  lemma {:induction false} ModOfMultiple(k: int, d: int)
    requires d != 0
    ensures (k * d) % d == 0
    decreases Abs(k)
  {
    var q, r := (k * d) / d, (k * d) % d;
    assert k * d == q * d + r && 0 <= r < Abs(d);
    assert (k - q) * d == r;
    if k - q >= 1 {
      MulBound(k - q, d);
    } else if k - q <= -1 {
      MulBound(q - k, -d);
    }
  }

  lemma MulBound(m: int, d: int)
    requires m >= 1 && d != 0
    ensures if d > 0 then m * d >= d else m * d <= d
  {
    if d > 0 {
      assert (m - 1) * d >= 0;
    } else {
      assert (m - 1) * d <= 0;
    }
    assert m * d == (m - 1) * d + d;
  }

  lemma DividesElim(d: int, n: int) returns (k: int)
    requires Divides(d, n)
    ensures n == k * d
  {
    k := if d == 0 then 0 else n / d;
  }

  lemma ExactDiv(n: int, d: int)
    requires d != 0 && Divides(d, n)
    ensures TruncDiv(n, d) * d == n && TruncDiv(n, d) == n / d
    ensures Abs(TruncDiv(n, d)) <= Abs(n)
  {
    TruncDivMod(n, d);
    QuotientExact(d, n);
    QuotientsAgree(n / d, TruncDiv(n, d), d, TruncMod(n, d));
  }

  lemma QuotientExact(d: int, n: int)
    requires d != 0 && Divides(d, n)
    ensures n / d * d == n
  {
  }

  /** A multiple of `d` is not taken for another with a remainder below `d`. */
  lemma QuotientsAgree(k: int, q: int, d: int, r: int)
    requires d != 0 && k * d == q * d + r && Abs(r) < Abs(d)
    ensures k == q && r == 0
  {
    assert (k - q) * d == k * d - q * d;
    MulSmall(k - q, d, r);
  }

  lemma MulSmall(m: int, d: int, r: int)
    requires d != 0 && m * d == r && Abs(r) < Abs(d)
    ensures m == 0
  {
    MulSigns(m, d);
    if m >= 1 {
      MulBound(m, d);
    } else if m <= -1 {
      MulBound(-m, d);
    }
  }

  // ----- greatest common divisor -----

  function GcdNat(a: nat, b: nat): (g: nat)
    ensures a != 0 || b != 0 ==> g > 0
    decreases b
  {
    if b == 0 then a else GcdNat(b, a % b)
  }

  /** `integer::gcd`: the non-negative greatest common divisor. */
  function Gcd(a: int, b: int): (g: nat)
    ensures a != 0 || b != 0 ==> g > 0
  {
    GcdNat(Abs(a), Abs(b))
  }

  /** `integer::lcm`: the non-negative least common multiple. */
  function Lcm(a: int, b: int): nat {
    if a == 0 || b == 0 then 0 else
    QuotientTimes(Abs(a), Gcd(a, b), Abs(b));
    Abs(a) / Gcd(a, b) * Abs(b)
  }

  lemma QuotientTimes(x: nat, g: nat, y: nat)
    requires g > 0
    ensures x / g * y >= 0
  {
    ProductNatural(x / g, y);
  }

  lemma ProductNatural(x: nat, y: nat)
    ensures x * y >= 0
  {
  }

  predicate Coprime(a: int, b: int) { Gcd(a, b) == 1 }

  lemma {:induction false} GcdNatBezout(a: nat, b: nat) returns (x: int, y: int)
    ensures a * x + b * y == GcdNat(a, b)
    ensures Divides(GcdNat(a, b), a) && Divides(GcdNat(a, b), b)
    decreases b
  {
    var g := GcdNat(a, b);
    if b == 0 {
      x, y := 1, 0;
      DividesIntro(a, a, 1);
      DividesIntro(a, 0, 0);
    } else {
      var q, r := a / b, a % b;
      var x', y' := GcdNatBezout(b, r);
      x, y := y', x' - q * y';
      var k := DividesElim(g, b);
      var l := DividesElim(g, r);
      assert a == q * b + r;
      BezoutStep(a, b, q, r, x', y');
      assert a == (q * k + l) * g by {
        assert q * b == q * k * g;
      }
      DividesIntro(g, a, q * k + l);
    }
  }

  lemma BezoutStep(a: int, b: int, q: int, r: int, x: int, y: int)
    requires a == q * b + r
    ensures a * y + b * (x - q * y) == b * x + r * y
  {
    assert b * (q * y) == q * b * y;
    assert a * y == q * b * y + r * y;
  }

  lemma Bezout(a: int, b: int) returns (x: int, y: int)
    ensures a * x + b * y == Gcd(a, b)
  {
    x, y := GcdNatBezout(Abs(a), Abs(b));
    if a < 0 {
      x := -x;
    }
    if b < 0 {
      y := -y;
    }
  }

  lemma DividesAbs(d: int, n: int)
    ensures Divides(d, Abs(n)) <==> Divides(d, n)
  {
    if Divides(d, n) {
      var k := DividesElim(d, n);
      DividesIntro(d, -n, -k);
    }
    if Divides(d, -n) {
      var k := DividesElim(d, -n);
      DividesIntro(d, n, -k);
    }
  }

  lemma GcdDivides(a: int, b: int)
    ensures Divides(Gcd(a, b), a) && Divides(Gcd(a, b), b)
  {
    var _, _ := GcdNatBezout(Abs(a), Abs(b));
    DividesAbs(Gcd(a, b), a);
    DividesAbs(Gcd(a, b), b);
  }

  lemma DividesCombination(d: int, a: int, x: int, b: int, y: int)
    requires Divides(d, a) && Divides(d, b)
    ensures Divides(d, a * x + b * y)
  {
    var k := DividesElim(d, a);
    var l := DividesElim(d, b);
    assert a * x + b * y == (k * x + l * y) * d by {
      assert a * x == k * x * d;
      assert b * y == l * y * d;
    }
    DividesIntro(d, a * x + b * y, k * x + l * y);
  }

  /** The greatest: every common divisor divides it. */
  lemma GcdGreatest(d: int, a: int, b: int)
    requires Divides(d, a) && Divides(d, b)
    ensures Divides(d, Gcd(a, b))
  {
    var x, y := Bezout(a, b);
    DividesCombination(d, a, x, b, y);
  }

  lemma DividesOne(d: nat)
    requires Divides(d, 1)
    ensures d == 1
  {
    if d > 1 {
      var k := DividesElim(d, 1);
      MulSmall(k, d, 1);
    }
  }

  /** Non-negative numbers dividing each other are equal. */
  lemma DividesAntisymmetric(a: nat, b: nat)
    requires Divides(a, b) && Divides(b, a)
    ensures a == b
  {
    if 0 < a < b {
      var k := DividesElim(b, a);
      MulSmall(k, b, a);
    } else if 0 < b < a {
      var k := DividesElim(a, b);
      MulSmall(k, a, b);
    }
  }

  lemma GcdSymmetric(a: int, b: int)
    ensures Gcd(a, b) == Gcd(b, a)
  {
    GcdDivides(a, b);
    GcdDivides(b, a);
    GcdGreatest(Gcd(a, b), b, a);
    GcdGreatest(Gcd(b, a), a, b);
    DividesAntisymmetric(Gcd(a, b), Gcd(b, a));
  }

  // ----- coprimality -----

  lemma CoprimeIntro(a: int, b: int, x: int, y: int)
    requires a * x + b * y == 1
    ensures Coprime(a, b)
  {
    GcdDivides(a, b);
    DividesCombination(Gcd(a, b), a, x, b, y);
    DividesOne(Gcd(a, b));
  }

  lemma CoprimeSymmetric(a: int, b: int)
    requires Coprime(a, b)
    ensures Coprime(b, a)
  {
    GcdSymmetric(a, b);
  }

  lemma CoprimeDivisor(d: int, n: int, m: int)
    requires Coprime(n, m) && Divides(d, n)
    ensures Coprime(d, m)
  {
    var x, y := Bezout(n, m);
    var k := DividesElim(d, n);
    assert d * (k * x) == n * x;
    CoprimeIntro(d, m, k * x, y);
  }

  lemma CoprimeMul(n: int, a: int, b: int)
    requires Coprime(n, a) && Coprime(n, b)
    ensures Coprime(n, a * b)
  {
    var x1, y1 := Bezout(n, a);
    var x2, y2 := Bezout(n, b);
    var x, y := BezoutProduct(n, a, b, x1, y1, x2, y2);
    CoprimeIntro(n, a * b, x, y);
  }

  lemma BezoutProduct(n: int, a: int, b: int, x1: int, y1: int, x2: int, y2: int) returns (x: int, y: int)
    requires n * x1 + a * y1 == 1 && n * x2 + b * y2 == 1
    ensures n * x + a * b * y == 1
  {
    ProductIdentity(n, a, b, x1, y1, x2, y2);
    x, y := x1 * (n * x2 + b * y2) + a * y1 * x2, y1 * y2;
  }

  lemma ProductIdentity(n: int, a: int, b: int, x1: int, y1: int, x2: int, y2: int)
    ensures n * (x1 * (n * x2 + b * y2) + a * y1 * x2) + a * b * (y1 * y2) == (n * x1 + a * y1) * (n * x2 + b * y2)
  {
    var u := n * x2 + b * y2;
    assert n * (x1 * u + a * y1 * x2) == n * x1 * u + a * y1 * (n * x2) by {
      assert n * (x1 * u) == n * x1 * u;
      assert n * (a * y1 * x2) == a * y1 * (n * x2);
    }
    assert a * b * (y1 * y2) == a * y1 * (b * y2);
    assert (n * x1 + a * y1) * u == n * x1 * u + a * y1 * u;
    assert a * y1 * u == a * y1 * (n * x2) + a * y1 * (b * y2);
  }

  lemma CoprimeAddMultiple(n: int, m: int, k: int)
    requires Coprime(n, m)
    ensures Coprime(n + k * m, m)
  {
    var x, y := Bezout(n, m);
    assert (n + k * m) * x + m * (y - k * x) == n * x + m * y by {
      assert k * m * x == m * (k * x);
    }
    CoprimeIntro(n + k * m, m, x, y - k * x);
  }

  /** Dividing two numbers by their gcd leaves coprime numbers. */
  lemma GcdQuotients(a: int, b: int)
    requires a != 0 || b != 0
    ensures var g := Gcd(a, b);
            g > 0 && a / g * g == a && b / g * g == b && Coprime(a / g, b / g)
  {
    var g := Gcd(a, b);
    GcdDivides(a, b);
    var x, y := Bezout(a, b);
    QuotientExact(g, a);
    QuotientExact(g, b);
    CombinationQuotient(a / g, x, b / g, y, g);
    CoprimeIntro(a / g, b / g, x, y);
  }

  lemma CombinationQuotient(p: int, x: int, q: int, y: int, g: int)
    requires g > 0 && p * g * x + q * g * y == g
    ensures p * x + q * y == 1
  {
    var m := p * x + q * y;
    assert m * g == p * g * x + q * g * y;
    QuotientsAgree(m, 1, g, 0);
  }

  /** Euclid's lemma. */
  lemma CoprimeCancels(d: int, n: int, m: int)
    requires Coprime(d, n) && Divides(d, n * m)
    ensures Divides(d, m)
  {
    var x, y := Bezout(d, n);
    var k := DividesElim(d, n * m);
    CancelBezout(d, n, m, x, y, k);
    DividesIntro(d, m, m * x + k * y);
  }

  lemma CancelBezout(d: int, n: int, m: int, x: int, y: int, k: int)
    requires d * x + n * y == 1 && n * m == k * d
    ensures m == (m * x + k * y) * d
  {
    assert m == m * (d * x + n * y) == m * (d * x) + m * (n * y);
    assert m * (d * x) == m * x * d;
    assert m * (n * y) == (n * m) * y;
    assert k * d * y == k * y * d;
  }

  // ----- least common multiple -----

  lemma DividesTrans(a: int, b: int, c: int)
    requires Divides(a, b) && Divides(b, c)
    ensures Divides(a, c)
  {
    var k := DividesElim(a, b);
    var l := DividesElim(b, c);
    assert c == l * k * a;
    DividesIntro(a, c, l * k);
  }

  lemma LcmMultiple(a: int, b: int)
    ensures Divides(a, Lcm(a, b)) && Divides(b, Lcm(a, b))
    ensures Lcm(a, b) * Gcd(a, b) == Abs(a) * Abs(b)
    ensures a != 0 && b != 0 ==> Lcm(a, b) > 0
  {
    if a == 0 || b == 0 {
      DividesIntro(a, 0, 0);
      DividesIntro(b, 0, 0);
    } else {
      var x, y, g := Abs(a), Abs(b), Gcd(a, b);
      GcdQuotients(x, y);
      var p: int, q: int := x / g, y / g;
      CrossFactors(x, y, p, q, g);
      DividesSign(b, p * y, p);
      DividesSign(a, q * x, q);
    }
  }

  lemma CrossFactors(x: int, y: int, p: int, q: int, g: int)
    requires x > 0 && y > 0 && g > 0 && x == p * g && y == q * g
    ensures p * y == q * x && p * y > 0 && p * y * g == x * y
  {
    assert p * y == p * q * g && q * x == q * p * g;
    PositiveFactor(p, g);
    assert p * y * g == p * g * y;
  }

  lemma PositiveFactor(p: int, g: int)
    requires p * g > 0 && g > 0
    ensures p > 0
  {
  }

  lemma DividesSign(a: int, n: int, k: int)
    requires n == k * Abs(a)
    ensures Divides(a, n)
  {
    MulSigns(k, a);
    DividesIntro(a, n, if a < 0 then -k else k);
  }

  /** The least: it divides every common multiple. */
  lemma LcmLeast(a: int, b: int, m: int)
    requires Divides(a, m) && Divides(b, m)
    ensures Divides(Lcm(a, b), m)
  {
    if a != 0 && b != 0 {
      var x, y, g := Abs(a), Abs(b), Gcd(a, b);
      GcdQuotients(x, y);
      var p, q := x / g, y / g;
      DividesFromAbs(a, m);
      DividesFromAbs(b, m);
      var k := DividesElim(x, m);
      var l := DividesElim(y, m);
      CancelFactor(k, p, l, q, g);
      DividesIntro(p, q * l, k);
      CoprimeCancels(p, q, l);
      var j := DividesElim(p, l);
      Associate(j, p, y);
      DividesIntro(p * y, m, j);
    }
  }

  lemma Associate(j: int, p: int, y: int)
    ensures j * p * y == j * (p * y)
  {
  }

  lemma CancelFactor(k: int, p: int, l: int, q: int, g: int)
    requires g != 0 && k * (p * g) == l * (q * g)
    ensures k * p == q * l
  {
    assert (k * p - q * l) * g == 0 by {
      assert k * (p * g) == k * p * g;
      assert l * (q * g) == q * l * g;
    }
    MulSmall(k * p - q * l, g, 0);
  }

  lemma DividesFromAbs(d: int, n: int)
    requires Divides(d, n)
    ensures Divides(Abs(d), n)
  {
    var k := DividesElim(d, n);
    DividesIntro(Abs(d), n, if d < 0 then -k else k);
  }
}
