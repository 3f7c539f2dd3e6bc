/** `boost::rational`: the compound operators and comparisons on the fields `num` and `den`, over an
    integer type that is unbounded or has the symmetric range -limit..limit. */
module RationalClass {
  import opened NumberTheory
  import opened RationalValue

  /** How an operation ends: normally, by throwing `bad_rational`, or (undefined behaviour in C++)
      with an integer operation leaving the range of the integer type. */
  datatype Status = Fine | BadRational | Overflow

  predicate InRange(bounded: bool, limit: nat, x: int) { bounded ==> Abs(x) <= limit }

  // ----- the intermediate values of addition -----

  /** Every product and sum `operator+=` forms. */
  function SumSteps(a: Ratio, c: Ratio): seq<int>
    requires a.d > 0 && c.d > 0
  {
    var g := Gcd(a.d, c.d);
    var b1 := a.d / g;
    var n := a.n * (c.d / g) + c.n * b1;
    [a.n * (c.d / g), c.n * b1, n, b1 * (c.d / Gcd(n, g))]
  }

  /** Every product and difference `operator-=` forms. */
  function DifferenceSteps(a: Ratio, c: Ratio): seq<int>
    requires a.d > 0 && c.d > 0
  {
    var g := Gcd(a.d, c.d);
    var b1 := a.d / g;
    var n := a.n * (c.d / g) - c.n * b1;
    [a.n * (c.d / g), c.n * b1, n, b1 * (c.d / Gcd(n, g))]
  }

  lemma ProductBound(x: int, y: int, b: nat)
    requires Abs(x) <= b && Abs(y) <= b
    ensures Abs(x * y) <= b * b
  {
    NatProductBound(Abs(x), Abs(y), b);
    MulSigns(Abs(x), y);
    MulSigns(Abs(x), Abs(y));
  }

  lemma NatProductBound(p: nat, q: nat, b: nat)
    requires p <= b && q <= b
    ensures 0 <= p * q <= b * b
  {
    assert p * q <= b * q;
    assert b * q <= b * b;
  }

  lemma QuotientBound(n: int, d: int)
    requires d > 0 && Divides(d, n)
    ensures Abs(n / d) <= Abs(n)
  {
    ExactDiv(n, d);
  }

  lemma CofactorBound(n: int, g: int, d: int)
    requires g > 0 && Divides(g, d)
    ensures Abs(d / Gcd(n, g)) <= Abs(d)
  {
    GcdDivides(n, g);
    DividesTrans(Gcd(n, g), g, d);
    QuotientBound(d, Gcd(n, g));
  }

  /** Twice the square of the largest operand is room enough for addition and subtraction. */
  lemma SumStepsBounded(a: Ratio, c: Ratio, b: nat)
    requires a.d > 0 && c.d > 0 && Abs(a.n) <= b && a.d <= b && Abs(c.n) <= b && c.d <= b
    ensures forall x | x in SumSteps(a, c) + DifferenceSteps(a, c) :: Abs(x) <= 2 * (b * b)
  {
    var g := Gcd(a.d, c.d);
    var b1, d1 := a.d / g, c.d / g;
    GcdDivides(a.d, c.d);
    QuotientBound(a.d, g);
    QuotientBound(c.d, g);
    var n, m := a.n * d1 + c.n * b1, a.n * d1 - c.n * b1;
    CofactorBound(n, g, c.d);
    CofactorBound(m, g, c.d);
    StepsBound(a.n, d1, c.n, b1, b1, c.d / Gcd(n, g), b);
    StepsBound(a.n, d1, c.n, b1, b1, c.d / Gcd(m, g), b);
  }

  lemma StepsBound(x: int, y: int, u: int, v: int, w: int, z: int, b: nat)
    requires Abs(x) <= b && Abs(y) <= b && Abs(u) <= b && Abs(v) <= b && Abs(w) <= b && Abs(z) <= b
    ensures Abs(x * y) <= 2 * (b * b) && Abs(u * v) <= 2 * (b * b)
    ensures Abs(x * y + u * v) <= 2 * (b * b) && Abs(x * y - u * v) <= 2 * (b * b) && Abs(w * z) <= 2 * (b * b)
  {
    ProductBound(x, y, b);
    ProductBound(u, v, b);
    ProductBound(w, z, b);
    SumBound(x * y, u * v, b * b);
    SumBound(w * z, 0, b * b);
  }

  lemma SumBound(p: int, q: int, m: nat)
    requires Abs(p) <= m && Abs(q) <= m
    ensures Abs(p) <= 2 * m && Abs(q) <= 2 * m && Abs(p + q) <= 2 * m && Abs(p - q) <= 2 * m
  {
  }

  // ----- overflow although the result would fit -----

  predicate AllInRange(bounded: bool, limit: nat, xs: seq<int>) { forall x | x in xs :: InRange(bounded, limit, x) }

  predicate RatioInRange(bounded: bool, limit: nat, r: Ratio) {
    InRange(bounded, limit, r.n) && InRange(bounded, limit, r.d)
  }

  lemma FourInRange(bounded: bool, limit: nat, xs: seq<int>)
    requires |xs| == 4
    ensures AllInRange(bounded, limit, xs)
            <==> AllInRange(bounded, limit, xs[..3]) && InRange(bounded, limit, xs[3])
  {
    assert xs == xs[..3] + [xs[3]];
  }

  /** `operator+=` overflows on a sum that would fit exactly when one of the two cross products or
      their sum, which are formed before anything is cancelled, is out of range. */
  lemma SumGap(bounded: bool, limit: nat, a: Ratio, c: Ratio)
    requires Reduced(a) && Reduced(c)
    ensures a.d * c.d != 0
    ensures var sum := Normal(a.n * c.d + c.n * a.d, a.d * c.d);
            RatioInRange(bounded, limit, sum) && !AllInRange(bounded, limit, SumSteps(a, c))
            <==> RatioInRange(bounded, limit, sum) && !AllInRange(bounded, limit, SumSteps(a, c)[..3])
  {
    SumIsNormal(a, c);
    FourInRange(bounded, limit, SumSteps(a, c));
    assert SumSteps(a, c)[3] == Sum(a, c).d;
  }

  /** The same for `operator-=`. */
  lemma DifferenceGap(bounded: bool, limit: nat, a: Ratio, c: Ratio)
    requires Reduced(a) && Reduced(c)
    ensures a.d * c.d != 0
    ensures var difference := Normal(a.n * c.d - c.n * a.d, a.d * c.d);
            RatioInRange(bounded, limit, difference) && !AllInRange(bounded, limit, DifferenceSteps(a, c))
            <==> RatioInRange(bounded, limit, difference) && !AllInRange(bounded, limit, DifferenceSteps(a, c)[..3])
  {
    DifferenceIsNormal(a, c);
    FourInRange(bounded, limit, DifferenceSteps(a, c));
    assert DifferenceSteps(a, c)[3] == Difference(a, c).d;
  }

  lemma QuotientIs(n: int, d: int, k: int)
    requires d > 0 && n == k * d
    ensures n / d == k
  {
    DividesIntro(d, n, k);
    QuotientExact(d, n);
    QuotientsAgree(n / d, k, d, 0);
  }

  /** The cofactors of the denominators' gcd are those of their lcm, crosswise. */
  lemma LcmCofactors(x: int, y: int)
    requires x > 0 && y > 0
    ensures Lcm(x, y) / x == y / Gcd(x, y) && Lcm(x, y) / y == x / Gcd(x, y)
  {
    var g := Gcd(x, y);
    GcdQuotients(x, y);
    var p, q := x / g, y / g;
    assert Lcm(x, y) == p * y;
    Associate(p, q, g);
    Associate(q, p, g);
    assert p * q == q * p;
    QuotientIs(p * y, x, q);
    QuotientIs(p * y, y, p);
  }

  /** The products, the sum and the new denominator that `operator+=` forms: both fractions over the
      least common multiple of the denominators, and the denominator of the reduced sum. */
  lemma SumStepsByLcm(a: Ratio, c: Ratio)
    requires Reduced(a) && Reduced(c)
    ensures a.d * c.d != 0
    ensures var l := Lcm(a.d, c.d);
            var x, y := a.n * (l / a.d), c.n * (l / c.d);
            SumSteps(a, c) == [x, y, x + y, Normal(a.n * c.d + c.n * a.d, a.d * c.d).d]
  {
    LcmCofactors(a.d, c.d);
    SumIsNormal(a, c);
    assert SumSteps(a, c)[3] == Sum(a, c).d;
  }

  lemma DifferenceStepsByLcm(a: Ratio, c: Ratio)
    requires Reduced(a) && Reduced(c)
    ensures a.d * c.d != 0
    ensures var l := Lcm(a.d, c.d);
            var x, y := a.n * (l / a.d), c.n * (l / c.d);
            DifferenceSteps(a, c) == [x, y, x - y, Normal(a.n * c.d - c.n * a.d, a.d * c.d).d]
  {
    LcmCofactors(a.d, c.d);
    DifferenceIsNormal(a, c);
    assert DifferenceSteps(a, c)[3] == Difference(a, c).d;
  }

  lemma CoprimeSteps(a: Ratio, c: Ratio)
    requires Reduced(a) && Reduced(c) && Coprime(a.d, c.d)
    ensures SumSteps(a, c) == [a.n * c.d, c.n * a.d, a.n * c.d + c.n * a.d, a.d * c.d]
    ensures Sum(a, c) == Ratio(a.n * c.d + c.n * a.d, a.d * c.d)
  {
    var n := a.n * c.d + c.n * a.d;
    GcdDivides(n, 1);
    DividesOne(Gcd(n, 1));
  }

  /** There is no such gap between operands of one sign with coprime denominators: `operator+=`
      then overflows exactly on a sum that does not fit. */
  lemma CoprimeNoGap(bounded: bool, limit: nat, a: Ratio, c: Ratio)
    requires Reduced(a) && Reduced(c) && Coprime(a.d, c.d) && (a.n >= 0 <==> c.n >= 0)
    ensures a.d * c.d != 0
    ensures AllInRange(bounded, limit, SumSteps(a, c))
            <==> RatioInRange(bounded, limit, Normal(a.n * c.d + c.n * a.d, a.d * c.d))
  {
    SumIsNormal(a, c);
    CoprimeSteps(a, c);
    SameSign(a.n, c.d);
    SameSign(c.n, a.d);
    FourInRange(bounded, limit, SumSteps(a, c));
  }

  lemma SameSign(n: int, d: int)
    requires d > 0
    ensures n * d >= 0 <==> n >= 0
  {
    if n < 0 {
      MulBound(-n, d);
      MulSigns(n, d);
    } else {
      ScaleLe(0, n, d);
    }
  }

  lemma GapGcds()
    ensures Gcd(63, 4) == 1 && Gcd(47, 6) == 1 && Gcd(-47, 6) == 1 && Gcd(4, 6) == 2 && Gcd(95, 2) == 1
  {
    assert GcdNat(63, 4) == GcdNat(4, 3) == GcdNat(3, 1) == 1;
    assert GcdNat(47, 6) == GcdNat(6, 5) == GcdNat(5, 1) == 1;
    assert GcdNat(4, 6) == GcdNat(6, 4) == GcdNat(4, 2) == 2;
    assert GcdNat(95, 2) == GcdNat(2, 1) == 1;
  }

  /** In a range of -127..127, 63/4 and -47/6 are added by way of 189, though their sum is 95/12. */
  lemma SumGapExists()
    ensures var a, c := Ratio(63, 4), Ratio(-47, 6);
            Reduced(a) && Reduced(c) && RatioInRange(true, 127, a) && RatioInRange(true, 127, c)
            && Sum(a, c) == Ratio(95, 12) && !AllInRange(true, 127, SumSteps(a, c))
  {
    GapGcds();
    var steps := SumSteps(Ratio(63, 4), Ratio(-47, 6));
    assert steps[0] == 189 && steps[0] in steps;
  }

  /** And so are 63/4 and 47/6 subtracted. */
  lemma DifferenceGapExists()
    ensures var a, c := Ratio(63, 4), Ratio(47, 6);
            Reduced(a) && Reduced(c) && RatioInRange(true, 127, a) && RatioInRange(true, 127, c)
            && Difference(a, c) == Ratio(95, 12) && !AllInRange(true, 127, DifferenceSteps(a, c))
  {
    GapGcds();
    var steps := DifferenceSteps(Ratio(63, 4), Ratio(47, 6));
    assert steps[0] == 189 && steps[0] in steps;
  }

  // ----- comparison by continued fractions -----

  /** One side of the comparison: n/d with its quotient and remainder. */
  datatype Side = Side(n: int, d: int, q: int, r: int) {
    predicate Valid() { d > 0 && n == q * d + r && 0 <= r < d }

    predicate Fits(bounded: bool, limit: nat) {
      InRange(bounded, limit, n) && InRange(bounded, limit, d)
      && InRange(bounded, limit, q) && InRange(bounded, limit, r)
    }
  }

  predicate Below(t: Side, u: Side) { t.n * u.d < u.n * t.d }

  /** Different quotients decide. */
  lemma QuotientsDecide(t: Side, u: Side)
    requires t.Valid() && u.Valid() && t.q < u.q
    ensures Below(t, u) && !Below(u, t)
  {
    assert t.n < u.q * t.d by {
      assert (t.q + 1) * t.d <= u.q * t.d by { ScaleLe(t.q + 1, u.q, t.d); }
      assert (t.q + 1) * t.d == t.q * t.d + t.d;
    }
    assert t.n * u.d < u.q * t.d * u.d by { ScaleLt(t.n, u.q * t.d, u.d); }
    assert u.q * u.d * t.d <= u.n * t.d by { ScaleLe(u.q * u.d, u.n, t.d); }
    assert u.q * t.d * u.d == u.q * u.d * t.d;
  }

  lemma ScaleLt(a: int, b: int, d: int)
    requires a < b && d > 0
    ensures a * d < b * d
  {
  }

  /** With equal quotients, the comparison is that of the remainders over the denominators. */
  lemma RemaindersDecide(t: Side, u: Side)
    requires t.Valid() && u.Valid() && t.q == u.q
    ensures t.n * u.d - u.n * t.d == t.r * u.d - u.r * t.d
  {
    assert t.n * u.d == t.q * t.d * u.d + t.r * u.d;
    assert u.n * t.d == u.q * u.d * t.d + u.r * t.d;
    assert t.q * t.d * u.d == u.q * u.d * t.d;
  }

  /** The next pair of sides, the reciprocals of the fractional parts. */
  function Next(t: Side): Side
    requires t.r > 0
  {
    Side(t.d, t.r, TruncDiv(t.d, t.r), TruncMod(t.d, t.r))
  }

  lemma NextValid(t: Side, bounded: bool, limit: nat)
    requires t.Valid() && t.r > 0 && t.Fits(bounded, limit)
    ensures Next(t).Valid() && Next(t).Fits(bounded, limit)
  {
    TruncDivMod(t.d, t.r);
  }

  /** Going to the reciprocals of the fractional parts reverses the comparison. */
  lemma NextReverses(t: Side, u: Side)
    requires t.Valid() && u.Valid() && t.q == u.q && t.r > 0 && u.r > 0
    ensures Below(t, u) <==> Below(Next(u), Next(t))
  {
    RemaindersDecide(t, u);
  }

  class Rational {
    const bounded: bool
    const limit: nat
    var num: int
    var den: int

    predicate Fits(x: int) { InRange(bounded, limit, x) }

    function Value(): Ratio
      reads this
    {
      Ratio(num, den)
    }

    /** `test_invariant`, on fields the integer type can hold. */
    predicate Valid()
      reads this
    {
      den > 0 && Gcd(num, den) == 1 && Fits(num) && Fits(den)
    }

    predicate SameType(r: Rational) { r.bounded == bounded && r.limit == limit }

    constructor (bounded: bool, limit: nat)
      requires bounded ==> limit >= 1
      ensures Valid() && Value() == Ratio(0, 1) && this.bounded == bounded && this.limit == limit
    {
      this.bounded, this.limit := bounded, limit;
      num, den := 0, 1;
    }

    /** `normalize` on whatever the two fields hold. */
    method Normalize() returns (s: Status)
      requires Fits(num) && Fits(den) && (bounded ==> limit >= 1)
      modifies this
      ensures s == if old(den) == 0 then BadRational else Fine
      ensures s.Fine? ==> Valid() && Value() == Normal(old(num), old(den))
      ensures s.BadRational? ==> Value() == old(Value())
    {
      if den == 0 {
        return BadRational;
      }
      NormalCorrect(num, den);
      if num == 0 {
        NormalUnique(Ratio(0, 1), num, den);
        den := 1;
        return Fine;
      }
      var g := Gcd(num, den);
      GcdDivides(num, den);
      ExactDiv(num, g);
      ExactDiv(den, g);
      GcdQuotients(num, den);
      SignOfQuotient(den / g, g, den);
      num := TruncDiv(num, g);
      den := TruncDiv(den, g);
      if den < 0 {
        num := -num;
        den := -den;
      }
      return Fine;
    }

    /** `operator+=`. */
    method AddAssign(r: Rational) returns (s: Status)
      requires Valid() && r.Valid() && SameType(r)
      modifies this
      ensures s == if AllInRange(bounded, limit, SumSteps(old(Value()), old(r.Value()))) then Fine else Overflow
      ensures s.Fine? ==> Valid()
      ensures s.Fine? ==>
        Value() == Normal(old(num) * old(r.den) + old(r.num) * old(den), old(den) * old(r.den))
    {
      var rNum, rDen := r.num, r.den;
      ghost var a, c := Value(), r.Value();
      SumIsNormal(a, c);
      NormalCorrect(a.n * c.d + c.n * a.d, a.d * c.d);
      var g := Gcd(den, rDen);
      GcdDivides(den, rDen);
      ExactDiv(den, g);
      ExactDiv(rDen, g);
      den := TruncDiv(den, g);
      var left, right := num * TruncDiv(rDen, g), rNum * den;
      ghost var steps := SumSteps(a, c);
      assert left == steps[0] && right == steps[1] && left + right == steps[2];
      if !Fits(left) || !Fits(right) || !Fits(left + right) {
        return Overflow;
      }
      num := left + right;
      ghost var n := num;
      var h := Gcd(num, g);
      GcdDivides(num, g);
      DividesTrans(h, g, rDen);
      ExactDiv(num, h);
      ExactDiv(rDen, h);
      num := TruncDiv(num, h);
      den := den * TruncDiv(rDen, h);
      assert den == steps[3];
      if !Fits(den) {
        return Overflow;
      }
      assert Value() == Sum(a, c);
      return Fine;
    }

    /** `operator-=`. */
    method SubAssign(r: Rational) returns (s: Status)
      requires Valid() && r.Valid() && SameType(r)
      modifies this
      ensures s == if AllInRange(bounded, limit, DifferenceSteps(old(Value()), old(r.Value()))) then Fine else Overflow
      ensures s.Fine? ==> Valid()
      ensures s.Fine? ==>
        Value() == Normal(old(num) * old(r.den) - old(r.num) * old(den), old(den) * old(r.den))
    {
      var rNum, rDen := r.num, r.den;
      ghost var a, c := Value(), r.Value();
      DifferenceIsNormal(a, c);
      NormalCorrect(a.n * c.d - c.n * a.d, a.d * c.d);
      var g := Gcd(den, rDen);
      GcdDivides(den, rDen);
      ExactDiv(den, g);
      ExactDiv(rDen, g);
      den := TruncDiv(den, g);
      var left, right := num * TruncDiv(rDen, g), rNum * den;
      ghost var steps := DifferenceSteps(a, c);
      assert left == steps[0] && right == steps[1] && left - right == steps[2];
      if !Fits(left) || !Fits(right) || !Fits(left - right) {
        return Overflow;
      }
      num := left - right;
      ghost var n := num;
      var h := Gcd(num, g);
      GcdDivides(num, g);
      DividesTrans(h, g, rDen);
      ExactDiv(num, h);
      ExactDiv(rDen, h);
      num := TruncDiv(num, h);
      den := den * TruncDiv(rDen, h);
      assert den == steps[3];
      if !Fits(den) {
        return Overflow;
      }
      assert Value() == Difference(a, c);
      return Fine;
    }

    /** `operator*=`: overflows only if the reduced product itself does not fit. */
    method MulAssign(r: Rational) returns (s: Status)
      requires Valid() && r.Valid() && SameType(r)
      modifies this
      ensures old(den) * old(r.den) != 0
      ensures var p := Normal(old(num) * old(r.num), old(den) * old(r.den));
              s == (if Fits(p.n) && Fits(p.d) then Fine else Overflow)
              && (s.Fine? ==> Valid() && Value() == p)
    {
      var rNum, rDen := r.num, r.den;
      ghost var a, c := Value(), r.Value();
      ProductIsNormal(a, c);
      NormalCorrect(a.n * c.n, a.d * c.d);
      var gcd1 := Gcd(num, rDen);
      var gcd2 := Gcd(rNum, den);
      GcdDivides(num, rDen);
      GcdDivides(rNum, den);
      ExactDiv(num, gcd1);
      ExactDiv(rNum, gcd2);
      ExactDiv(den, gcd2);
      ExactDiv(rDen, gcd1);
      var n1, n2 := TruncDiv(num, gcd1), TruncDiv(rNum, gcd2);
      var d1, d2 := TruncDiv(den, gcd2), TruncDiv(rDen, gcd1);
      if !Fits(n1) || !Fits(n2) || !Fits(n1 * n2) {
        return Overflow;
      }
      num := n1 * n2;
      if !Fits(d1) || !Fits(d2) || !Fits(d1 * d2) {
        return Overflow;
      }
      den := d1 * d2;
      return Fine;
    }

    /** `operator/=`: likewise; division by zero throws and changes nothing. */
    method DivAssign(r: Rational) returns (s: Status)
      requires Valid() && r.Valid() && SameType(r)
      modifies this
      ensures s.BadRational? <==> old(r.num) == 0
      ensures s.BadRational? ==> Value() == old(Value())
      ensures old(r.num) != 0 ==>
        old(den) * old(r.num) != 0
        && var p := Normal(old(num) * old(r.den), old(den) * old(r.num));
           s == (if Fits(p.n) && Fits(p.d) then Fine else Overflow)
           && (s.Fine? ==> Valid() && Value() == p)
    {
      var rNum, rDen := r.num, r.den;
      if rNum == 0 {
        return BadRational;
      }
      ghost var a, c := Value(), r.Value();
      QuotientIsNormal(a, c);
      NormalCorrect(a.n * c.d, a.d * c.n);
      if num == 0 {
        NormalUnique(a, a.n * c.d, a.d * c.n);
        return Fine;
      }
      var gcd1 := Gcd(num, rNum);
      var gcd2 := Gcd(rDen, den);
      GcdDivides(num, rNum);
      GcdDivides(rDen, den);
      ExactDiv(num, gcd1);
      ExactDiv(rNum, gcd1);
      ExactDiv(den, gcd2);
      ExactDiv(rDen, gcd2);
      var n1, n2 := TruncDiv(num, gcd1), TruncDiv(rDen, gcd2);
      var d1, d2 := TruncDiv(den, gcd2), TruncDiv(rNum, gcd1);
      if !Fits(n1) || !Fits(n2) || !Fits(n1 * n2) {
        return Overflow;
      }
      num := n1 * n2;
      if !Fits(d1) || !Fits(d2) || !Fits(d1 * d2) {
        return Overflow;
      }
      den := d1 * d2;
      assert Value() == Cross(a.n, a.d, c.d, c.n);
      if den < 0 {
        num := -num;
        den := -den;
      }
      return Fine;
    }

    /** `operator<`: the two continued-fraction expansions in lockstep. It terminates, never leaves
        the range of the integer type, and compares the exact values. */
    method Less(r: Rational) returns (s: Status, less: bool)
      requires Valid() && r.Valid() && SameType(r)
      ensures s.Fine? && (less <==> num * r.den < r.num * den)
    {
      TruncDivMod(num, den);
      TruncDivMod(r.num, r.den);
      var ts := Side(num, den, TruncDiv(num, den), TruncMod(num, den));
      var rs := Side(r.num, r.den, TruncDiv(r.num, r.den), TruncMod(r.num, r.den));
      ts := FloorSide(ts);
      rs := FloorSide(rs);
      var reverse := false;
      while true
        invariant ts.Valid() && rs.Valid() && ts.Fits(bounded, limit) && rs.Fits(bounded, limit)
        invariant num * r.den < r.num * den <==> if reverse then Below(rs, ts) else Below(ts, rs)
        decreases ts.d
      {
        if !ts.Fits(bounded, limit) || !rs.Fits(bounded, limit) {
          return Overflow, false;
        }
        if ts.q != rs.q {
          if ts.q < rs.q {
            QuotientsDecide(ts, rs);
          } else {
            QuotientsDecide(rs, ts);
          }
          return Fine, if reverse then ts.q > rs.q else ts.q < rs.q;
        }
        reverse := !reverse;
        RemaindersDecide(ts, rs);
        if ts.r == 0 || rs.r == 0 {
          break;
        }
        NextReverses(ts, rs);
        NextReverses(rs, ts);
        NextValid(ts, bounded, limit);
        NextValid(rs, bounded, limit);
        ts := Next(ts);
        rs := Next(rs);
      }
      PositiveTimes(ts.r, rs.d);
      PositiveTimes(rs.r, ts.d);
      if ts.r == rs.r {
        return Fine, false;
      } else {
        return Fine, (ts.r != 0) != reverse;
      }
    }

    /** The first cycle's correction of a negative remainder: at most one turn. */
    method FloorSide(t: Side) returns (u: Side)
      requires t.d > 0 && t.n == t.q * t.d + t.r && Abs(t.r) < t.d && Abs(t.q) <= Abs(t.n)
      requires t.n < 0 ==> t.r <= 0
      requires t.n >= 0 ==> t.r >= 0
      requires InRange(bounded, limit, t.n) && InRange(bounded, limit, t.d)
      ensures u.Valid() && u.n == t.n && u.d == t.d && u.Fits(bounded, limit)
    {
      u := t;
      while u.r < 0
        invariant u == t || (t.r < 0 && u == Side(t.n, t.d, t.q - 1, t.r + t.d))
        decreases -u.r
      {
        u := u.(r := u.r + u.d, q := u.q - 1);
      }
      if t.r < 0 {
        assert t.n == (t.q - 1) * t.d + (t.r + t.d);
        FloorSmall(t);
      }
    }

    lemma FloorSmall(t: Side)
      requires t.d > 0 && t.n == t.q * t.d + t.r && -t.d < t.r < 0
      ensures Abs(t.q - 1) <= Abs(t.n) || Abs(t.q - 1) <= t.d
    {
      if t.q > 0 {
        ScaleLe(1, t.q, t.d);
      } else if t.q < 0 {
        assert t.q * t.d <= 2 * t.q by {
          ScaleLe(t.q, -1, t.d);
          FloorScale(t.q, t.d);
        }
      }
    }

    lemma FloorScale(q: int, d: int)
      requires q < 0 && d >= 2
      ensures q * d <= 2 * q
    {
      assert q * (d - 2) <= 0;
    }

    lemma PositiveTimes(r: int, d: int)
      requires r >= 0 && d > 0
      ensures r * d >= 0 && (r * d == 0 <==> r == 0)
    {
    }

    /** `operator<` against an integer: the floor of the value decides. */
    method LessInt(i: int) returns (less: bool)
      requires Valid()
      ensures less <==> num < i * den
    {
      TruncDivMod(num, den);
      var t := FloorSide(Side(num, den, TruncDiv(num, den), TruncMod(num, den)));
      less := t.q < i;
      if less {
        ScaleLe(t.q + 1, i, den);
        assert (t.q + 1) * den == t.q * den + den;
      } else {
        ScaleLe(i, t.q, den);
      }
    }

    /** `operator*=` by an integer. */
    method MulAssignInt(i: int) returns (s: Status)
      requires Valid() && Fits(i)
      modifies this
      ensures var p := Normal(old(num) * i, old(den));
              s == (if Fits(p.n) && Fits(p.d) then Fine else Overflow)
              && (s.Fine? ==> Valid() && Value() == p)
    {
      ghost var a := Value();
      GcdOne(num);
      GcdOne(i);
      ProductIsNormal(a, Ratio(i, 1));
      NormalCorrect(num * i, den);
      var g := Gcd(i, den);
      GcdDivides(i, den);
      ExactDiv(i, g);
      ExactDiv(den, g);
      assert Cross(num, den, i, 1) == Ratio(num * (i / g), den / g);
      var factor := TruncDiv(i, g);
      if !Fits(factor) || !Fits(num * factor) {
        return Overflow;
      }
      num := num * factor;
      den := TruncDiv(den, g);
      return Fine;
    }

    /** `operator/=` by an integer. */
    method DivAssignInt(i: int) returns (s: Status)
      requires Valid() && Fits(i)
      modifies this
      ensures s.BadRational? <==> i == 0
      ensures s.BadRational? ==> Value() == old(Value())
      ensures i != 0 ==>
        old(den) * i != 0
        && var p := Normal(old(num), old(den) * i);
           s == (if Fits(p.n) && Fits(p.d) then Fine else Overflow)
           && (s.Fine? ==> Valid() && Value() == p)
    {
      if i == 0 {
        return BadRational;
      }
      ghost var a := Value();
      GcdOne(i);
      GcdOne(den);
      SignOfProduct(den, i);
      QuotientIsNormal(a, Ratio(i, 1));
      NormalCorrect(num, den * i);
      if num == 0 {
        NormalUnique(a, num, den * i);
        return Fine;
      }
      var g := Gcd(num, i);
      GcdDivides(num, i);
      ExactDiv(num, g);
      ExactDiv(i, g);
      GcdSymmetric(1, den);
      assert Cross(num, den, 1, i) == Ratio(num / g, den * (i / g));
      num := TruncDiv(num, g);
      var factor := TruncDiv(i, g);
      if !Fits(num) || !Fits(factor) || !Fits(den * factor) {
        return Overflow;
      }
      den := den * factor;
      if den < 0 {
        num := -num;
        den := -den;
      }
      return Fine;
    }

    lemma GcdOne(n: int)
      ensures Gcd(n, 1) == 1 && Gcd(1, n) == 1
    {
      GcdDivides(n, 1);
      DividesOne(Gcd(n, 1));
      GcdSymmetric(n, 1);
    }

    /** `operator+=` by an integer: the result needs no reduction. */
    method AddAssignInt(i: int) returns (s: Status)
      requires Valid()
      modifies this
      ensures s == if Fits(i * old(den)) && Fits(old(num) + i * old(den)) then Fine else Overflow
      ensures s.Fine? ==> Valid() && Value() == Normal(old(num) + i * old(den), old(den))
    {
      CoprimeAddMultiple(num, den, i);
      var product := i * den;
      NormalUnique(Ratio(num + product, den), num + product, den);
      if !Fits(product) || !Fits(num + product) {
        return Overflow;
      }
      num := num + product;
      return Fine;
    }
  }
}
