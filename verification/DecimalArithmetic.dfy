/** Decimal arithmetic at 38 significant digits with half-even rounding. */
module DecimalArithmetic {
  import opened Common

  const PRECISION: nat := 38

  function Pow10(n: nat): (r: nat)
    ensures r >= 1
  {
    if n == 0 then 1 else 10 * Pow10(n - 1)
  }

  /** 10 to any integer power. */
  function Unit(e: int): (r: real)
    ensures r > 0.0
  {
    if e >= 0 then Pow10(e) as real else 1.0 / Pow10(-e) as real
  }

  /** coefficient * 10^exponent. */
  datatype Decimal = Decimal(coefficient: int, exponent: int)

  function Value(x: Decimal): real {
    Times(x.coefficient as real, Unit(x.exponent))
  }

  lemma UnitStep(e: int)
    ensures Unit(e + 1) == 10.0 * Unit(e)
  {
    if e < -1 {
      var p := Pow10(-e - 1) as real;
      assert Pow10(-e) as real == 10.0 * p;
      assert 1.0 / p == 10.0 * (1.0 / (10.0 * p));
    } else if e == -1 {
      assert Pow10(1) == 10 * Pow10(0);
    }
  }

  // ---- Rounding a quotient to an integer ----

  function RoundHalfEven(n: nat, d: nat): nat
    requires d > 0
  {
    var q, r := n / d, n % d;
    if 2 * r < d || (2 * r == d && q % 2 == 0) then q else q + 1
  }

  function Distance(p: int, n: nat, d: nat): nat {
    if p * d >= n then p * d - n else n - p * d
  }

  /** The rounded quotient is within half, and no integer is nearer; on a tie it is even. */
  lemma RoundedNearest(n: nat, d: nat, p: int)
    requires d > 0
    ensures 2 * Distance(RoundHalfEven(n, d), n, d) <= d
    ensures Distance(RoundHalfEven(n, d), n, d) <= Distance(p, n, d)
    ensures p != RoundHalfEven(n, d) && Distance(p, n, d) == Distance(RoundHalfEven(n, d), n, d) ==>
      RoundHalfEven(n, d) % 2 == 0
  {
    var q, r := n / d, n % d;
    assert n == q * d + r;
    assert (q + 1) * d == q * d + d;
    if p <= q {
      MultipleLe(p, q, d);
      if p < q { MultipleLe(p, q - 1, d); assert (q - 1) * d == q * d - d; }
    } else {
      MultipleLe(q + 1, p, d);
      if p > q + 1 { MultipleLe(q + 2, p, d); assert (q + 2) * d == q * d + 2 * d; }
    }
  }

  lemma MultipleLe(a: int, b: int, d: nat)
    requires a <= b
    ensures a * d <= b * d
  {}

  // ---- Bringing a quotient to 38 significant digits ----

  /** n / d equals the original quotient times 10^shift. */
  datatype Scaled = Scaled(n: nat, d: nat, shift: int)

  /** At most 38 digits before the point. */
  predicate Narrow(s: Scaled) {
    s.n < Pow10(PRECISION) * s.d
  }

  /** At least 38 digits before the point. */
  predicate Full(s: Scaled) {
    Pow10(PRECISION - 1) * s.d <= s.n
  }

  lemma WideDivisor(s: Scaled)
    requires !Narrow(s)
    ensures s.n >= s.d
  {
    hide Pow10;
    MultipleLe(1, Pow10(PRECISION), s.d);
  }

  lemma ShortNumerator(s: Scaled)
    requires !Full(s)
    ensures Narrow(Scaled(10 * s.n, s.d, s.shift + 1))
  {
    hide Pow10;
    PowStep(PRECISION - 1);
    assert 10 * (Pow10(PRECISION - 1) * s.d) == Pow10(PRECISION) * s.d;
  }

  lemma PowStep(n: nat)
    ensures Pow10(n + 1) == 10 * Pow10(n)
  {}

  function ScaleDown(s: Scaled): (r: Scaled)
    requires s.d > 0
    ensures r.d > 0 && Narrow(r) && r.n == s.n
    decreases s.n - s.d
  {
    if Narrow(s) then s
    else
      WideDivisor(s);
      ScaleDown(Scaled(s.n, 10 * s.d, s.shift - 1))
  }

  function ScaleUp(s: Scaled): (r: Scaled)
    requires s.d > 0 && s.n > 0 && Narrow(s)
    ensures r.d == s.d && Full(r) && Narrow(r)
    decreases Pow10(PRECISION - 1) * s.d - s.n
  {
    if Full(s) then s
    else
      ShortNumerator(s);
      ScaleUp(Scaled(10 * s.n, s.d, s.shift + 1))
  }

  function Normalise(n: nat, d: nat): Scaled
    requires n > 0 && d > 0
  {
    ScaleUp(ScaleDown(Scaled(n, d, 0)))
  }

  function Abs(n: int): nat {
    if n < 0 then -n else n
  }

  /** numerator * 10^exponent / divisor, rounded half-even to 38 significant digits. */
  function Quotient(numerator: int, exponent: int, divisor: nat): Decimal
    requires divisor > 0
  {
    if numerator == 0 then Decimal(0, exponent)
    else
      var s := Normalise(Abs(numerator), divisor);
      var q := RoundHalfEven(s.n, s.d);
      var sign := if numerator < 0 then -1 else 1;
      if q == Pow10(PRECISION) then Decimal(sign * Pow10(PRECISION - 1), exponent - s.shift + 1)
      else Decimal(sign * q, exponent - s.shift)
  }

  /** The exponent of the last of the 38 digits. */
  function LastDigit(numerator: int, exponent: int, divisor: nat): int
    requires divisor > 0 && numerator != 0
  {
    exponent - Normalise(Abs(numerator), divisor).shift
  }

  // ---- Accuracy ----

  function Ratio(s: Scaled): real
    requires s.d > 0
  {
    s.n as real / s.d as real
  }

  lemma RatioDown(s: Scaled)
    requires s.d > 0
    ensures Times(Ratio(Scaled(s.n, 10 * s.d, s.shift - 1)), Unit(-(s.shift - 1))) == Times(Ratio(s), Unit(-s.shift))
  {
    UnitStep(-s.shift);
    var x, d, u := s.n as real, s.d as real, Unit(-s.shift);
    assert (10 * s.d) as real == 10.0 * d;
    assert x / (10.0 * d) == (x / d) / 10.0;
    assert ((x / d) / 10.0) * (10.0 * u) == (x / d) * u;
  }

  lemma RatioUp(s: Scaled)
    requires s.d > 0
    ensures Times(Ratio(Scaled(10 * s.n, s.d, s.shift + 1)), Unit(-(s.shift + 1))) == Times(Ratio(s), Unit(-s.shift))
  {
    UnitStep(-s.shift - 1);
    var x, d, u := s.n as real, s.d as real, Unit(-s.shift - 1);
    assert (10 * s.n) as real == 10.0 * x;
    assert (10.0 * x) / d == 10.0 * (x / d);
    assert (10.0 * (x / d)) * u == (x / d) * (10.0 * u);
  }

  lemma {:induction false} ScaleDownValue(s: Scaled)
    requires s.d > 0
    ensures Times(Ratio(ScaleDown(s)), Unit(-ScaleDown(s).shift)) == Times(Ratio(s), Unit(-s.shift))
    decreases s.n - s.d
  {
    hide Times, Unit, Ratio, Pow10;
    if !Narrow(s) {
      WideDivisor(s);
      RatioDown(s);
      ScaleDownValue(Scaled(s.n, 10 * s.d, s.shift - 1));
    }
  }

  lemma {:induction false} ScaleUpValue(s: Scaled)
    requires s.d > 0 && s.n > 0 && Narrow(s)
    ensures Times(Ratio(ScaleUp(s)), Unit(-ScaleUp(s).shift)) == Times(Ratio(s), Unit(-s.shift))
    decreases Pow10(PRECISION - 1) * s.d - s.n
  {
    hide Pow10, Times, Unit, Ratio;
    if !Full(s) {
      ShortNumerator(s);
      RatioUp(s);
      ScaleUpValue(Scaled(10 * s.n, s.d, s.shift + 1));
    }
  }

  lemma {:induction false} UnitAdd(a: int, b: int)
    ensures Unit(a + b) == Times(Unit(a), Unit(b))
    decreases if a < 0 then -a else a
  {
    if a == 0 {
      assert Unit(0) == 1.0;
    } else if a > 0 {
      UnitAdd(a - 1, b);
      UnitStep(a - 1);
      UnitStep(a - 1 + b);
      Associate(10.0, Unit(a - 1), Unit(b));
    } else {
      UnitAdd(a + 1, b);
      UnitStep(a);
      UnitStep(a + b);
      Associate(10.0, Unit(a), Unit(b));
    }
  }

  lemma Associate(a: real, b: real, c: real)
    ensures Times(a * b, c) == a * Times(b, c) && Times(Times(a, b), c) == Times(a, Times(b, c))
  {}

  lemma Signs(a: real, b: real)
    ensures Times(-a, b) == -Times(a, b)
  {}

  lemma NormaliseValue(n: nat, d: nat)
    requires n > 0 && d > 0
    ensures var s := Normalise(n, d);
      && s.d > 0 && Full(s) && Narrow(s)
      && Times(Ratio(s), Unit(-s.shift)) == n as real / d as real
  {
    assert Unit(0) == 1.0;
    hide Pow10, Times, Unit, Ratio, ScaleUp, ScaleDown, Full, Narrow;
    var start := Scaled(n, d, 0);
    ScaleDownValue(start);
    ScaleUpValue(ScaleDown(start));
    assert Times(Ratio(start), 1.0) == n as real / d as real by { UnscaledRatio(n, d); }
  }

  lemma UnscaledRatio(n: nat, d: nat)
    requires d > 0
    ensures Times(Ratio(Scaled(n, d, 0)), 1.0) == n as real / d as real
  {}

  lemma FloorBounds(n: nat, d: nat, low: nat, high: nat)
    requires d > 0 && low * d <= n < high * d
    ensures low <= n / d < high
  {
    var f := n / d;
    assert n == f * d + n % d && (f + 1) * d == f * d + d;
    if f < low { MultipleLe(f + 1, low, d); }
    if f >= high { MultipleLe(high, f, d); }
  }

  lemma RoundedWithin(s: Scaled)
    requires s.d > 0 && Full(s) && Narrow(s)
    ensures var q := RoundHalfEven(s.n, s.d);
      && Pow10(PRECISION - 1) <= q <= Pow10(PRECISION)
      && -0.5 <= q as real - Ratio(s) <= 0.5
  {
    hide Pow10;
    var q := RoundHalfEven(s.n, s.d);
    RoundedNearest(s.n, s.d, q);
    FloorBounds(s.n, s.d, Pow10(PRECISION - 1), Pow10(PRECISION));
    QuotientGap(q, s.n, s.d);
  }

  lemma QuotientGap(q: nat, n: nat, d: nat)
    requires d > 0 && 2 * Distance(q, n, d) <= d
    ensures -0.5 <= q as real - n as real / d as real <= 0.5
  {
    hide Times;
    var x, y, g := n as real, d as real, q as real;
    var z := x / y;
    WholeProduct(q, d);
    QuotientBack(x, y);
    Factored(g, z, y);
    BoundByFactor(2.0 * (g - z), y);
  }

  lemma WholeProduct(q: nat, d: nat)
    ensures Times(q as real, d as real) == (q * d) as real
  {}

  lemma QuotientBack(x: real, y: real)
    requires y != 0.0
    ensures Times(x / y, y) == x
  {}

  lemma Factored(g: real, z: real, y: real)
    ensures Times(2.0 * (g - z), y) == 2.0 * (Times(g, y) - Times(z, y))
  {}

  lemma BoundByFactor(t: real, y: real)
    requires y > 0.0 && -y <= Times(t, y) <= y
    ensures -1.0 <= t <= 1.0
  {}

  /** An exact half is a tie, and a tie goes to the even integer. */
  lemma HalfIsEven(s: Scaled)
    requires s.d > 0
    ensures var q := RoundHalfEven(s.n, s.d);
      q as real - Ratio(s) == 0.5 || q as real - Ratio(s) == -0.5 ==> q % 2 == 0
  {
    hide Times;
    var q := RoundHalfEven(s.n, s.d);
    var x, y, g := s.n as real, s.d as real, q as real;
    WholeProduct(q, s.d);
    QuotientBack(x, y);
    Factored(g, x / y, y);
    HalfTimes(y);
    if g - x / y == 0.5 || g - x / y == -0.5 {
      assert 2 * Distance(q, s.n, s.d) == s.d;
      NextAway(q, s.n, s.d);
      RoundedNearest(s.n, s.d, if q * s.d >= s.n then q - 1 else q + 1);
    }
  }

  lemma HalfTimes(y: real)
    ensures Times(2.0 * 0.5, y) == y && Times(2.0 * -0.5, y) == -y
  {}

  lemma NextAway(q: int, n: nat, d: nat)
    requires 2 * Distance(q, n, d) == d
    ensures Distance(if q * d >= n then q - 1 else q + 1, n, d) == Distance(q, n, d)
  {
    assert (q - 1) * d == q * d - d && (q + 1) * d == q * d + d;
  }

  /** r is x to 38 significant digits: within half a unit of the last of them, and even at exactly half. */
  ghost predicate Rounds(r: Decimal, x: real, last: int) {
    && Pow10(37) <= Abs(r.coefficient) < Pow10(38)
    && r.exponent - 1 <= last <= r.exponent && (last < r.exponent ==> Abs(r.coefficient) == Pow10(37))
    && -Unit(last) / 2.0 <= Value(r) - x <= Unit(last) / 2.0
    && (Value(r) - x == Unit(last) / 2.0 || Value(r) - x == -Unit(last) / 2.0 ==> r.coefficient % 2 == 0)
  }

  lemma HalfGap(a: real, b: real, u: real)
    requires u > 0.0
    ensures Times(a, u) - Times(b, u) == u / 2.0 ==> a - b == 0.5
    ensures Times(a, u) - Times(b, u) == -u / 2.0 ==> a - b == -0.5
  {
    assert Times(a, u) - Times(b, u) == (a - b) * u;
    if Times(a, u) - Times(b, u) == u / 2.0 { NoFactor(a - b - 0.5, u); }
    if Times(a, u) - Times(b, u) == -u / 2.0 { NoFactor(a - b + 0.5, u); }
  }

  lemma NoFactor(t: real, u: real)
    requires t * u == 0.0 && u > 0.0
    ensures t == 0.0
  {}

  lemma ProductNonNegative(a: real, b: real)
    requires a >= 0.0 && b >= 0.0
    ensures a * b >= 0.0
  {}

  lemma ScaledGap(a: real, b: real, u: real)
    requires u > 0.0 && -0.5 <= a - b <= 0.5
    ensures -u / 2.0 <= Times(a, u) - Times(b, u) <= u / 2.0
  {
    assert Times(a, u) - Times(b, u) == (a - b) * u;
    ProductNonNegative(0.5 - (a - b), u);
    ProductNonNegative((a - b) + 0.5, u);
    assert (0.5 - (a - b)) * u == u / 2.0 - (a - b) * u;
    assert ((a - b) + 0.5) * u == (a - b) * u + u / 2.0;
  }

  /** The exact quotient. */
  function Exact(numerator: int, exponent: int, divisor: nat): real
    requires divisor > 0
  {
    Times(numerator as real / divisor as real, Unit(exponent))
  }

  lemma {:induction false} PositiveQuotient(n: nat, exponent: int, d: nat)
    requires n > 0 && d > 0
    ensures Rounds(Quotient(n, exponent, d), Exact(n, exponent, d), LastDigit(n, exponent, d))
    ensures Quotient(n, exponent, d).coefficient > 0
  {
    hide Times, Unit, Pow10, RoundHalfEven, Normalise;
    var s := Normalise(n, d);
    NormaliseValue(n, d);
    RoundedWithin(s);
    HalfIsEven(s);
    var q, last := RoundHalfEven(s.n, s.d), exponent - s.shift;
    ScaledGap(q as real, Ratio(s), Unit(last));
    HalfGap(q as real, Ratio(s), Unit(last));
    UnitAdd(-s.shift, exponent);
    Associate(Ratio(s), Unit(-s.shift), Unit(exponent));
    assert Exact(n, exponent, d) == Times(Ratio(s), Unit(last));
    TopDigit(last);
    TopEven();
  }

  lemma TopEven()
    ensures Pow10(PRECISION - 1) % 2 == 0
  {
    hide Pow10;
    PowStep(PRECISION - 2);
    Tens(Pow10(PRECISION - 2));
  }

  lemma Tens(x: nat)
    ensures (10 * x) % 2 == 0
  {}

  /** 10^38 units are 10^37 units of ten. */
  lemma TopDigit(e: int)
    ensures Pow10(PRECISION - 1) < Pow10(PRECISION)
    ensures Times(Pow10(PRECISION - 1) as real, Unit(e + 1)) == Times(Pow10(PRECISION) as real, Unit(e))
  {
    hide Pow10, Unit;
    PowStep(PRECISION - 1);
    UnitStep(e);
    var p, u := Pow10(PRECISION - 1) as real, Unit(e);
    assert Pow10(PRECISION) as real == 10.0 * p;
    assert p * (10.0 * u) == (10.0 * p) * u;
  }

  /** AOV arithmetic: the result is the exact quotient to 38 significant digits, half to even. */
  lemma {:induction false} QuotientAccurate(numerator: int, exponent: int, divisor: nat)
    requires divisor > 0 && numerator != 0
    ensures Rounds(Quotient(numerator, exponent, divisor), Exact(numerator, exponent, divisor),
                   LastDigit(numerator, exponent, divisor))
  {
    hide Times, Unit, Pow10, RoundHalfEven, Normalise;
    PositiveQuotient(Abs(numerator), exponent, divisor);
    if numerator < 0 {
      var p := Quotient(-numerator, exponent, divisor);
      assert Quotient(numerator, exponent, divisor) == Decimal(-p.coefficient, p.exponent);
      Signs(p.coefficient as real, Unit(p.exponent));
      assert (-p.coefficient) as real == -(p.coefficient as real);
      var a, b := (-numerator) as real, divisor as real;
      assert numerator as real / b == -(a / b);
      Signs(a / b, Unit(exponent));
    }
  }

  // ---- Revenue Change ----

  /** Subtraction of two decimals at one scale, rounded to 38 digits. */
  function Subtract(a: int, b: int, exponent: int): Decimal {
    Quotient(a - b, exponent, 1)
  }

  lemma NormaliseWhole(m: nat)
    requires 0 < m < Pow10(PRECISION)
    ensures Normalise(m, 1).d == 1
  {
    hide Pow10;
  }

  /** An integer that fits 38 digits is not rounded. */
  lemma {:induction false} PositiveFits(m: nat, exponent: int)
    requires 0 < m < Pow10(PRECISION)
    ensures Value(Quotient(m, exponent, 1)) == Times(m as real, Unit(exponent))
  {
    hide Times, Unit, Pow10, Normalise;
    var s := Normalise(m, 1);
    NormaliseValue(m, 1);
    NormaliseWhole(m);
    assert RoundHalfEven(s.n, 1) == s.n;
    UnitAdd(-s.shift, exponent);
    Associate(s.n as real, Unit(-s.shift), Unit(exponent));
    assert Ratio(s) == s.n as real && m as real / 1.0 == m as real;
  }

  lemma {:induction false} FittingIsExact(n: int, exponent: int)
    requires Abs(n) < Pow10(38)
    ensures Value(Quotient(n, exponent, 1)) == Times(n as real, Unit(exponent))
  {
    hide Unit, Pow10, Normalise, RoundHalfEven, Times;
    if n == 0 {
      assert Quotient(n, exponent, 1) == Decimal(n, exponent);
    } else {
      PositiveFits(Abs(n), exponent);
      if n < 0 {
        var p := Quotient(-n, exponent, 1);
        assert Quotient(n, exponent, 1) == Decimal(-p.coefficient, p.exponent);
        Signs(p.coefficient as real, Unit(p.exponent));
        assert (-p.coefficient) as real == -(p.coefficient as real);
        Signs((-n) as real, Unit(exponent));
        assert n as real == -((-n) as real);
      }
    }
  }

  /** Revenue Change of two non-negative totals that fit 38 digits at one scale is exact. */
  lemma RevenueChangeExact(baseline: int, comparison: int, exponent: int)
    requires 0 <= baseline < Pow10(38) && 0 <= comparison < Pow10(38)
    ensures Value(Subtract(comparison, baseline, exponent)) == Times((comparison - baseline) as real, Unit(exponent))
  {
    hide Unit, Pow10, Times, Quotient;
    FittingIsExact(comparison - baseline, exponent);
  }
}
