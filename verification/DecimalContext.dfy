/** Python's default decimal context: every result is rounded half-even to 28 significant digits. */
module DecimalContext {
  import opened DecimalArithmetic

  const CONTEXT: nat := 28

  /** 10^28: up to here, and no further, every integer has at most 28 significant digits. */
  function Limit(): nat {
    Pow10(CONTEXT)
  }

  /** A tenth of the limit: up to here a number can be written in tenths. */
  function Tenth(): nat {
    Pow10(CONTEXT - 1)
  }

  predicate Fits(n: int) {
    Abs(n) <= Limit()
  }

  /** How many trailing digits the context drops. */
  function Excess(n: nat): nat {
    if n < Limit() then 0 else 1 + Excess(n / 10)
  }

  /** An exact integer result, rounded to the context's digits. */
  function InContext(n: int): int {
    if Abs(n) < Limit() then n
    else
      var unit := Pow10(Excess(Abs(n)));
      var q := RoundHalfEven(Abs(n), unit) * unit;
      if n < 0 then -q else q
  }

  lemma LimitIsTens()
    ensures Limit() == 10 * Tenth() && Tenth() == Pow10(CONTEXT - 1) && Pow10(CONTEXT - 1) == 10 * Pow10(CONTEXT - 2)
    ensures Limit() > 100
  {
    hide Pow10;
    PowStep(CONTEXT - 1);
    PowStep(CONTEXT - 2);
    PowStep(CONTEXT - 3);
  }

  lemma TenthEven() returns (h: nat)
    ensures Tenth() == 2 * h && Limit() == 20 * h && h > 2
  {
    LimitIsTens();
    h := 5 * Pow10(CONTEXT - 2);
    hide Pow10, Limit, Tenth;
  }

  /** A result that fits is not rounded. */
  lemma FittingUnchanged(n: int)
    requires Fits(n)
    ensures InContext(n) == n
  {
    hide Limit, Excess, RoundHalfEven, Pow10;
    if Abs(n) == Limit() { JustPastLimit(0); }
  }

  /** A little past the limit the last digit is lost, downwards as far as half a unit. */
  lemma JustPastLimit(r: nat)
    requires r < 10
    ensures InContext(Limit() + r) == if r <= 5 then Limit() else Limit() + 10
    ensures InContext(0 - Limit() - r) == -InContext(Limit() + r)
  {
    LimitIsTens();
    PowOne();
    hide Pow10, RoundHalfEven, Limit;
    var m := Pow10(CONTEXT - 1);
    var n := Limit() + r;
    assert n / 10 == m;
    assert Excess(m) == 0 && Excess(n) == 1;
    EvenTensRound(m, r);
  }

  /** Between the limit and ten times it, a final five is rounded to the even multiple of ten. */
  lemma HalfwayToEven(k: nat)
    requires Tenth() <= k < Limit()
    ensures InContext(10 * k + 5) == if k % 2 == 0 then 10 * k else 10 * k + 10
  {
    LimitIsTens();
    PowOne();
    hide Pow10, RoundHalfEven, Limit, Tenth;
    var n := 10 * k + 5;
    assert n / 10 == k;
    assert Excess(k) == 0 && Excess(n) == 1;
    HalfRound(k);
  }

  /** With an even number before the five it is dropped, and with an odd one it counts as a whole ten. */
  lemma HalfwayFromEven(h: nat)
    requires Tenth() <= 2 * h && 2 * h + 1 < Limit()
    ensures InContext(10 * (2 * h) + 5) == 10 * (2 * h) && InContext(10 * (2 * h + 1) + 5) == 10 * (2 * h + 2)
  {
    hide InContext, Limit, Tenth;
    HalfwayToEven(2 * h);
    HalfwayToEven(2 * h + 1);
  }

  /** A multiple of ten between the limit and ten times it needs no rounding. */
  lemma TensUnchanged(k: nat)
    requires Tenth() <= k < Limit()
    ensures InContext(10 * k) == 10 * k
  {
    LimitIsTens();
    PowOne();
    hide Pow10, RoundHalfEven, Limit, Tenth;
    var n := 10 * k;
    assert n / 10 == k;
    assert Excess(k) == 0 && Excess(n) == 1;
    WholeTens(k);
  }

  lemma WholeTens(k: nat)
    ensures RoundHalfEven(10 * k, 10) == k
  {}

  /** Rounding treats both signs alike. */
  lemma SignsAlike(n: int)
    ensures InContext(0 - n) == 0 - InContext(n)
  {
    LimitIsTens();
    hide Limit, Excess, RoundHalfEven, Pow10;
    assert Abs(0 - n) == Abs(n);
  }

  lemma HalfRound(k: nat)
    ensures RoundHalfEven(10 * k + 5, 10) == if k % 2 == 0 then k else k + 1
  {}

  lemma EvenTensRound(m: nat, r: nat)
    requires m % 2 == 0 && r < 10
    ensures RoundHalfEven(10 * m + r, 10) == if r <= 5 then m else m + 1
  {}

  lemma PowOne()
    ensures Pow10(1) == 10
  {}

  /** Rounding keeps zero apart from everything else. */
  lemma ContextZero(n: int)
    ensures InContext(n) == 0 <==> n == 0
  {
    LimitIsTens();
    hide Limit;
    if Abs(n) >= Limit() { RoundedPositive(Abs(n)); }
  }

  lemma {:induction false} RoundedPositive(n: nat)
    requires n >= Limit()
    ensures RoundHalfEven(n, Pow10(Excess(n))) * Pow10(Excess(n)) > 0
  {
    hide RoundHalfEven, Pow10;
    LeadingDigits(n);
    var unit := Pow10(Excess(n));
    QuotientPositive(n, unit);
    PositiveProduct(RoundHalfEven(n, unit), unit);
  }

  lemma PositiveProduct(a: nat, b: nat)
    requires a > 0 && b > 0
    ensures a * b > 0
  {}

  lemma QuotientPositive(n: nat, d: nat)
    requires 0 < d <= n
    ensures RoundHalfEven(n, d) > 0
  {
    FloorBounds(n, d, 1, n + 1);
  }

  lemma {:induction false} LeadingDigits(n: nat)
    requires n >= 1
    ensures Pow10(Excess(n)) <= n
  {
    if n >= Limit() {
      LimitIsTens();
      hide Pow10, Limit;
      LeadingDigits(n / 10);
      PowStep(Excess(n / 10));
    }
  }

  // ---- What the context keeps ----

  /** r is n to 28 significant digits: q units of 10^k, the nearest number of them, and the even one on a tie. */
  ghost predicate Significant(n: int, r: int, q: nat, k: nat) {
    && Abs(r) == q * Pow10(k) && (r < 0 <==> n < 0)
    && q <= Pow10(28) && (k > 0 ==> Pow10(27) <= q)
    && 2 * Abs(Abs(r) - Abs(n)) <= Pow10(k) && (2 * Abs(Abs(r) - Abs(n)) == Pow10(k) ==> q % 2 == 0)
  }

  lemma {:induction false} ExcessWithin(n: nat)
    ensures n < Limit() * Pow10(Excess(n))
    ensures Excess(n) > 0 ==> Tenth() * Pow10(Excess(n)) <= n
  {
    LimitIsTens();
    if n >= Limit() {
      hide Pow10, Limit, Tenth;
      ExcessWithin(n / 10);
      var k := Excess(n / 10);
      PowStep(k);
      TenTimes(Limit(), Pow10(k));
      TenTimes(Tenth(), Pow10(k));
      if k == 0 { TenthOnce(); }
    } else {
      assert Pow10(0) == 1;
    }
  }

  lemma TenTimes(a: nat, b: nat)
    ensures a * (10 * b) == 10 * (a * b)
  {}

  lemma TenthOnce()
    ensures Tenth() * Pow10(0) == Tenth()
  {}

  /** Every result is rounded to 28 significant digits, half to even; up to 28 digits nothing is. */
  lemma ContextRounds(n: int)
    ensures exists q, k :: Significant(n, InContext(n), q, k)
    ensures Abs(n) < Pow10(28) ==> InContext(n) == n
  {
    assert Limit() == Pow10(28) && Tenth() == Pow10(27) by { hide Pow10; }
    if Abs(n) < Limit() {
      assert Pow10(0) == 1;
      assert Significant(n, InContext(n), Abs(n), 0);
    } else {
      var m, k := Abs(n), Excess(Abs(n));
      var q := RoundHalfEven(m, Pow10(k));
      ExcessWithin(m);
      assert k > 0;
      RoundedPositive(m);
      hide RoundHalfEven, Pow10, Limit, Tenth, Excess;
      RoundedBounds(m, Pow10(k), Pow10(27), Pow10(28));
      UnitsRound(m, Pow10(k));
      assert Significant(n, InContext(n), q, k);
    }
  }

  lemma RoundedBounds(n: nat, d: nat, low: nat, high: nat)
    requires d > 0 && low * d <= n < high * d
    ensures low <= RoundHalfEven(n, d) <= high
  {
    FloorBounds(n, d, low, high);
  }

  lemma UnitsRound(n: nat, d: nat)
    requires d > 0
    ensures var r := RoundHalfEven(n, d) * d;
      2 * Abs(r - n) <= d && (2 * Abs(r - n) == d ==> RoundHalfEven(n, d) % 2 == 0)
  {
    var q := RoundHalfEven(n, d);
    RoundedNearest(n, d, q);
    if 2 * Abs(q * d - n) == d {
      NextAway(q, n, d);
      RoundedNearest(n, d, if q * d >= n then q - 1 else q + 1);
    }
  }
}
