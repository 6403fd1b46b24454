/** Allocation of one DuckDB DECIMAL(width, scale) column for a list of decimals. */
module DecimalType {
  import opened Common
  import opened DecimalArithmetic

  /** A decimal taken apart: sign, at least one digit, exponent. */
  datatype Number = Finite(negative: bool, digits: seq<nat>, exponent: int) | NonFinite

  ghost predicate WellFormed(v: Number) {
    v.Finite? ==> |v.digits| >= 1 && forall d :: d in v.digits ==> d < 10
  }

  datatype ColumnType = ColumnType(width: nat, scale: nat)
  datatype TypeError = Unrepresentable

  const LIMIT: int := 38

  function Max(a: int, b: int): int {
    if a < b then b else a
  }

  // ---- The number a tuple denotes ----

  function Coefficient(digits: seq<nat>): nat {
    if digits == [] then 0 else 10 * Coefficient(digits[..|digits| - 1]) + digits[|digits| - 1]
  }

  function Signed(v: Number): int
    requires v.Finite?
  {
    if v.negative then 0 - Coefficient(v.digits) else Coefficient(v.digits)
  }

  function Denotes(v: Number): real
    requires v.Finite?
  {
    Value(Decimal(Signed(v), v.exponent))
  }

  /** The column holds the number exactly: m units of 10^-scale, with m of at most width digits. */
  ghost predicate Holds(t: ColumnType, v: Number) {
    v.Finite? && exists m: int :: HoldsAs(t, v, m)
  }

  ghost predicate HoldsAs(t: ColumnType, v: Number, m: int) {
    v.Finite? && Abs(m) < Pow10(t.width) && Denotes(v) == Times(m as real, Unit(0 - t.scale))
  }

  // ---- _decimal_precision_scale ----

  function PrecisionScale(v: Number): (int, int) {
    if !v.Finite? then (39, 0)
    else
      var count := |v.digits|;
      if v.exponent >= 0 then (count + v.exponent, 0)
      else
        var scale := -v.exponent;
        var integerDigits := Max(0, count - scale);
        (Max(integerDigits + scale, 1), scale)
  }

  function Precision(v: Number): int { PrecisionScale(v).0 }
  function Scale(v: Number): int { PrecisionScale(v).1 }

  /** The digits a value asks for before the point. */
  function IntegerDigits(v: Number): int { Max(1, Precision(v) - Scale(v)) }

  lemma {:induction false} CoefficientBelow(digits: seq<nat>)
    requires forall d :: d in digits ==> d < 10
    ensures Coefficient(digits) < Pow10(|digits|)
  {
    if digits != [] {
      var n := |digits| - 1;
      assert forall d :: d in digits[..n] ==> d in digits;
      assert digits[n] in digits;
      CoefficientBelow(digits[..n]);
    }
  }

  lemma {:induction false} PowAdd(a: nat, b: nat)
    ensures Pow10(a + b) == Pow10(a) * Pow10(b)
  {
    if a > 0 {
      PowAdd(a - 1, b);
      TensFactor(Pow10(a - 1), Pow10(b));
    }
  }

  lemma TensFactor(x: nat, y: nat)
    ensures 10 * (x * y) == (10 * x) * y
  {}

  lemma {:induction false} PowMonotone(a: nat, b: nat)
    requires a <= b
    ensures Pow10(a) <= Pow10(b)
  {
    if a < b { PowMonotone(a, b - 1); }
  }

  lemma ProductBelow(x: nat, y: nat, k: nat)
    requires x < y && k > 0
    ensures x * k < y * k
  {}

  lemma ToReal(x: int, y: nat, u: real)
    ensures Times((x * y) as real, u) == Times(x as real, Times(y as real, u))
  {
    assert (x * y) as real == x as real * y as real;
    Associate(x as real, y as real, u);
  }

  lemma AbsProduct(x: int, k: nat)
    ensures Abs(x * k) == Abs(x) * k
  {}

  /** A value whose scale and integer digits fit the column is held exactly. */
  lemma {:induction false} FittingIsHeld(v: Number, t: ColumnType)
    requires v.Finite? && WellFormed(v)
    requires Scale(v) <= t.scale && Precision(v) - Scale(v) + t.scale <= t.width
    ensures Holds(t, v)
  {
    hide Pow10, Unit, Times, Coefficient;
    CoefficientBelow(v.digits);
    var lift: nat := v.exponent + t.scale;
    var k := Pow10(lift);
    var m := Signed(v) * k;
    var n := |v.digits|;
    AbsProduct(Signed(v), k);
    ProductBelow(Coefficient(v.digits), Pow10(n), k);
    PowAdd(n, lift);
    PowMonotone(n + lift, t.width);
    UnitAdd(lift, 0 - t.scale);
    ToReal(Signed(v), k, Unit(0 - t.scale));
    assert Unit(lift) == k as real by { WholeUnit(lift); }
    assert HoldsAs(t, v, m);
  }

  lemma WholeUnit(e: nat)
    ensures Unit(e) == Pow10(e) as real
  {}

  // ---- _duckdb_decimal_type ----

  ghost predicate TooPrecise(values: seq<Number>) {
    exists v :: v in values && Precision(v) > 38
  }

  ghost predicate TooWide(values: seq<Number>) {
    exists u, v :: u in values && v in values && IntegerDigits(u) + Scale(v) > 38
  }

  ghost predicate Refused(values: seq<Number>) {
    TooPrecise(values) || TooWide(values)
  }

  /** The column holds them all, in at most 38 digits, at least so many of them before the point. */
  ghost predicate StoresAll(t: ColumnType, values: seq<Number>, lead: nat) {
    t.scale + lead <= t.width <= 38 && forall v :: v in values ==> Holds(t, v)
  }

  /**
   * Lossless or refused: the width is at most 38, each value is held exactly, and the scale and integer digits are the
   * largest asked for.
   */
  method DecimalTypeFor(values: seq<Number>) returns (r: Result<ColumnType, TypeError>)
    requires forall v :: v in values ==> WellFormed(v)
    ensures r.Err? <==> Refused(values)
    ensures r.Ok? ==> StoresAll(r.value, values, 1)
    ensures r.Ok? ==>
      (forall v :: v in values ==> Scale(v) <= r.value.scale && IntegerDigits(v) <= r.value.width - r.value.scale)
    ensures r.Ok? ==> r.value.scale == 0 || exists v :: v in values && Scale(v) == r.value.scale
    ensures r.Ok? ==>
      r.value.width - r.value.scale == 1 || exists v :: v in values && IntegerDigits(v) == r.value.width - r.value.scale
  {
    hide PrecisionScale;
    if values == [] { return Ok(ColumnType(1, 0)); }
    var maxScale, maxIntegerDigits := 0, 1;
    for i := 0 to |values|
      invariant maxScale >= 0 && maxIntegerDigits >= 1
      invariant forall j :: 0 <= j < i ==> Precision(values[j]) <= LIMIT
      invariant forall j :: 0 <= j < i ==> Scale(values[j]) <= maxScale && IntegerDigits(values[j]) <= maxIntegerDigits
      invariant maxScale == 0 || exists v :: v in values && Scale(v) == maxScale
      invariant maxIntegerDigits == 1 || exists v :: v in values && IntegerDigits(v) == maxIntegerDigits
    {
      assert values[i] in values;
      if Precision(values[i]) > LIMIT { return Err(Unrepresentable); }
      maxScale := Max(maxScale, Scale(values[i]));
      maxIntegerDigits := Max(maxIntegerDigits, Precision(values[i]) - Scale(values[i]));
    }
    var width: nat := maxIntegerDigits + maxScale;
    if width > LIMIT {
      WidestPair(values, maxScale, maxIntegerDigits);
      return Err(Unrepresentable);
    }
    forall v | v in values ensures Holds(ColumnType(width, maxScale), v) {
      assert v.Finite? by { NonFiniteTooPrecise(v); }
      FittingIsHeld(v, ColumnType(width, maxScale));
    }
    return Ok(ColumnType(width, maxScale));
  }

  lemma NonFiniteTooPrecise(v: Number)
    ensures v.NonFinite? ==> Precision(v) > LIMIT
  {}

  lemma ScaleNonNegative(v: Number)
    ensures Scale(v) >= 0
    ensures Precision(v) <= LIMIT ==> Scale(v) <= LIMIT
  {}

  lemma WidestPair(values: seq<Number>, scale: nat, integerDigits: nat)
    requires values != [] && scale + integerDigits > LIMIT
    requires forall v :: v in values ==> Precision(v) <= LIMIT
    requires scale == 0 || exists v :: v in values && Scale(v) == scale
    requires integerDigits == 1 || exists u :: u in values && IntegerDigits(u) == integerDigits
    requires forall v :: v in values ==> IntegerDigits(v) <= integerDigits
    ensures TooWide(values)
  {
    hide PrecisionScale;
    var first := values[0];
    assert first in values;
    var v := first;
    if scale != 0 { v :| v in values && Scale(v) == scale; }
    var u := first;
    if integerDigits != 1 { u :| u in values && IntegerDigits(u) == integerDigits; }
    ScaleNonNegative(v);
    assert IntegerDigits(u) + Scale(v) > LIMIT;
  }

  // ---- Refusal is not always necessary ----

  function Zeros(n: nat): (s: seq<nat>)
    ensures |s| == n && forall d :: d in s ==> d == 0
  {
    if n == 0 then [] else Zeros(n - 1) + [0]
  }

  lemma {:induction false} OneThenZeros(n: nat)
    ensures |Zeros(n)| == n && forall d :: d in [1] + Zeros(n) ==> d < 10
    ensures Coefficient([1] + Zeros(n)) == Pow10(n)
  {
    if n > 0 {
      OneThenZeros(n - 1);
      assert ([1] + Zeros(n))[..n] == [1] + Zeros(n - 1);
    } else {
      assert [1] + Zeros(0) == [1] && [1][..0] == [];
      assert Coefficient([]) == 0;
    }
  }

  /** The number one written with 38 zeros after the point is refused, though the smallest column would hold it. */
  lemma RefusesRepresentable()
    ensures var v := Finite(false, [1] + Zeros(38), -38);
      WellFormed(v) && TooPrecise([v]) && Holds(ColumnType(1, 0), v)
  {
    hide Pow10, Unit, Times, Coefficient;
    OneThenZeros(LIMIT);
    var v := Finite(false, [1] + Zeros(LIMIT), -LIMIT);
    assert Precision(v) == LIMIT + 1 && v in [v];
    UnitAdd(LIMIT, -LIMIT);
    WholeUnit(LIMIT);
    assert Unit(0) == 1.0 by { WholeUnit(0); assert Pow10(0) == 1 by { PowZero(); } }
    assert Pow10(1) == 10 by { PowZero(); PowStep(0); }
    assert Times(1 as real, Unit(0)) == 1.0 by { TimesOne(1.0); }
    assert HoldsAs(ColumnType(1, 0), v, 1);
  }

  lemma PowZero()
    ensures Pow10(0) == 1
  {}

  lemma TimesOne(x: real)
    ensures Times(x, 1.0) == x
  {}

  // ---- When refusal is necessary ----

  /**
   * Written without needless zeros: zero as a plain 0, and otherwise no leading zero, and no trailing zero after the
   * point.
   */
  ghost predicate Trimmed(v: Number) {
    && v.Finite? && WellFormed(v)
    && (if v.digits[0] == 0 then v.digits == [0] && v.exponent == 0
        else v.exponent < 0 ==> v.digits[|v.digits| - 1] != 0)
  }

  lemma {:induction false} CoefficientAtLeast(digits: seq<nat>)
    requires digits != [] && digits[0] > 0
    ensures Coefficient(digits) >= Pow10(|digits| - 1)
  {
    var n := |digits| - 1;
    if n > 0 {
      CoefficientAtLeast(digits[..n]);
      PowStep(n - 1);
    }
  }

  lemma LastDigit10(digits: seq<nat>)
    requires digits != [] && digits[|digits| - 1] < 10
    ensures Coefficient(digits) % 10 == digits[|digits| - 1]
  {}

  lemma UnitCancels(x: real, e: int)
    ensures Times(Times(x, Unit(e)), Unit(0 - e)) == x
  {
    UnitAdd(e, 0 - e);
    Associate(x, Unit(e), Unit(0 - e));
    WholeUnit(0);
    PowZero();
    TimesOne(x);
    hide Unit, Times;
  }

  /** What a column holds is its integer at the common scale of the column and the number. */
  lemma HeldAtCommonScale(t: ColumnType, v: Number, m: int)
    requires HoldsAs(t, v, m)
    ensures v.exponent + t.scale >= 0 ==> Signed(v) * Pow10(v.exponent + t.scale) == m
    ensures v.exponent + t.scale < 0 ==> Signed(v) == m * Pow10(0 - v.exponent - t.scale)
  {
    hide Pow10, Unit, Times, Signed;
    var c, e, s := Signed(v) as real, v.exponent, t.scale;
    if e + s >= 0 {
      UnitAdd(e, s);
      Associate(c, Unit(e), Unit(s));
      UnitCancels(m as real, 0 - s);
      WholeUnit(e + s);
      WholeProductTimes(Signed(v), Pow10(e + s));
    } else {
      UnitAdd(0 - s, 0 - e);
      Associate(m as real, Unit(0 - s), Unit(0 - e));
      UnitCancels(c, e);
      WholeUnit(0 - e - s);
      WholeProductTimes(m, Pow10(0 - e - s));
    }
  }

  lemma WholeProductTimes(x: int, y: nat)
    ensures Times(x as real, y as real) == (x * y) as real
  {}

  lemma TensOfProduct(m: int, k: nat)
    requires k > 0
    ensures (m * Pow10(k)) % 10 == 0
  {
    PowStep(k - 1);
    TensOf(m, Pow10(k - 1));
  }

  lemma TensOf(m: int, p: nat)
    ensures m * (10 * p) == 10 * (m * p)
  {}

  lemma {:induction false} PowStrict(a: int, b: int)
    requires 0 <= a && 0 <= b && Pow10(a) < Pow10(b)
    ensures a < b
  {
    hide Pow10;
    if b <= a { PowMonotone(b, a); }
  }

  /** A column that holds a trimmed number has its scale and its digits before the point. */
  lemma HeldFits(v: Number, t: ColumnType)
    requires Trimmed(v) && Holds(t, v)
    ensures Scale(v) <= t.scale && Precision(v) - Scale(v) <= Max(1, t.width - t.scale)
    ensures v.digits[0] != 0 ==> |v.digits| + v.exponent <= t.width - t.scale
  {
    hide Pow10, Unit, Times, Coefficient;
    var m :| HoldsAs(t, v, m);
    HeldAtCommonScale(t, v, m);
    var lift, n := v.exponent + t.scale, |v.digits|;
    assert v.digits[n - 1] in v.digits;
    LastDigit10(v.digits);
    if v.digits[0] != 0 {
      if lift < 0 {
        TensOfProduct(m, 0 - lift);
        NoTens(v, m, 0 - lift);
      }
      CoefficientAtLeast(v.digits);
      AbsProduct(Signed(v), Pow10(lift));
      PowAdd(n - 1, lift);
      ProductLe(Pow10(n - 1), Coefficient(v.digits), Pow10(lift));
      PowStrict(n - 1 + lift, t.width);
    }
  }

  lemma ProductLe(x: nat, y: nat, k: nat)
    requires x <= y
    ensures x * k <= y * k
  {}

  /** A last digit that is not zero leaves no factor of ten. */
  lemma NoTens(v: Number, m: int, k: nat)
    requires v.Finite? && Signed(v) == m * Pow10(k) && (m * Pow10(k)) % 10 == 0
    ensures Coefficient(v.digits) % 10 == 0
  {
    hide Pow10, Coefficient;
  }

  // ---- Exactly when it is ----

  /** The same number without needless zeros. */
  function Trim(v: Number): Number
    decreases if v.Finite? then |v.digits| else 0
  {
    if v.NonFinite? || v.digits == [] then v
    else
      var n := |v.digits| - 1;
      if n > 0 && v.digits[0] == 0 then Trim(v.(digits := v.digits[1..]))
      else if v.digits == [0] then v.(exponent := 0)
      else if n > 0 && v.exponent < 0 && v.digits[n] == 0
        then Trim(v.(digits := v.digits[..n], exponent := v.exponent + 1))
      else v
  }

  function TrimAll(values: seq<Number>): seq<Number> {
    seq(|values|, i requires 0 <= i < |values| => Trim(values[i]))
  }

  lemma {:induction false} LeadingZero(digits: seq<nat>)
    requires digits != [] && digits[0] == 0
    ensures Coefficient(digits[1..]) == Coefficient(digits)
  {
    var n := |digits| - 1;
    if n > 0 {
      LeadingZero(digits[..n]);
      assert digits[1..][..n - 1] == digits[..n][1..];
    } else {
      assert digits[..0] == digits[1..];
      assert Coefficient(digits[..0]) == 0;
    }
  }

  lemma ZeroDenotes(v: Number)
    requires v.Finite? && v.digits == [0]
    ensures Signed(v) == 0 && Denotes(v) == 0.0
  {
    assert v.digits[..0] == [];
    assert Coefficient([]) == 0;
    assert Times(0.0, Unit(v.exponent)) == 0.0;
  }

  lemma TrailingZero(v: Number, w: Number)
    requires v.Finite? && |v.digits| > 0 && v.digits[|v.digits| - 1] == 0
    requires w == v.(digits := v.digits[..|v.digits| - 1], exponent := v.exponent + 1)
    ensures Denotes(w) == Denotes(v)
  {
    UnitStep(v.exponent);
    assert Signed(v) == 10 * Signed(w);
    TenTimes(Signed(w), Unit(v.exponent));
    hide Times, Unit, Coefficient;
  }

  lemma TenTimes(c: int, u: real)
    ensures Times((10 * c) as real, u) == Times(c as real, 10.0 * u)
  {
    assert (10 * c) as real == 10.0 * c as real;
  }

  /** Trimming keeps the number and leaves no needless zero. */
  lemma {:induction false} TrimKeeps(v: Number)
    requires v.Finite? && WellFormed(v)
    ensures Trimmed(Trim(v)) && Denotes(Trim(v)) == Denotes(v)
    decreases |v.digits|
  {
    var n := |v.digits| - 1;
    assert forall d :: d in v.digits[1..] || d in v.digits[..n] ==> d in v.digits;
    if n > 0 && v.digits[0] == 0 {
      LeadingZero(v.digits);
      TrimKeeps(v.(digits := v.digits[1..]));
    } else if v.digits == [0] {
      ZeroDenotes(v);
      ZeroDenotes(v.(exponent := 0));
    } else if n > 0 && v.exponent < 0 && v.digits[n] == 0 {
      var w := v.(digits := v.digits[..n], exponent := v.exponent + 1);
      TrailingZero(v, w);
      TrimKeeps(w);
    }
  }

  /** A column holds a number exactly when it holds its trimmed form. */
  lemma HoldsTrimmed(t: ColumnType, v: Number)
    requires WellFormed(v)
    ensures Holds(t, v) <==> Holds(t, Trim(v))
  {
    hide Denotes;
    if v.Finite? {
      TrimKeeps(v);
      hide Trim;
      assert forall m :: HoldsAs(t, v, m) <==> HoldsAs(t, Trim(v), m);
    }
  }

  lemma StoresTrimmed(t: ColumnType, values: seq<Number>, lead: nat)
    requires forall v :: v in values ==> WellFormed(v)
    ensures StoresAll(t, values, lead) <==> StoresAll(t, TrimAll(values), lead)
  {
    hide Holds, Trim;
    var trimmed := TrimAll(values);
    forall v | v in values ensures Holds(t, v) <==> Holds(t, Trim(v)) { HoldsTrimmed(t, v); }
    forall i | 0 <= i < |values|
      ensures values[i] in values && trimmed[i] in trimmed && trimmed[i] == Trim(values[i]) {}
  }

  /** Some column holds them all. */
  ghost predicate Storable(values: seq<Number>, lead: nat) {
    exists t :: StoresAll(t, values, lead)
  }

  /** The digits before the point that a number needs: none for zero. */
  function Whole(v: Number): int {
    if v.NonFinite? || v.digits == [0] then 0 else Max(0, |v.digits| + v.exponent)
  }

  /** All finite, and the digits before the point of one fit beside the scale of any other. */
  ghost predicate Fit(values: seq<Number>, lead: nat) {
    && (forall v :: v in values ==> v.Finite?)
    && (forall u, v :: u in values && v in values ==> Max(lead, Whole(u)) + Scale(v) <= 38)
  }

  /** The trimmed values that a column holds fit. */
  lemma StorableFits(values: seq<Number>, t: ColumnType, lead: nat)
    requires (forall v :: v in values ==> Trimmed(v)) && StoresAll(t, values, lead)
    ensures Fit(values, lead)
  {
    hide Holds;
    forall v | v in values ensures Scale(v) <= t.scale && Whole(v) <= t.width - t.scale {
      HeldFits(v, t);
    }
    hide PrecisionScale, Whole;
  }

  /** The largest scale and the most digits before the point. */
  lemma {:induction false} Largest(values: seq<Number>, lead: nat) returns (scale: nat, whole: nat)
    requires (forall v :: v in values ==> v.Finite?) && lead <= LIMIT && Fit(values, lead)
    ensures forall v :: v in values ==> Scale(v) <= scale && Whole(v) <= whole
    ensures lead <= whole && scale + whole <= LIMIT
    ensures scale == 0 || exists v :: v in values && Scale(v) == scale
    ensures whole == lead || exists v :: v in values && Whole(v) == whole
  {
    hide PrecisionScale, Whole;
    if values == [] {
      scale, whole := 0, lead;
    } else {
      var v, rest := values[0], values[1..];
      assert forall w :: w in values <==> w == v || w in rest;
      scale, whole := Largest(rest, lead);
      ScaleNonNegative(v);
      if Scale(v) > scale { scale := Scale(v); }
      if Whole(v) > whole { whole := Whole(v); }
      assert Max(lead, Whole(v)) + Scale(v) <= LIMIT;
    }
  }

  /** Values that fit have a column. */
  lemma FitStores(values: seq<Number>, lead: nat)
    requires (forall v :: v in values ==> Trimmed(v)) && lead <= LIMIT && Fit(values, lead)
    ensures Storable(values, lead)
  {
    var scale, whole := Largest(values, lead);
    var t := ColumnType(scale + whole, scale);
    forall v | v in values ensures Holds(t, v) { FitHeld(v, t); }
    hide Holds;
    assert StoresAll(t, values, lead);
  }

  lemma FitHeld(v: Number, t: ColumnType)
    requires Trimmed(v) && Scale(v) <= t.scale && Whole(v) <= t.width - t.scale
    ensures Holds(t, v)
  {
    hide Pow10, Unit, Times, Coefficient;
    if v.digits == [0] {
      ZeroDenotes(v);
      TimesZero(Unit(0 - t.scale));
      PowPositive(t.width);
      assert HoldsAs(t, v, 0);
    } else {
      FittingIsHeld(v, t);
    }
  }

  lemma TimesZero(u: real)
    ensures Times(0.0, u) == 0.0
  {}

  lemma PowPositive(n: nat)
    ensures Pow10(n) > 0
  {}

  /** A column exists exactly for values whose trimmed forms fit. */
  lemma StorableExactly(values: seq<Number>, lead: nat)
    requires (forall v :: v in values ==> WellFormed(v)) && lead <= LIMIT
    ensures Storable(values, lead) <==> Fit(TrimAll(values), lead)
  {
    hide Holds, Trimmed, Trim, Fit;
    var trimmed := TrimAll(values);
    forall t ensures StoresAll(t, values, lead) <==> StoresAll(t, trimmed, lead) { StoresTrimmed(t, values, lead); }
    if (forall v :: v in values ==> v.Finite?) {
      forall v | v in values ensures Trimmed(Trim(v)) { TrimKeeps(v); }
      if t :| StoresAll(t, trimmed, lead) { StorableFits(trimmed, t, lead); }
      if Fit(trimmed, lead) { FitStores(trimmed, lead); }
    } else {
      NonFiniteUnstorable(values, lead);
    }
  }

  lemma NonFiniteUnstorable(values: seq<Number>, lead: nat)
    requires exists v :: v in values && v.NonFinite?
    ensures !Storable(values, lead) && !Fit(TrimAll(values), lead)
  {
    var i :| 0 <= i < |values| && values[i].NonFinite?;
    assert TrimAll(values)[i] in TrimAll(values) && TrimAll(values)[i].NonFinite?;
  }

  /** Trimmed values are refused exactly when they do not fit with a digit before the point. */
  lemma RefusedTrimmed(values: seq<Number>)
    requires forall v :: v in values ==> v.NonFinite? || Trimmed(v)
    ensures Refused(values) <==> !Fit(values, 1)
  {
    forall v | v in values && v.Finite?
      ensures IntegerDigits(v) == Max(1, Whole(v)) && Precision(v) <= IntegerDigits(v) + Scale(v) {}
    forall v | v in values && v.NonFinite? ensures Precision(v) > LIMIT {}
    hide PrecisionScale, Whole;
  }

  /**
   * The allocator refuses needlessly exactly the values that it would accept trimmed. Without the digit before
   * the point that it always keeps, exactly those that fit trimmed.
   */
  lemma RefusesNeedlesslyExactly(values: seq<Number>)
    requires forall v :: v in values ==> WellFormed(v)
    ensures Refused(values) && Storable(values, 1) <==> Refused(values) && !Refused(TrimAll(values))
    ensures Refused(values) && Storable(values, 0) <==> Refused(values) && Fit(TrimAll(values), 0)
  {
    hide Refused, Fit, Storable, WellFormed, Trimmed, Trim;
    StorableExactly(values, 1);
    StorableExactly(values, 0);
    forall v | v in values && v.Finite? ensures Trimmed(Trim(v)) { TrimKeeps(v); }
    forall v | v in values && v.NonFinite? ensures Trim(v).NonFinite? { NonFiniteStays(v); }
    RefusedTrimmed(TrimAll(values));
  }

  lemma NonFiniteStays(v: Number)
    requires v.NonFinite?
    ensures Trim(v).NonFinite?
  {}

  /**
   * A column without a digit before the point can hold what the allocator refuses: the least number with 38 digits
   * after it.
   */
  lemma FractionRefused()
    ensures var v := Finite(false, [1], -38);
      Trimmed(v) && TooWide([v]) && Holds(ColumnType(38, 38), v)
  {
    var v := Finite(false, [1], -38);
    hide Pow10, Unit, Times;
    assert v in [v];
    assert IntegerDigits(v) + Scale(v) == 39;
    FittingIsHeld(v, ColumnType(38, 38));
  }
}
