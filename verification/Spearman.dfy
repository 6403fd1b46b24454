/** Rank correlation in exact arithmetic, and the decision boundary drawn on it. */
module Spearman {
  import opened Common
  import opened Ranks

  function Mean(xs: seq<real>): real
    requires xs != []
  {
    Sum(xs) / |xs| as real
  }

  /** Sum of (u[i] - p) * (v[i] - q). */
  function Cross(u: seq<real>, v: seq<real>, p: real, q: real): real
    requires |u| == |v|
  {
    if u == [] then 0.0 else Times(u[0] - p, v[0] - q) + Cross(u[1..], v[1..], p, q)
  }

  /** numerator / sqrt(left * right), kept as its three exact parts; only built when left * right is not zero. */
  datatype Rho = Rho(numerator: real, left: real, right: real)

  function RhoOfRanks(x: seq<real>, y: seq<real>): Option<Rho>
    requires |x| == |y| && x != []
  {
    var p, q := Mean(x), Mean(y);
    var rho := Rho(Cross(x, y, p, q), Cross(x, x, p, p), Cross(y, y, q, q));
    if Times(rho.left, rho.right) == 0.0 then None else Some(rho)
  }

  function SpearmanRho(left: seq<real>, right: seq<real>): Option<Rho> {
    if |left| != |right| || left == [] then None else RhoOfRanks(RankVector(left), RankVector(right))
  }

  /** spearman_rho over computed ranks. */
  method ComputeRho(left: seq<real>, right: seq<real>) returns (rho: Option<Rho>)
    ensures rho == SpearmanRho(left, right)
  {
    if |left| != |right| || left == [] {
      return None;
    }
    var x := AverageRanks(left);
    var y := AverageRanks(right);
    assert x == RankVector(left) && y == RankVector(right);
    return RhoOfRanks(x, y);
  }

  // ---- Products ----

  lemma ProductPositive(a: real, b: real)
    requires a > 0.0 && b > 0.0
    ensures a * b > 0.0
  {}

  lemma TimesPositive(a: real, b: real)
    requires a > 0.0 && b > 0.0
    ensures Times(a, b) > 0.0
  {}

  lemma NegatedFactor(a: real, b: real)
    ensures Times(-a, b) == -Times(a, b) && Times(-a, -a) == Times(a, a)
  {}

  lemma SquarePositive(d: real)
    ensures d != 0.0 ==> Times(d, d) > 0.0
    ensures d == 0.0 ==> Times(d, d) == 0.0
  {
    if d == 0.0 {
      assert Times(d, d) == 0.0;
    } else {
      hide Times;
      if d > 0.0 {
        TimesPositive(d, d);
      } else {
        TimesPositive(-d, -d);
        NegatedFactor(d, d);
      }
    }
  }

  lemma ScaleLe(a: real, b: real, s: real)
    requires a <= b && s >= 0.0
    ensures a * s <= b * s
  {}

  lemma ScaleLt(a: real, b: real, s: real)
    requires a < b && s > 0.0
    ensures a * s < b * s
  {}

  lemma RootLeOneSide(k: real, m: real)
    requires k > m >= 0.0
    ensures k * k > m * m
  {
    assert k * k - m * m == (k - m) * (k + m);
    ProductPositive(k - m, k + m);
  }

  lemma RootLe(k: real, m: real)
    requires m >= 0.0 && m * m >= k * k
    ensures k <= m && -k <= m
  {
    if k > m { RootLeOneSide(k, m); }
    if -k > m {
      assert (-k) * (-k) == k * k;
      RootLeOneSide(-k, m);
    }
  }

  lemma DivideBack(n: real, c: real)
    requires n != 0.0
    ensures Times(n, c) / n == c
  {}

  // ---- Cauchy-Schwarz ----

  ghost predicate AllEqual(u: seq<real>, p: real) {
    forall i :: 0 <= i < |u| ==> u[i] == p
  }

  lemma AllEqualSplit(u: seq<real>, p: real)
    requires u != []
    ensures AllEqual(u, p) <==> u[0] == p && AllEqual(u[1..], p)
  {
    if u[0] == p && AllEqual(u[1..], p) {
      forall i | 0 <= i < |u| ensures u[i] == p {
        if i > 0 { assert u[1..][i - 1] == p; }
      }
    }
  }

  lemma {:induction false} SquaresNonNegative(u: seq<real>, p: real)
    ensures Cross(u, u, p, p) >= 0.0
    ensures Cross(u, u, p, p) == 0.0 <==> AllEqual(u, p)
  {
    hide Times;
    if u != [] {
      SquaresNonNegative(u[1..], p);
      AllEqualSplit(u, p);
      SquarePositive(u[0] - p);
    }
  }

  /** One more pair of deviations keeps the inequality. */
  lemma CauchySchwarzStep(a: real, b: real, c: real, x: real, y: real)
    requires Times(a, a) <= Times(b, c) && b >= 0.0 && c >= 0.0
    ensures Times(a + Times(x, y), a + Times(x, y)) <= Times(b + Times(x, x), c + Times(y, y))
  {
    var m := b * (y * y) + c * (x * x);
    var k := a * (x * y);
    var gap := b * (y * y) - c * (x * x);
    assert m >= 0.0;
    assert m * m == gap * gap + 4.0 * ((b * c) * ((x * y) * (x * y)));
    ScaleLe(a * a, b * c, (x * y) * (x * y));
    assert k * k == (a * a) * ((x * y) * (x * y));
    assert m * m >= (2.0 * k) * (2.0 * k);
    RootLe(2.0 * k, m);
    assert (a + x * y) * (a + x * y) == a * a + 2.0 * k + (x * y) * (x * y);
    assert (b + x * x) * (c + y * y) == b * c + m + (x * y) * (x * y);
  }

  lemma {:induction false} CauchySchwarz(u: seq<real>, v: seq<real>, p: real, q: real)
    requires |u| == |v|
    ensures Times(Cross(u, v, p, q), Cross(u, v, p, q)) <= Times(Cross(u, u, p, p), Cross(v, v, q, q))
  {
    if u == [] {
      assert Cross(u, v, p, q) == 0.0 && Cross(u, u, p, p) == 0.0;
    } else {
      hide Times;
      CauchySchwarz(u[1..], v[1..], p, q);
      SquaresNonNegative(u[1..], p);
      SquaresNonNegative(v[1..], q);
      CauchySchwarzStep(Cross(u[1..], v[1..], p, q), Cross(u[1..], u[1..], p, p), Cross(v[1..], v[1..], q, q), u[0] - p,
                        v[0] - q);
    }
  }

  // ---- When rho is defined ----

  ghost predicate Constant(values: seq<real>) {
    forall i, j :: 0 <= i < |values| && 0 <= j < |values| ==> values[i] == values[j]
  }

  lemma {:induction false} UniformSum(xs: seq<real>, c: real)
    requires forall i :: 0 <= i < |xs| ==> xs[i] == c
    ensures Sum(xs) == Times(|xs| as real, c)
  {
    hide Times;
    if xs == [] {
      NoneTimes(c);
    } else {
      UniformSum(xs[1..], c);
      OneMore(|xs| - 1, c);
    }
  }

  lemma NoneTimes(c: real)
    ensures Times(0.0, c) == 0.0
  {}

  lemma OneMore(n: nat, c: real)
    ensures Times((n + 1) as real, c) == c + Times(n as real, c)
  {}

  lemma UniformMean(xs: seq<real>, c: real)
    requires xs != [] && AllEqual(xs, c)
    ensures Mean(xs) == c
  {
    hide Times;
    UniformSum(xs, c);
    DivideBack(|xs| as real, c);
  }

  /** The spread of the ranks vanishes exactly for constant input. */
  lemma SpreadZeroIffConstant(values: seq<real>)
    requires values != []
    ensures var x := RankVector(values);
            Cross(x, x, Mean(x), Mean(x)) == 0.0 <==> Constant(values)
  {
    hide Times, Cross;
    var x := RankVector(values);
    SquaresNonNegative(x, Mean(x));
    forall i, j | 0 <= i < |values| && 0 <= j < |values| ensures x[i] == x[j] <==> values[i] == values[j] {
      RanksPreserveOrder(values, i, j);
    }
    if Constant(values) {
      assert AllEqual(x, x[0]);
      UniformMean(x, x[0]);
    }
  }

  lemma ProductZero(a: real, b: real)
    ensures Times(a, b) == 0.0 <==> a == 0.0 || b == 0.0
  {
    if a > 0.0 && b > 0.0 { ProductPositive(a, b); }
    if a > 0.0 && b < 0.0 { ProductPositive(a, -b); assert a * (-b) == -(a * b); }
    if a < 0.0 && b > 0.0 { ProductPositive(-a, b); assert (-a) * b == -(a * b); }
    if a < 0.0 && b < 0.0 { ProductPositive(-a, -b); assert (-a) * (-b) == a * b; }
  }

  /**
   * spearman_rho answers None exactly for mismatched, empty or constant input; after the constant-vector guards it is
   * defined.
   */
  lemma RhoUndefinedExactly(left: seq<real>, right: seq<real>)
    ensures SpearmanRho(left, right).None? <==> |left| != |right| || left == [] || Constant(left) || Constant(right)
  {
    hide Cross, Times;
    if |left| == |right| && left != [] {
      SpreadZeroIffConstant(left);
      SpreadZeroIffConstant(right);
      var x, y := RankVector(left), RankVector(right);
      ProductZero(Cross(x, x, Mean(x), Mean(x)), Cross(y, y, Mean(y), Mean(y)));
    }
  }

  // ---- Rho as a number ----

  /** r is numerator / d for the positive square root d of left * right. */
  ghost predicate Denotes(rho: Rho, d: real, r: real) {
    d > 0.0 && Times(d, d) == Times(rho.left, rho.right) && Times(r, d) == rho.numerator
  }

  function Clamp(r: real): real {
    var low := if 1.0 < r then 1.0 else r;
    if low < -1.0 then -1.0 else low
  }

  lemma BoundedQuotient(n: real, square: real, d: real, r: real)
    requires Times(n, n) <= square && d > 0.0 && Times(d, d) == square && Times(r, d) == n
    ensures -1.0 <= r <= 1.0
  {
    RootLe(n, d);
    if r > 1.0 { ScaleLt(1.0, r, d); }
    if r < -1.0 { ScaleLt(r, -1.0, d); }
  }

  /** The squared numerator never exceeds the product under the root. */
  lemma RhoWithin(x: seq<real>, y: seq<real>)
    requires |x| == |y| && x != [] && RhoOfRanks(x, y).Some?
    ensures var rho := RhoOfRanks(x, y).value; Times(rho.numerator, rho.numerator) <= Times(rho.left, rho.right)
  {
    hide Cross, Times;
    CauchySchwarz(x, y, Mean(x), Mean(y));
  }

  /** In exact arithmetic the clamp to [-1, 1] changes nothing. */
  lemma ClampIsIdentity(left: seq<real>, right: seq<real>, d: real, r: real)
    requires SpearmanRho(left, right).Some? && Denotes(SpearmanRho(left, right).value, d, r)
    ensures -1.0 <= r <= 1.0 && Clamp(r) == r
  {
    hide Cross, Times;
    var rho := SpearmanRho(left, right).value;
    assert Times(rho.numerator, rho.numerator) <= Times(rho.left, rho.right) by {
      RhoWithin(RankVector(left), RankVector(right));
    }
    BoundedQuotient(rho.numerator, Times(rho.left, rho.right), d, r);
  }

  // ---- Rho sees order only ----

  /** Replacing either vector by one with the same order pattern leaves rho unchanged. */
  lemma RhoDependsOnOrder(a: seq<real>, b: seq<real>, a': seq<real>, b': seq<real>)
    requires SamePattern(a, a') && SamePattern(b, b')
    ensures SpearmanRho(a, b) == SpearmanRho(a', b')
  {
    RanksDependOnOrder(a, a');
    RanksDependOnOrder(b, b');
  }

  function Mapped(f: real -> real, values: seq<real>): seq<real> {
    seq(|values|, i requires 0 <= i < |values| => f(values[i]))
  }

  lemma IncreasingMapInvariant(f: real -> real, g: real -> real, a: seq<real>, b: seq<real>)
    requires forall x, y :: x < y ==> f(x) < f(y)
    requires forall x, y :: x < y ==> g(x) < g(y)
    ensures SpearmanRho(Mapped(f, a), Mapped(g, b)) == SpearmanRho(a, b)
  {
    IncreasingKeepsPattern(f, a);
    IncreasingKeepsPattern(g, b);
    RhoDependsOnOrder(a, b, Mapped(f, a), Mapped(g, b));
  }

  lemma IncreasingKeepsPattern(f: real -> real, a: seq<real>)
    requires forall x, y :: x < y ==> f(x) < f(y)
    ensures SamePattern(a, Mapped(f, a))
  {
    forall i, j | 0 <= i < |a| && 0 <= j < |a| ensures a[i] < a[j] <==> f(a[i]) < f(a[j]) {
      assert a[i] < a[j] || a[i] == a[j] || a[j] < a[i];
    }
  }

  lemma {:induction false} CrossReflect(u: seq<real>, u': seq<real>, v: seq<real>, p: real, q: real, s: real)
    requires |u| == |u'| == |v| && forall i :: 0 <= i < |u| ==> u'[i] == s - u[i]
    ensures Cross(u', v, s - p, q) == -Cross(u, v, p, q)
    ensures Cross(u', u', s - p, s - p) == Cross(u, u, p, p)
    ensures Sum(u') == Times(|u| as real, s) - Sum(u)
  {
    if u != [] {
      hide Times;
      CrossReflect(u[1..], u'[1..], v[1..], p, q, s);
      NegatedFactor(u[0] - p, v[0] - q);
      assert u'[0] - (s - p) == -(u[0] - p);
      NextMultiple(|u[1..]|, s);
    }
  }

  lemma NextMultiple(n: nat, s: real)
    ensures Times((n + 1) as real, s) == Times(n as real, s) + s
  {}

  function Negated(rho: Option<Rho>): Option<Rho> {
    if rho.None? then None else Some(rho.value.(numerator := -rho.value.numerator))
  }

  lemma Quotients(n: real, s: real, t: real)
    requires n != 0.0
    ensures (Times(n, s) - t) / n == s - t / n
  {
    var q := t / n;
    assert t == n * q;
    assert n * s - t == n * (s - q);
    DivideBack(n, s - q);
  }

  lemma ReflectedRho(x: seq<real>, x': seq<real>, y: seq<real>, s: real)
    requires |x| == |x'| == |y| && x != [] && forall i :: 0 <= i < |x| ==> x'[i] == s - x[i]
    ensures RhoOfRanks(x', y) == Negated(RhoOfRanks(x, y))
  {
    hide Cross, Times;
    var p, q := Mean(x), Mean(y);
    CrossReflect(x, x', y, p, q, s);
    Quotients(|x| as real, s, Sum(x));
    assert Mean(x') == s - p;
  }

  /** Reversing the order of one vector negates rho. */
  lemma ReversalNegates(a: seq<real>, a': seq<real>, b: seq<real>)
    requires OppositePattern(a, a')
    ensures SpearmanRho(a', b) == Negated(SpearmanRho(a, b))
  {
    if |a| == |b| && a != [] {
      RanksReflect(a, a');
      ReflectedRho(RankVector(a), RankVector(a'), RankVector(b), (|a| + 1) as real);
    }
  }

  lemma DecreasingReverses(f: real -> real, a: seq<real>)
    requires forall x, y :: x < y ==> f(y) < f(x)
    ensures OppositePattern(a, Mapped(f, a))
  {
    forall i, j | 0 <= i < |a| && 0 <= j < |a| ensures a[i] < a[j] <==> f(a[j]) < f(a[i]) {
      assert a[i] < a[j] || a[i] == a[j] || a[j] < a[i];
    }
  }

  // ---- Either list ----

  lemma {:induction false} CrossSymmetric(u: seq<real>, v: seq<real>, p: real, q: real)
    requires |u| == |v|
    ensures Cross(u, v, p, q) == Cross(v, u, q, p)
  {
    if u != [] {
      Commute(u[0] - p, v[0] - q);
      hide Times;
      CrossSymmetric(u[1..], v[1..], p, q);
    }
  }

  lemma Commute(a: real, b: real)
    ensures Times(a, b) == Times(b, a)
  {}

  /** Exchanging the lists exchanges the sums of squares and keeps the numerator. */
  lemma RhoSymmetric(a: seq<real>, b: seq<real>)
    ensures SpearmanRho(b, a) == Exchanged(SpearmanRho(a, b))
  {
    if |a| == |b| && a != [] {
      hide Times, Cross;
      var x, y := RankVector(a), RankVector(b);
      CrossSymmetric(x, y, Mean(x), Mean(y));
      Commute(Cross(x, x, Mean(x), Mean(x)), Cross(y, y, Mean(y), Mean(y)));
    }
  }

  function Exchanged(rho: Option<Rho>): Option<Rho> {
    if rho.None? then None else Some(Rho(rho.value.numerator, rho.value.right, rho.value.left))
  }

  /** Reversing the order of the second list negates rho too. */
  lemma SecondReversalNegates(a: seq<real>, b: seq<real>, b': seq<real>)
    requires OppositePattern(b, b')
    ensures SpearmanRho(a, b') == Negated(SpearmanRho(a, b))
  {
    hide SpearmanRho;
    RhoSymmetric(b', a);
    RhoSymmetric(a, b);
    ReversalNegates(b, b', a);
  }

  /** A strictly decreasing map of either list negates rho. */
  lemma DecreasingMapNegates(f: real -> real, a: seq<real>, b: seq<real>)
    requires forall x, y :: x < y ==> f(y) < f(x)
    ensures SpearmanRho(Mapped(f, a), b) == Negated(SpearmanRho(a, b))
    ensures SpearmanRho(a, Mapped(f, b)) == Negated(SpearmanRho(a, b))
  {
    DecreasingReverses(f, a);
    DecreasingReverses(f, b);
    ReversalNegates(a, Mapped(f, a), b);
    SecondReversalNegates(a, b, Mapped(f, b));
  }

  // ---- The decision boundary ----

  datatype Outcome = NotEvaluated | CriterionMet | CriterionNotMet | PropositionContradicted

  /** rho <= -1/2 without a square root. */
  predicate AtMostMinusHalf(rho: Rho) {
    rho.numerator <= 0.0 && 4.0 * Times(rho.numerator, rho.numerator) >= Times(rho.left, rho.right)
  }

  predicate AtLeastHalf(rho: Rho) {
    rho.numerator >= 0.0 && 4.0 * Times(rho.numerator, rho.numerator) >= Times(rho.left, rho.right)
  }

  function MapOutcome<R>(rho: Option<Rho>, reasons: seq<R>): Outcome {
    if rho.None? || reasons != [] then NotEvaluated
    else if AtMostMinusHalf(rho.value) then CriterionMet
    else if AtLeastHalf(rho.value) then PropositionContradicted
    else CriterionNotMet
  }

  lemma HalfTest(n: real, square: real, d: real, r: real)
    requires d > 0.0 && Times(d, d) == square && Times(r, d) == n
    ensures r >= 0.5 <==> n >= 0.0 && 4.0 * Times(n, n) >= square
  {
    var t := 2.0 * n;
    assert t == (2.0 * r) * d && 4.0 * n * n == t * t;
    if r >= 0.5 {
      ScaleLe(1.0, 2.0 * r, d);
      ScaleLe(d, t, d);
      ScaleLe(d, t, t);
    } else {
      ScaleLt(2.0 * r, 1.0, d);
      if n >= 0.0 { RootLeOneSide(d, t); }
    }
  }

  /** The integer tests decide exactly what comparing the number with -1/2 and 1/2 decides. */
  lemma BoundaryExact<R>(rho: Rho, d: real, r: real, reasons: seq<R>)
    requires Denotes(rho, d, r) && reasons == []
    ensures MapOutcome(Some(rho), reasons)
            == if r <= -0.5 then CriterionMet else if r >= 0.5 then PropositionContradicted else CriterionNotMet
  {
    hide Times;
    var n, square := rho.numerator, Times(rho.left, rho.right);
    HalfTest(n, square, d, r);
    NegatedFactor(r, d);
    HalfTest(-n, square, d, -r);
    NegatedFactor(n, n);
  }

  /** d is below, or e above, the root of a number; the root is where the two meet. */
  ghost predicate BelowRoot(d: real, square: real) { d > 0.0 && Times(d, d) <= square }
  ghost predicate AboveRoot(e: real, square: real) { e > 0.0 && Times(e, e) >= square }

  /** Strictly between the square of t and a larger square there is the square of some d above t. */
  lemma RoomAbove(t: real, square: real) returns (d: real)
    requires t >= 0.0 && Times(t, t) < square
    ensures BelowRoot(d, square) && d > t
  {
    var gap := square - Times(t, t);
    var step := gap / (2.0 * t + 1.0);
    StepPositive(gap, 2.0 * t + 1.0);
    var room := if step < 1.0 then step else 1.0;
    d := t + room;
    SquareOfSum(t, room);
    ShrinkSquare(room);
    StepTimes(gap, t, room);
  }

  lemma StepPositive(gap: real, w: real)
    requires gap > 0.0 && w > 0.0
    ensures gap / w > 0.0
  {}

  lemma SquareOfSum(t: real, r: real)
    ensures Times(t + r, t + r) == Times(t, t) + 2.0 * Times(t, r) + Times(r, r)
  {}

  lemma ShrinkSquare(r: real)
    requires 0.0 < r <= 1.0
    ensures Times(r, r) <= r
  {
    assert r * r <= r * 1.0 by { ScaleLe(r, 1.0, r); }
  }

  lemma StepTimes(gap: real, t: real, r: real)
    requires gap > 0.0 && t >= 0.0 && 0.0 < r <= gap / (2.0 * t + 1.0)
    ensures 2.0 * Times(t, r) + r <= gap
  {
    var w := 2.0 * t + 1.0;
    assert w * r <= w * (gap / w) by { ScaleLe(r, gap / w, w); }
    assert w * (gap / w) == gap;
    assert w * r == 2.0 * (t * r) + r;
  }

  /**
   * The boundary tests without any root: rho is at most -1/2, or at least 1/2, exactly when the doubled numerator
   * passes every number below the root.
   */
  lemma BoundaryByCuts(rho: Rho)
    requires Times(rho.left, rho.right) > 0.0
    ensures AtMostMinusHalf(rho) <==> forall d :: BelowRoot(d, Times(rho.left, rho.right)) ==> 2.0 * rho.numerator <= -d
    ensures AtLeastHalf(rho) <==> forall d :: BelowRoot(d, Times(rho.left, rho.right)) ==> 2.0 * rho.numerator >= d
  {
    hide Times, BelowRoot;
    var square := Times(rho.left, rho.right);
    HalfByCuts(rho.numerator, square);
    HalfByCuts(-rho.numerator, square);
    NegatedFactor(rho.numerator, rho.numerator);
  }

  lemma HalfByCuts(n: real, square: real)
    requires square > 0.0
    ensures n >= 0.0 && 4.0 * Times(n, n) >= square <==> forall d :: BelowRoot(d, square) ==> 2.0 * n >= d
  {
    DoubledSquare(n);
    if n >= 0.0 && 4.0 * Times(n, n) >= square {
      forall d | BelowRoot(d, square) ensures 2.0 * n >= d { SquaresOrder(d, 2.0 * n); }
    } else {
      var t := if n >= 0.0 then 2.0 * n else 0.0;
      assert Times(0.0, 0.0) == 0.0;
      var d := RoomAbove(t, square);
    }
  }

  lemma DoubledSquare(n: real)
    ensures Times(2.0 * n, 2.0 * n) == 4.0 * Times(n, n)
  {}

  lemma SquaresOrder(k: real, m: real)
    requires m >= 0.0 && Times(k, k) <= Times(m, m)
    ensures -m <= k <= m
  {
    RootLe(k, m);
  }

  /** The clamp without any root: the numerator never passes a number above the root, in either direction. */
  lemma WithinRoot(left: seq<real>, right: seq<real>, e: real)
    requires SpearmanRho(left, right).Some?
    requires AboveRoot(e, Times(SpearmanRho(left, right).value.left, SpearmanRho(left, right).value.right))
    ensures -e <= SpearmanRho(left, right).value.numerator <= e
  {
    hide Times, Cross;
    var rho := SpearmanRho(left, right).value;
    assert Times(rho.numerator, rho.numerator) <= Times(rho.left, rho.right) by {
      RhoWithin(RankVector(left), RankVector(right));
    }
    SquaresOrder(rho.numerator, e);
  }

  function Swapped(outcome: Outcome): Outcome {
    match outcome
    case CriterionMet => PropositionContradicted
    case PropositionContradicted => CriterionMet
    case other => other
  }

  lemma NegationSwapsOutcome<R>(rho: Rho, reasons: seq<R>)
    requires Times(rho.left, rho.right) > 0.0
    ensures MapOutcome(Negated(Some(rho)), reasons) == Swapped(MapOutcome(Some(rho), reasons))
  {
    hide Times;
    NegatedFactor(rho.numerator, rho.numerator);
    SquarePositive(rho.numerator);
  }

  lemma ProductSign(a: real, b: real)
    requires a >= 0.0 && b >= 0.0 && Times(a, b) != 0.0
    ensures Times(a, b) > 0.0
  {}

  lemma RhoSpread(a: seq<real>, b: seq<real>)
    requires SpearmanRho(a, b).Some?
    ensures Times(SpearmanRho(a, b).value.left, SpearmanRho(a, b).value.right) > 0.0
  {
    hide Times, Cross;
    var rho := SpearmanRho(a, b).value;
    SquaresNonNegative(RankVector(a), Mean(RankVector(a)));
    SquaresNonNegative(RankVector(b), Mean(RankVector(b)));
    ProductSign(rho.left, rho.right);
  }

  /** Reversing either list swaps support and contradiction and nothing else. */
  lemma ReversalSwapsOutcome<R>(a: seq<real>, a': seq<real>, b: seq<real>, b': seq<real>, reasons: seq<R>)
    ensures OppositePattern(a, a') ==>
      MapOutcome(SpearmanRho(a', b), reasons) == Swapped(MapOutcome(SpearmanRho(a, b), reasons))
    ensures OppositePattern(b, b') ==>
      MapOutcome(SpearmanRho(a, b'), reasons) == Swapped(MapOutcome(SpearmanRho(a, b), reasons))
  {
    hide SpearmanRho, MapOutcome, OppositePattern;
    if OppositePattern(a, a') { ReversalNegates(a, a', b); }
    if OppositePattern(b, b') { SecondReversalNegates(a, b, b'); }
    if SpearmanRho(a, b).Some? {
      RhoSpread(a, b);
      NegationSwapsOutcome(SpearmanRho(a, b).value, reasons);
    } else {
      NoRhoNoOutcome(reasons);
    }
  }

  lemma NoRhoNoOutcome<R>(reasons: seq<R>)
    ensures MapOutcome(None, reasons) == NotEvaluated
  {}
}
