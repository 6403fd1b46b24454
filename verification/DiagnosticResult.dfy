/** calculate_r7_result: observations, median reference, ranks, inconclusive reasons and rho. */
module DiagnosticResult {
  import opened Common
  import opened Ordering
  import opened Ranks
  import opened Spearman
  import opened DecimalContext
  import opened DiagnosticWeeks

  datatype Periods = Periods(baselineStart: int, baselineEnd: int, comparisonStart: int, comparisonEnd: int)

  datatype InconclusiveReason = MinimumTotalWeeks | MinimumBaselineWeeks | MinimumComparisonWeeks
                              | ConstantJaccard | ConstantDeviation | UndefinedDenominator

  datatype RankedObservation = RankedObservation(observation: Observation, deviation: real, distanceRank: real,
                                                 deviationRank: real)

  /** The reference is in tenths of a unit. */
  datatype ExecutedResult = ExecutedResult(observations: seq<RankedObservation>, excluded: seq<Exclusion>,
                                           baselineCount: nat, comparisonCount: nat,
                                           reference: Option<int>, rho: Option<Rho>, reasons: seq<InconclusiveReason>)

  /** The only way the calculation raises: indexing an empty deviation list. */
  datatype CalculationError = DeviationIndexOutOfRange

  predicate IntLe(a: int, b: int) { a <= b }

  /** The middle of a sorted list, or the mean of its two middles, in tenths. */
  function Middle(s: seq<int>): int
    requires s != []
  {
    var n := |s|;
    if n % 2 == 1 then 10 * s[n / 2] else 5 * (s[n / 2 - 1] + s[n / 2])
  }

  /** The same with the sum and its half rounded in the default context. */
  function ContextMiddle(s: seq<int>): int
    requires s != []
  {
    var n := |s|;
    if n % 2 == 1 then 10 * s[n / 2] else InContext(5 * InContext(s[n / 2 - 1] + s[n / 2]))
  }

  function Median(values: seq<int>): int
    requires values != []
  {
    Middle(Sort(values, IntLe))
  }

  /** The median as the source computes it. */
  function Reference(values: seq<int>): int
    requires values != []
  {
    ContextMiddle(Sort(values, IntLe))
  }

  /** Weekly revenues of one role, in order. */
  function RoleRevenues(raw: seq<Observation>, role: Role): seq<int> {
    if raw == [] then []
    else
      var n := |raw| - 1;
      RoleRevenues(raw[..n], role) + if raw[n].role == role then [raw[n].revenue] else []
  }

  function Revenues(raw: seq<Observation>): seq<real> {
    seq(|raw|, i requires 0 <= i < |raw| => raw[i].revenue as real)
  }

  /** Revenue minus the reference, in units: exact in tenths, then rounded in the default context. */
  function Deviations(raw: seq<Observation>, reference: int): seq<real> {
    seq(|raw|, i requires 0 <= i < |raw| => InContext(10 * raw[i].revenue - reference) as real / 10.0)
  }

  function Distances(raw: seq<Observation>): seq<real> {
    seq(|raw|, i requires 0 <= i < |raw| => raw[i].distance)
  }

  /** The values of a non-empty list are a single one. */
  predicate AllSame(values: seq<real>) {
    forall i :: 0 <= i < |values| ==> values[i] == values[0]
  }

  function When(condition: bool, reason: InconclusiveReason): seq<InconclusiveReason> {
    if condition then [reason] else []
  }

  function GuardReasons(baselineCount: nat, comparisonCount: nat, distances: seq<real>,
                        deviations: seq<real>): seq<InconclusiveReason> {
    var total := baselineCount + comparisonCount;
    When(total < 8, MinimumTotalWeeks)
    + When(baselineCount < 4, MinimumBaselineWeeks)
    + When(comparisonCount < 4, MinimumComparisonWeeks)
    + When(total > 0 && AllSame(distances), ConstantJaccard)
    + When(total > 0 && AllSame(deviations), ConstantDeviation)
  }

  function RankedObservations(raw: seq<Observation>, deviations: seq<real>): seq<RankedObservation>
    requires |deviations| == |raw|
  {
    seq(|raw|, i requires 0 <= i < |raw| =>
      RankedObservation(raw[i], deviations[i], RankOf(Distances(raw), raw[i].distance),
                        RankOf(deviations, deviations[i])))
  }

  /** The result as a function of the observations. */
  function ResultOf(raw: seq<Observation>, excluded: seq<Exclusion>): Result<ExecutedResult, CalculationError> {
    var baseline := RoleRevenues(raw, Baseline);
    var comparisonCount := |RoleRevenues(raw, Comparison)|;
    if baseline == [] then
      if raw != [] then Err(DeviationIndexOutOfRange)
      else Ok(ExecutedResult([], excluded, 0, 0, None, None, GuardReasons(0, 0, [], [])))
    else
      var reference := Reference(baseline);
      var deviations := Deviations(raw, reference);
      var guards := GuardReasons(|baseline|, comparisonCount, Distances(raw), deviations);
      var rho := if guards != [] then None else SpearmanRho(Distances(raw), deviations);
      var reasons := if guards == [] && rho.None? then [UndefinedDenominator] else guards;
      Ok(ExecutedResult(RankedObservations(raw, deviations), excluded, |baseline|, comparisonCount, Some(reference),
                        rho, reasons))
  }

  function RawOf(p: Periods, rows: seq<Transaction>): seq<Observation> {
    var baseline := Products(rows, p.baselineStart, p.baselineEnd);
    Observations(Baseline, FullWeeks(p.baselineStart, p.baselineEnd), rows, baseline)
    + Observations(Comparison, FullWeeks(p.comparisonStart, p.comparisonEnd), rows, baseline)
  }

  function ExcludedOf(p: Periods, rows: seq<Transaction>): seq<Exclusion> {
    Exclusions(Baseline, FullWeeks(p.baselineStart, p.baselineEnd), rows)
    + Exclusions(Comparison, FullWeeks(p.comparisonStart, p.comparisonEnd), rows)
  }

  function Calculated(p: Periods, rows: seq<Transaction>): Result<ExecutedResult, CalculationError> {
    ResultOf(RawOf(p, rows), ExcludedOf(p, rows))
  }

  /** Weekly revenues of a role, collected by a loop. */
  method CollectRevenues(raw: seq<Observation>, role: Role) returns (revenues: seq<int>)
    ensures revenues == RoleRevenues(raw, role)
  {
    revenues := [];
    for i := 0 to |raw|
      invariant revenues == RoleRevenues(raw[..i], role)
    {
      assert raw[..i + 1][..i] == raw[..i];
      if raw[i].role == role {
        revenues := revenues + [raw[i].revenue];
      }
    }
    assert raw[..|raw|] == raw;
  }

  method CalculateResult(p: Periods, rows: seq<Transaction>) returns (r: Result<ExecutedResult, CalculationError>)
    ensures r == Calculated(p, rows)
  {
    hide Reference, InContext, SpearmanRho, GuardReasons, Observations, Exclusions, FullWeeks;
    var products := Products(rows, p.baselineStart, p.baselineEnd);
    var rawB, excludedB := ObservePeriod(Baseline, p.baselineStart, p.baselineEnd, rows, products);
    var rawC, excludedC := ObservePeriod(Comparison, p.comparisonStart, p.comparisonEnd, rows, products);
    var raw, excluded := rawB + rawC, excludedB + excludedC;
    var baseline := CollectRevenues(raw, Baseline);
    var comparison := CollectRevenues(raw, Comparison);
    if baseline == [] && raw != [] {
      return Err(DeviationIndexOutOfRange);
    }
    var reference := if baseline == [] then None else Some(Reference(baseline));
    var deviations := if reference.None? then [] else Deviations(raw, reference.value);
    var distances := if reference.None? then [] else Distances(raw);
    var distanceRanks := AverageRanks(distances);
    var deviationRanks := AverageRanks(deviations);
    var observations :=
      seq(|raw|, i requires 0 <= i < |raw| =>
        RankedObservation(raw[i], deviations[i], distanceRanks[i], deviationRanks[i]));
    assert baseline != [] ==> observations == RankedObservations(raw, deviations);
    assert baseline == [] ==> RoleRevenues(raw, Comparison) == [];
    GuardsCover(|baseline|, |comparison|, distances, deviations);
    var reasons := GuardReasons(|baseline|, |comparison|, distances, deviations);
    var rho: Option<Rho> := None;
    if reasons == [] {
      rho := ComputeRho(distances, deviations);
      if rho.None? {
        reasons := [UndefinedDenominator];
      }
    }
    r := Ok(ExecutedResult(observations, excluded, |baseline|, |comparison|, reference, rho, reasons));
  }

  // ---- What the result guarantees ----

  /** Observed revenues between zero and t. */
  ghost predicate Within(raw: seq<Observation>, t: int) {
    forall o :: o in raw ==> 0 <= o.revenue <= t
  }

  /** How far past 10^27 revenues may go with their deviations still in order. */
  const MARGIN: int := 2

  lemma ReferenceExact(values: seq<int>)
    requires values != [] && forall v :: v in values ==> 0 <= v <= Tenth()
    ensures Reference(values) == Median(values) && 0 <= Reference(values) <= Limit()
  {
    hide InContext, Limit, Tenth, Sort;
    SortMembers(values, IntLe);
    var s := Sort(values, IntLe);
    var h := |s| / 2;
    assert s[h] in s && (h > 0 ==> s[h - 1] in s);
    LimitIsTens();
    if |s| % 2 == 0 {
      FittingUnchanged(s[h - 1] + s[h]);
      FittingUnchanged(5 * (s[h - 1] + s[h]));
    }
  }

  /** With revenues up to 10^27 the deviations are the revenues less one number. */
  lemma DeviationsExact(raw: seq<Observation>, reference: int)
    requires Within(raw, Tenth()) && 0 <= reference <= Limit()
    ensures forall i :: 0 <= i < |raw| ==> Deviations(raw, reference)[i] == Revenues(raw)[i] - reference as real / 10.0
  {
    hide InContext, Limit, Tenth;
    LimitIsTens();
    forall i | 0 <= i < |raw| ensures Deviations(raw, reference)[i] == Revenues(raw)[i] - reference as real / 10.0 {
      assert raw[i] in raw;
      FittingUnchanged(10 * raw[i].revenue - reference);
      TenthsApart(raw[i].revenue, reference);
    }
  }

  lemma TenthsApart(revenue: int, reference: int)
    ensures (10 * revenue - reference) as real / 10.0 == revenue as real - reference as real / 10.0
  {
    assert (10 * revenue - reference) as real == 10.0 * revenue as real - reference as real;
  }

  /** The references that revenues up to the margin give: whole units, or halves within the limit. */
  predicate OnGrid(reference: int) {
    || (reference % 10 == 0 && 0 <= reference <= Limit() + 10 * MARGIN)
    || (reference % 10 == 5 && 0 <= reference <= Limit())
  }

  lemma ReferenceOnGrid(values: seq<int>)
    requires values != [] && forall v :: v in values ==> 0 <= v <= Tenth() + MARGIN
    ensures OnGrid(Reference(values))
  {
    hide InContext, Limit, Tenth, Sort;
    LimitIsTens();
    SortMembers(values, IntLe);
    var s := Sort(values, IntLe);
    var h := |s| / 2;
    assert s[h] in s && (h > 0 ==> s[h - 1] in s);
    if |s| % 2 == 0 {
      var sum := s[h - 1] + s[h];
      FittingUnchanged(sum);
      HalfOnGrid(sum);
    }
  }

  lemma HalfOnGrid(sum: int)
    requires 0 <= sum <= 2 * Tenth() + 2 * MARGIN
    ensures OnGrid(InContext(5 * sum))
  {
    hide InContext, Limit, Tenth;
    LimitIsTens();
    if 5 * sum <= Limit() {
      FittingUnchanged(5 * sum);
    } else {
      NearLimit(sum - 2 * Tenth());
    }
  }

  /** The steps of five just past the limit: halves go to the even unit. */
  lemma NearLimit(steps: int)
    requires 0 < steps <= 5
    ensures InContext(Limit() + 5 * steps) == Limit() + (if steps == 1 then 0 else if steps == 2 then 10 else 20)
  {
    hide InContext, Limit, Tenth;
    var h := TenthEven();
    if steps == 1 || steps == 3 {
      HalfwayFromEven(h);
    } else if steps == 5 {
      HalfwayFromEven(h + 1);
    } else if steps == 2 {
      TensUnchanged(2 * h + 1);
    } else {
      TensUnchanged(2 * h + 2);
    }
  }

  /** A whole number of units, up to two past 10^27, needs no rounding. */
  lemma WholeUnits(k: int)
    requires 0 - Tenth() - MARGIN <= k <= Tenth() + MARGIN
    ensures InContext(10 * k) == 10 * k
  {
    hide InContext, Limit, Tenth;
    LimitIsTens();
    if Fits(10 * k) {
      FittingUnchanged(10 * k);
    } else if k > 0 {
      TensUnchanged(k);
    } else {
      TensUnchanged(0 - k);
      SignsAlike(10 * (0 - k));
    }
  }

  /** Half a unit more than a whole number: exact below 10^27 units, then rounded down once and up once. */
  lemma HalfUnits(k: int)
    requires 0 - Tenth() <= k <= Tenth() + 1
    ensures InContext(10 * k + 5) == if k < Tenth() then 10 * k + 5 else if k == Tenth() then 10 * k else 10 * k + 10
  {
    hide InContext, Limit, Tenth;
    LimitIsTens();
    if k < Tenth() {
      FittingUnchanged(10 * k + 5);
    } else {
      NearLimit(if k == Tenth() then 1 else 3);
    }
  }

  lemma WholeReferenceKeepsOrder(u: int, v: int, m: int)
    requires 0 <= u < v <= Tenth() + MARGIN && 0 <= m <= Tenth() + MARGIN
    ensures InContext(10 * u - 10 * m) < InContext(10 * v - 10 * m)
  {
    hide InContext, Tenth;
    WholeUnits(u - m);
    WholeUnits(v - m);
    assert 10 * u - 10 * m == 10 * (u - m) && 10 * v - 10 * m == 10 * (v - m);
  }

  lemma HalfReferenceKeepsOrder(u: int, v: int, m: int)
    requires 0 <= u < v <= Tenth() + MARGIN && 0 <= m < Tenth()
    ensures InContext(10 * u - (10 * m + 5)) < InContext(10 * v - (10 * m + 5))
  {
    hide InContext, Tenth;
    HalfUnits(u - m - 1);
    HalfUnits(v - m - 1);
    assert 10 * u - (10 * m + 5) == 10 * (u - m - 1) + 5 && 10 * v - (10 * m + 5) == 10 * (v - m - 1) + 5;
  }

  /** On the grid, more revenue within the margin still deviates more. */
  lemma DeviationKeepsOrder(u: int, v: int, reference: int)
    requires 0 <= u < v <= Tenth() + MARGIN && OnGrid(reference)
    ensures InContext(10 * u - reference) < InContext(10 * v - reference)
  {
    hide InContext, Tenth, Limit;
    LimitIsTens();
    var m := reference / 10;
    if reference == 10 * m {
      WholeReferenceKeepsOrder(u, v, m);
    } else {
      assert reference == 10 * m + 5;
      HalfReferenceKeepsOrder(u, v, m);
    }
  }

  /** With revenues up to the margin the deviations have the order of the revenues. */
  lemma ShiftKeepsPattern(raw: seq<Observation>, reference: int)
    requires Within(raw, Tenth() + MARGIN) && OnGrid(reference)
    ensures SamePattern(Revenues(raw), Deviations(raw, reference))
    ensures AllSame(Deviations(raw, reference)) <==> AllSame(Revenues(raw))
  {
    hide InContext, Limit, Tenth, OnGrid;
    var a, b := Deviations(raw, reference), Revenues(raw);
    forall i, j | 0 <= i < |raw| && 0 <= j < |raw| ensures b[i] < b[j] <==> a[i] < a[j] {
      assert raw[i] in raw && raw[j] in raw;
      if raw[i].revenue < raw[j].revenue { DeviationKeepsOrder(raw[i].revenue, raw[j].revenue, reference); }
      if raw[j].revenue < raw[i].revenue { DeviationKeepsOrder(raw[j].revenue, raw[i].revenue, reference); }
    }
    assert forall i :: 0 <= i < |raw| ==> (a[i] == a[0] <==> !(a[i] < a[0]) && !(a[0] < a[i]));
    assert forall i :: 0 <= i < |raw| ==> (b[i] == b[0] <==> !(b[i] < b[0]) && !(b[0] < b[i]));
  }

  lemma PatternReflexive(values: seq<real>)
    ensures SamePattern(values, values)
  {}

  lemma {:induction false} RoleCounts(raw: seq<Observation>)
    ensures |RoleRevenues(raw, Baseline)| + |RoleRevenues(raw, Comparison)| == |raw|
  {
    if raw != [] { RoleCounts(raw[..|raw| - 1]); }
  }

  lemma {:induction false} RoleRevenueMembers(raw: seq<Observation>, role: Role)
    ensures forall v :: v in RoleRevenues(raw, role) ==> exists o :: o in raw && o.revenue == v
  {
    if raw != [] {
      var n := |raw| - 1;
      RoleRevenueMembers(raw[..n], role);
      assert forall o :: o in raw <==> o in raw[..n] || o == raw[n];
    }
  }

  lemma ReferenceOfRaw(raw: seq<Observation>, role: Role)
    requires Within(raw, Tenth() + MARGIN) && RoleRevenues(raw, role) != []
    ensures OnGrid(Reference(RoleRevenues(raw, role)))
  {
    hide Limit, Reference, OnGrid, Tenth;
    RoleRevenueMembers(raw, role);
    ReferenceOnGrid(RoleRevenues(raw, role));
  }

  /** Rho of distances and deviations is defined exactly when neither is constant. */
  lemma DeviationRho(raw: seq<Observation>, reference: int)
    requires raw != []
    ensures SpearmanRho(Distances(raw), Deviations(raw, reference)).None? <==>
      AllSame(Distances(raw)) || AllSame(Deviations(raw, reference))
  {
    hide SpearmanRho, InContext;
    var distances, deviations := Distances(raw), Deviations(raw, reference);
    assert Constant(distances) <==> AllSame(distances);
    assert Constant(deviations) <==> AllSame(deviations);
    RhoUndefinedExactly(distances, deviations);
  }

  /** With revenues up to the margin rho over deviations is rho over revenues. */
  lemma ShiftedRho(raw: seq<Observation>, reference: int)
    requires Within(raw, Tenth() + MARGIN) && OnGrid(reference)
    ensures SpearmanRho(Distances(raw), Deviations(raw, reference)) == SpearmanRho(Distances(raw), Revenues(raw))
  {
    hide SpearmanRho, InContext, Limit, Within, OnGrid, Tenth;
    ShiftKeepsPattern(raw, reference);
    PatternReflexive(Distances(raw));
    RhoDependsOnOrder(Distances(raw), Revenues(raw), Distances(raw), Deviations(raw, reference));
  }

  lemma GuardsCover(baselineCount: nat, comparisonCount: nat, distances: seq<real>, deviations: seq<real>)
    ensures var guards := GuardReasons(baselineCount, comparisonCount, distances, deviations);
      && UndefinedDenominator !in guards
      && (guards == [] ==> baselineCount >= 4 && !AllSame(distances) && !AllSame(deviations))
      && (baselineCount == 0 ==> guards != [])
  {
    var guards := GuardReasons(baselineCount, comparisonCount, distances, deviations);
    if guards == [] {
      assert |guards| == 0;
    }
    if baselineCount == 0 { assert MinimumBaselineWeeks in guards; }
  }

  /** What a result holds, said of the rows. */
  ghost predicate TellsRows(p: Periods, rows: seq<Transaction>, e: ExecutedResult, baseline: set<string>) {
    && (forall x :: x in baseline <==> Sold(rows, p.baselineStart, p.baselineEnd, x))
    && (forall i :: 0 <= i < |e.observations| ==> Distanced(e.observations[i].observation, rows, baseline))
    && (forall x :: x in e.excluded ==> WithoutRows(x, rows))
  }

  /** A result's observations and exclusions are those of the two periods. */
  lemma ResultShape(p: Periods, rows: seq<Transaction>)
    ensures Calculated(p, rows).Ok? ==>
      var e, raw := Calculated(p, rows).value, RawOf(p, rows);
      && |e.observations| == |raw| && e.excluded == ExcludedOf(p, rows)
      && forall i :: 0 <= i < |raw| ==> e.observations[i].observation == raw[i]
  {
    hide RawOf, ExcludedOf, GuardReasons, SpearmanRho, Reference, InContext;
    RoleCounts(RawOf(p, rows));
  }

  /**
   * Every observation of a result has the products of its week and their distance from those of the baseline period.
   */
  lemma ObservedDistances(p: Periods, rows: seq<Transaction>)
    ensures Calculated(p, rows).Ok? ==>
      TellsRows(p, rows, Calculated(p, rows).value, Products(rows, p.baselineStart, p.baselineEnd))
  {
    ResultShape(p, rows);
    RawDistanced(p, rows);
    hide Calculated, RawOf, ExcludedOf, Distanced, WithoutRows, Products, Sold;
    if Calculated(p, rows).Ok? {
      var e, raw := Calculated(p, rows).value, RawOf(p, rows);
      forall i | 0 <= i < |e.observations|
        ensures Distanced(e.observations[i].observation, rows, Products(rows, p.baselineStart, p.baselineEnd))
      {
        assert raw[i] in raw;
      }
    }
  }

  lemma RawDistanced(p: Periods, rows: seq<Transaction>)
    ensures var baseline := Products(rows, p.baselineStart, p.baselineEnd);
      && (forall x :: x in baseline <==> Sold(rows, p.baselineStart, p.baselineEnd, x))
      && (forall o :: o in RawOf(p, rows) ==> Distanced(o, rows, baseline))
      && (forall x :: x in ExcludedOf(p, rows) ==> WithoutRows(x, rows))
  {
    var baseline := Products(rows, p.baselineStart, p.baselineEnd);
    var bw, cw := FullWeeks(p.baselineStart, p.baselineEnd), FullWeeks(p.comparisonStart, p.comparisonEnd);
    ObservationsDistanced(Baseline, bw, rows, baseline);
    ObservationsDistanced(Comparison, cw, rows, baseline);
    ExclusionsWithoutRows(Baseline, bw, rows);
    ExclusionsWithoutRows(Comparison, cw, rows);
    assert forall x :: x in baseline <==> Sold(rows, p.baselineStart, p.baselineEnd, x);
    hide Products, Observations, Exclusions, FullWeeks, Distanced, WithoutRows, Sold;
  }

  // ---- The observations, in order and with their ranks ----

  /** Weeks of the baseline come before those of the comparison, and each role's weeks ascend. */
  predicate Before(a: Role, v: Week, b: Role, w: Week) {
    (a == Baseline && b == Comparison) || (a == b && v.end < w.start)
  }

  /** What a result says of each observation besides the rows it sums up. */
  ghost predicate ResultTells(e: ExecutedResult) {
    var distances, deviations := ListedDistances(e.observations), ListedDeviations(e.observations);
    && (forall i, o :: 0 <= i < |e.observations| && o == e.observations[i] ==>
         && o.distanceRank == RankOf(distances, o.observation.distance)
         && o.deviationRank == RankOf(deviations, o.deviation)
         && e.reference.Some?
         && o.deviation == InContext(10 * o.observation.revenue - e.reference.value) as real / 10.0)
    && e.reference == (if ListedBaseline(e.observations) == [] then None
                       else Some(Reference(ListedBaseline(e.observations))))
    && e.rho == if e.reasons == [] then SpearmanRho(distances, deviations) else None
  }

  ghost predicate InWeekOrder(e: ExecutedResult) {
    && (forall i, j :: 0 <= i < j < |e.observations| ==>
         var a, b := e.observations[i].observation, e.observations[j].observation;
         Before(a.role, a.week, b.role, b.week))
    && forall i, j :: 0 <= i < j < |e.excluded| ==>
         Before(e.excluded[i].role, e.excluded[i].week, e.excluded[j].role, e.excluded[j].week)
  }

  lemma {:induction false} ObservationsAscend(role: Role, weeks: seq<Week>, rows: seq<Transaction>,
                                              baseline: set<string>)
    requires forall i, j :: 0 <= i < j < |weeks| ==> weeks[i].end < weeks[j].start
    ensures var raw := Observations(role, weeks, rows, baseline);
      && (forall o :: o in raw ==> o.role == role && o.week in weeks)
      && RawInOrder(raw)
  {
    if weeks != [] {
      var n := |weeks| - 1;
      var before := Observations(role, weeks[..n], rows, baseline);
      ObservationsAscend(role, weeks[..n], rows, baseline);
      hide Products, WeekSum, JaccardDistance;
      assert forall i :: 0 <= i < |before| ==> before[i] in before;
      assert forall w :: w in weeks[..n] ==> w in weeks && w.end < weeks[n].start;
    }
  }

  lemma {:induction false} ExclusionsAscend(role: Role, weeks: seq<Week>, rows: seq<Transaction>)
    requires forall i, j :: 0 <= i < j < |weeks| ==> weeks[i].end < weeks[j].start
    ensures var excluded := Exclusions(role, weeks, rows);
      && (forall x :: x in excluded ==> x.role == role && x.week in weeks)
      && ExcludedInOrder(excluded)
  {
    if weeks != [] {
      var n := |weeks| - 1;
      var before := Exclusions(role, weeks[..n], rows);
      ExclusionsAscend(role, weeks[..n], rows);
      hide Products;
      assert forall i :: 0 <= i < |before| ==> before[i] in before;
      assert forall w :: w in weeks[..n] ==> w in weeks && w.end < weeks[n].start;
    }
  }

  ghost predicate RawInOrder(raw: seq<Observation>) {
    forall i, j :: 0 <= i < j < |raw| ==> Before(raw[i].role, raw[i].week, raw[j].role, raw[j].week)
  }

  ghost predicate ExcludedInOrder(excluded: seq<Exclusion>) {
    forall i, j :: 0 <= i < j < |excluded| ==>
      Before(excluded[i].role, excluded[i].week, excluded[j].role, excluded[j].week)
  }

  lemma RawListed(p: Periods, rows: seq<Transaction>)
    ensures RawInOrder(RawOf(p, rows))
  {
    var baseline := Products(rows, p.baselineStart, p.baselineEnd);
    var bw, cw := FullWeeks(p.baselineStart, p.baselineEnd), FullWeeks(p.comparisonStart, p.comparisonEnd);
    FullWeeksExact(p.baselineStart, p.baselineEnd);
    FullWeeksExact(p.comparisonStart, p.comparisonEnd);
    hide FullWeeks, Products, Observations, Before, FullWeekWithin;
    ObservationsAscend(Baseline, bw, rows, baseline);
    ObservationsAscend(Comparison, cw, rows, baseline);
    ObservationsInOrder(Observations(Baseline, bw, rows, baseline), Observations(Comparison, cw, rows, baseline));
  }

  lemma ExcludedListed(p: Periods, rows: seq<Transaction>)
    ensures ExcludedInOrder(ExcludedOf(p, rows))
  {
    var bw, cw := FullWeeks(p.baselineStart, p.baselineEnd), FullWeeks(p.comparisonStart, p.comparisonEnd);
    FullWeeksExact(p.baselineStart, p.baselineEnd);
    FullWeeksExact(p.comparisonStart, p.comparisonEnd);
    hide FullWeeks, Exclusions, Before, FullWeekWithin;
    ExclusionsAscend(Baseline, bw, rows);
    ExclusionsAscend(Comparison, cw, rows);
    ExclusionsInOrder(Exclusions(Baseline, bw, rows), Exclusions(Comparison, cw, rows));
  }

  /** Observations and exclusions are listed by role and week. */
  lemma ListedByWeek(p: Periods, rows: seq<Transaction>)
    ensures Calculated(p, rows).Ok? ==> InWeekOrder(Calculated(p, rows).value)
  {
    ResultShape(p, rows);
    RawListed(p, rows);
    ExcludedListed(p, rows);
    hide Calculated, RawOf, ExcludedOf, Before;
  }

  lemma ExclusionsInOrder(b: seq<Exclusion>, c: seq<Exclusion>)
    requires (forall x :: x in b ==> x.role == Baseline) && forall x :: x in c ==> x.role == Comparison
    requires ExcludedInOrder(b) && ExcludedInOrder(c)
    ensures ExcludedInOrder(b + c)
  {
    assert forall i :: 0 <= i < |b + c| ==> (b + c)[i] == if i < |b| then b[i] else c[i - |b|];
  }

  lemma ObservationsInOrder(b: seq<Observation>, c: seq<Observation>)
    requires (forall o :: o in b ==> o.role == Baseline) && forall o :: o in c ==> o.role == Comparison
    requires RawInOrder(b) && RawInOrder(c)
    ensures RawInOrder(b + c)
  {
    assert forall i :: 0 <= i < |b + c| ==> (b + c)[i] == if i < |b| then b[i] else c[i - |b|];
  }

  ghost function ListedDistances(observations: seq<RankedObservation>): seq<real> {
    seq(|observations|, i requires 0 <= i < |observations| => observations[i].observation.distance)
  }

  ghost function ListedDeviations(observations: seq<RankedObservation>): seq<real> {
    seq(|observations|, i requires 0 <= i < |observations| => observations[i].deviation)
  }

  /** The revenues of the baseline weeks. */
  ghost function ListedBaseline(observations: seq<RankedObservation>): seq<int> {
    if observations == [] then []
    else
      var n := |observations| - 1;
      var o := observations[n].observation;
      ListedBaseline(observations[..n]) + if o.role == Baseline then [o.revenue] else []
  }

  lemma {:induction false} BaselineListed(raw: seq<Observation>, observations: seq<RankedObservation>)
    requires |observations| == |raw| && forall i :: 0 <= i < |raw| ==> observations[i].observation == raw[i]
    ensures ListedBaseline(observations) == RoleRevenues(raw, Baseline)
  {
    if raw != [] { BaselineListed(raw[..|raw| - 1], observations[..|raw| - 1]); }
  }

  lemma RankedLists(raw: seq<Observation>, deviations: seq<real>)
    requires |deviations| == |raw|
    ensures var observations := RankedObservations(raw, deviations);
      && ListedDistances(observations) == Distances(raw) && ListedDeviations(observations) == deviations
  {
    hide RankOf;
  }

  /** The ranks are those among the listed distances and deviations, and rho is theirs when no reason is given. */
  lemma ResultRanks(p: Periods, rows: seq<Transaction>)
    ensures Calculated(p, rows).Ok? ==> ResultTells(Calculated(p, rows).value)
  {
    hide RawOf, ExcludedOf;
    if Calculated(p, rows).Ok? { RanksTell(RawOf(p, rows), ExcludedOf(p, rows)); }
  }

  lemma RanksTell(raw: seq<Observation>, excluded: seq<Exclusion>)
    requires ResultOf(raw, excluded).Ok?
    ensures ResultTells(ResultOf(raw, excluded).value)
  {
    hide Reference, InContext, GuardReasons, SpearmanRho, RankOf, RoleRevenues, ListedDistances, ListedDeviations;
    var e, baseline := ResultOf(raw, excluded).value, RoleRevenues(raw, Baseline);
    if baseline == [] {
      RoleCounts(raw);
      GuardsListed(0, 0, [], [], MinimumTotalWeeks);
      assert e.reasons == GuardReasons(0, 0, [], []);
      assert ListedBaseline([]) == [];
    } else {
      BaselineListed(raw, e.observations);
      RankedLists(raw, Deviations(raw, Reference(baseline)));
    }
  }

  // ---- The reasons ----

  function WeeksOf(observations: seq<RankedObservation>, role: Role): nat {
    if observations == [] then 0
    else
      var n := |observations| - 1;
      WeeksOf(observations[..n], role) + if observations[n].observation.role == role then 1 else 0
  }

  ghost predicate DistancesAgree(observations: seq<RankedObservation>) {
    forall i, j :: 0 <= i < |observations| && 0 <= j < |observations| ==>
      observations[i].observation.distance == observations[j].observation.distance
  }

  ghost predicate DeviationsAgree(observations: seq<RankedObservation>) {
    forall i, j :: 0 <= i < |observations| && 0 <= j < |observations| ==>
      observations[i].deviation == observations[j].deviation
  }

  /** Why a result is inconclusive: too few weeks, in all or of a role, or nothing that varies. */
  ghost predicate ReasonHolds(e: ExecutedResult, r: InconclusiveReason) {
    match r
    case MinimumTotalWeeks => |e.observations| < 8
    case MinimumBaselineWeeks => WeeksOf(e.observations, Baseline) < 4
    case MinimumComparisonWeeks => WeeksOf(e.observations, Comparison) < 4
    case ConstantJaccard => e.observations != [] && DistancesAgree(e.observations)
    case ConstantDeviation => e.observations != [] && DeviationsAgree(e.observations)
    case UndefinedDenominator => false
  }

  lemma {:induction false} WeeksCounted(raw: seq<Observation>, observations: seq<RankedObservation>, role: Role)
    requires |observations| == |raw| && forall i :: 0 <= i < |raw| ==> observations[i].observation == raw[i]
    ensures WeeksOf(observations, role) == |RoleRevenues(raw, role)|
  {
    if raw != [] { WeeksCounted(raw[..|raw| - 1], observations[..|raw| - 1], role); }
  }

  lemma GuardsListed(b: nat, c: nat, distances: seq<real>, deviations: seq<real>, r: InconclusiveReason)
    ensures r in GuardReasons(b, c, distances, deviations) <==>
      match r
      case MinimumTotalWeeks => b + c < 8
      case MinimumBaselineWeeks => b < 4
      case MinimumComparisonWeeks => c < 4
      case ConstantJaccard => b + c > 0 && AllSame(distances)
      case ConstantDeviation => b + c > 0 && AllSame(deviations)
      case UndefinedDenominator => false
  {
    hide AllSame;
  }

  /** The order in which reasons are given. */
  function ReasonPlace(r: InconclusiveReason): nat {
    match r
    case MinimumTotalWeeks => 0
    case MinimumBaselineWeeks => 1
    case MinimumComparisonWeeks => 2
    case ConstantJaccard => 3
    case ConstantDeviation => 4
    case UndefinedDenominator => 5
  }

  lemma GuardsInOrder(b: nat, c: nat, distances: seq<real>, deviations: seq<real>)
    ensures var guards := GuardReasons(b, c, distances, deviations);
      forall i, j :: 0 <= i < j < |guards| ==> ReasonPlace(guards[i]) < ReasonPlace(guards[j])
  {
    hide AllSame;
  }

  /** A result gives exactly the reasons that hold, and counts the weeks of each role. */
  lemma ReasonsExactly(p: Periods, rows: seq<Transaction>)
    ensures Calculated(p, rows).Ok? ==>
      var e := Calculated(p, rows).value;
      && e.baselineCount == WeeksOf(e.observations, Baseline)
      && e.comparisonCount == WeeksOf(e.observations, Comparison)
      && (forall r :: r in e.reasons <==> ReasonHolds(e, r))
      && forall i, j :: 0 <= i < j < |e.reasons| ==> ReasonPlace(e.reasons[i]) < ReasonPlace(e.reasons[j])
  {
    ResultShape(p, rows);
    ReasonsDecideRho(p, rows);
    if Calculated(p, rows).Err? { return; }
    hide RawOf, ExcludedOf, Reference, InContext, GuardReasons, SpearmanRho;
    var e, raw := Calculated(p, rows).value, RawOf(p, rows);
    WeeksCounted(raw, e.observations, Baseline);
    WeeksCounted(raw, e.observations, Comparison);
    RoleCounts(raw);
    var baseline := RoleRevenues(raw, Baseline);
    var distances := Distances(raw);
    var deviations := if baseline == [] then [] else Deviations(raw, Reference(baseline));
    var c := |RoleRevenues(raw, Comparison)|;
    SameMeans(e.observations, distances, deviations);
    GuardsCover(|baseline|, c, distances, deviations);
    if baseline != [] { DeviationRho(raw, Reference(baseline)); }
    assert e.reasons == GuardReasons(|baseline|, c, distances, deviations);
    GuardsInOrder(|baseline|, c, distances, deviations);
    forall r ensures r in e.reasons <==> ReasonHolds(e, r) {
      GuardsListed(|baseline|, c, distances, deviations, r);
    }
  }

  lemma SameMeans(observations: seq<RankedObservation>, distances: seq<real>, deviations: seq<real>)
    requires |distances| == |observations| == |deviations|
    requires forall i :: 0 <= i < |observations| ==>
      observations[i].observation.distance == distances[i] && observations[i].deviation == deviations[i]
    ensures observations != [] ==> (DistancesAgree(observations) <==> AllSame(distances))
    ensures observations != [] ==> (DeviationsAgree(observations) <==> AllSame(deviations))
  {}

  /** The denominator reason never arises: without guard reasons rho is defined. */
  lemma ReasonsDecideRho(p: Periods, rows: seq<Transaction>)
    ensures Calculated(p, rows).Ok? ==>
      var e := Calculated(p, rows).value;
      UndefinedDenominator !in e.reasons && (e.reasons == [] <==> e.rho.Some?)
  {
    if Calculated(p, rows).Err? { return; }
    hide SpearmanRho, RawOf, ExcludedOf, GuardReasons, AllSame, Reference, InContext;
    var raw := RawOf(p, rows);
    var baseline := RoleRevenues(raw, Baseline);
    if baseline == [] {
      GuardsCover(0, 0, [], []);
    } else {
      var reference := Reference(baseline);
      assert raw != [];
      DeviationRho(raw, reference);
      GuardsCover(|baseline|, |RoleRevenues(raw, Comparison)|, Distances(raw), Deviations(raw, reference));
    }
  }

  /** Non-negative lines with no weekly total past t. */
  ghost predicate WeeklyTotals(p: Periods, rows: seq<Transaction>, t: int) {
    && NonNegative(rows)
    && WeeksWithin(rows, FullWeeks(p.baselineStart, p.baselineEnd), t)
    && WeeksWithin(rows, FullWeeks(p.comparisonStart, p.comparisonEnd), t)
  }

  lemma {:induction false} ObservedWithin(role: Role, weeks: seq<Week>, rows: seq<Transaction>, baseline: set<string>,
                                          t: int)
    requires NonNegative(rows) && WeeksWithin(rows, weeks, t) && t <= Limit()
    ensures Within(Observations(role, weeks, rows, baseline), t)
  {
    hide InContext, Limit, Products, Revenue, WeekSum, NonNegative, JaccardDistance;
    if weeks != [] {
      var n := |weeks| - 1;
      assert weeks[n] in weeks && forall w :: w in weeks[..n] ==> w in weeks;
      ObservedWithin(role, weeks[..n], rows, baseline, t);
      WeekSumSaturates(rows, weeks[n].start, weeks[n].end);
    }
  }

  lemma TotalsWithin(p: Periods, rows: seq<Transaction>, t: int)
    requires WeeklyTotals(p, rows, t) && t <= Limit()
    ensures Within(RawOf(p, rows), t)
  {
    hide Observations, FullWeeks, Products, NonNegative, WeeksWithin, Limit;
    var products := Products(rows, p.baselineStart, p.baselineEnd);
    ObservedWithin(Baseline, FullWeeks(p.baselineStart, p.baselineEnd), rows, products, t);
    ObservedWithin(Comparison, FullWeeks(p.comparisonStart, p.comparisonEnd), rows, products, t);
  }

  /** Weekly totals up to two past 10^27. */
  ghost predicate Moderate(p: Periods, rows: seq<Transaction>) {
    WeeklyTotals(p, rows, Tenth() + MARGIN)
  }

  lemma ModerateWithin(p: Periods, rows: seq<Transaction>)
    requires Moderate(p, rows)
    ensures Within(RawOf(p, rows), Tenth() + MARGIN)
  {
    hide RawOf, WeeklyTotals, Tenth, Limit;
    LimitIsTens();
    TotalsWithin(p, rows, Tenth() + MARGIN);
  }

  /** The deviations of a calculation, when it has a reference, have the order of its weekly revenues. */
  ghost predicate DeviationsInOrder(p: Periods, rows: seq<Transaction>) {
    var raw := RawOf(p, rows);
    RoleRevenues(raw, Baseline) != [] ==>
      SamePattern(Revenues(raw), Deviations(raw, Reference(RoleRevenues(raw, Baseline))))
  }

  lemma ModerateInOrder(p: Periods, rows: seq<Transaction>)
    requires Moderate(p, rows)
    ensures DeviationsInOrder(p, rows)
  {
    hide RawOf, Within, OnGrid, Reference, InContext, Moderate, AllSame, Tenth;
    var raw := RawOf(p, rows);
    ModerateWithin(p, rows);
    if RoleRevenues(raw, Baseline) != [] {
      ReferenceOfRaw(raw, Baseline);
      ShiftKeepsPattern(raw, Reference(RoleRevenues(raw, Baseline)));
    }
  }

  /** With weekly totals up to two past 10^27 a defined rho is the correlation of distance with revenue itself. */
  lemma ConclusiveRho(p: Periods, rows: seq<Transaction>)
    requires Moderate(p, rows)
    ensures Calculated(p, rows).Ok? && Calculated(p, rows).value.reasons == [] ==>
      Calculated(p, rows).value.rho == SpearmanRho(Distances(RawOf(p, rows)), Revenues(RawOf(p, rows)))
  {
    hide SpearmanRho, RawOf, ExcludedOf, GuardReasons, AllSame, Reference, InContext, Within, OnGrid, Moderate, Tenth;
    var raw := RawOf(p, rows);
    ModerateWithin(p, rows);
    GuardsCover(0, 0, [], []);
    if RoleRevenues(raw, Baseline) != [] {
      ReferenceOfRaw(raw, Baseline);
      ShiftedRho(raw, Reference(RoleRevenues(raw, Baseline)));
    }
  }

  /** The outcome that correlating distance with revenue itself gives. */
  function RevenueOutcome(p: Periods, rows: seq<Transaction>): Outcome {
    var none: seq<InconclusiveReason> := [];
    MapOutcome(SpearmanRho(Distances(RawOf(p, rows)), Revenues(RawOf(p, rows))), none)
  }

  /** A conclusive calculation has the outcome of revenue itself. */
  ghost predicate MedianWithoutInfluence(p: Periods, rows: seq<Transaction>) {
    var r := Calculated(p, rows);
    r.Ok? && r.value.reasons == [] ==> MapOutcome(r.value.rho, r.value.reasons) == RevenueOutcome(p, rows)
  }

  /** Then the executed outcome is decided without any reference to the baseline median. */
  lemma OutcomeIgnoresMedian(p: Periods, rows: seq<Transaction>)
    requires Moderate(p, rows)
    ensures MedianWithoutInfluence(p, rows)
  {
    hide Calculated, MapOutcome, SpearmanRho, Moderate, RawOf;
    ConclusiveRho(p, rows);
  }

  /**
   * And the calculation is conclusive exactly with four weeks of each role and neither distances nor revenues constant.
   */
  lemma ConclusiveExactly(p: Periods, rows: seq<Transaction>)
    requires Moderate(p, rows)
    ensures Calculated(p, rows).Ok? ==>
      var reasons, raw := Calculated(p, rows).value.reasons, RawOf(p, rows);
      && (reasons == [] <==>
            && |RoleRevenues(raw, Baseline)| >= 4 && |RoleRevenues(raw, Comparison)| >= 4
            && !AllSame(Distances(raw)) && !AllSame(Revenues(raw)))
      && (MinimumTotalWeeks in reasons ==> MinimumBaselineWeeks in reasons || MinimumComparisonWeeks in reasons)
  {
    hide SpearmanRho, RawOf, ExcludedOf, GuardReasons, AllSame, Reference, InContext, Within, OnGrid, Moderate, Tenth;
    var raw := RawOf(p, rows);
    var baseline, comparison := RoleRevenues(raw, Baseline), RoleRevenues(raw, Comparison);
    ModerateWithin(p, rows);
    RoleCounts(raw);
    GuardsExactly(0, 0, [], []);
    GuardsCover(0, 0, [], []);
    if baseline != [] {
      ReferenceOfRaw(raw, Baseline);
      var deviations := Deviations(raw, Reference(baseline));
      DeviationRho(raw, Reference(baseline));
      GuardsExactly(|baseline|, |comparison|, Distances(raw), deviations);
      ShiftKeepsPattern(raw, Reference(baseline));
    }
  }

  lemma GuardsExactly(baselineCount: nat, comparisonCount: nat, distances: seq<real>, deviations: seq<real>)
    ensures var guards := GuardReasons(baselineCount, comparisonCount, distances, deviations);
      && (guards == [] <==> baselineCount >= 4 && comparisonCount >= 4 && !AllSame(distances) && !AllSame(deviations))
      && (MinimumTotalWeeks in guards ==> MinimumBaselineWeeks in guards || MinimumComparisonWeeks in guards)
  {
    hide AllSame;
    var guards := GuardReasons(baselineCount, comparisonCount, distances, deviations);
    if guards == [] { assert |guards| == 0; }
    if baselineCount < 4 { assert MinimumBaselineWeeks in guards; }
    if comparisonCount < 4 { assert MinimumComparisonWeeks in guards; }
  }

  // ---- The median ----

  function CountWhere(values: seq<int>, test: int -> bool): nat {
    if values == [] then 0 else (if test(values[0]) then 1 else 0) + CountWhere(values[1..], test)
  }

  /** How many values are at most, and how many at least, a number of tenths. */
  function AtMost(values: seq<int>, tenths: int): nat { CountWhere(values, v => 10 * v <= tenths) }
  function AtLeast(values: seq<int>, tenths: int): nat { CountWhere(values, v => 10 * v >= tenths) }

  lemma {:induction false} CountConcat(a: seq<int>, b: seq<int>, test: int -> bool)
    ensures CountWhere(a + b, test) == CountWhere(a, test) + CountWhere(b, test)
  {
    if a == [] {
      assert a + b == b;
    } else {
      CountConcat(a[1..], b, test);
      assert (a + b)[1..] == a[1..] + b;
    }
  }

  lemma {:induction false} CountAll(s: seq<int>, test: int -> bool)
    requires forall i :: 0 <= i < |s| ==> test(s[i])
    ensures CountWhere(s, test) == |s|
  {
    if s != [] { CountAll(s[1..], test); }
  }

  lemma {:induction false} CountPermutes(a: seq<int>, b: seq<int>, test: int -> bool)
    requires multiset(a) == multiset(b)
    ensures CountWhere(a, test) == CountWhere(b, test)
  {
    if a == [] {
      EmptyMatch(b);
    } else {
      var i := DropMatching(a, b);
      CountPermutes(a[1..], b[..i] + b[i + 1..], test);
      CountConcat(b[..i], b[i + 1..], test);
      CountConcat(b[..i], b[i..], test);
      assert b == b[..i] + b[i..] && b[i..][1..] == b[i + 1..];
    }
  }

  lemma CountPart(s: seq<int>, from: nat, to: nat, test: int -> bool)
    requires from <= to <= |s| && forall i :: from <= i < to ==> test(s[i])
    ensures CountWhere(s, test) >= to - from
  {
    CountAll(s[from..to], test);
    CountConcat(s[..from], s[from..], test);
    CountConcat(s[from..to], s[to..], test);
    assert s == s[..from] + s[from..] && s[from..] == s[from..to] + s[to..];
  }

  lemma IntPreorder()
    ensures Preorder(IntLe)
  {}

  /** At least half of the values are at most the median, and at least half are at least the median. */
  lemma MedianHalves(values: seq<int>)
    requires values != []
    ensures 2 * AtMost(values, Median(values)) >= |values| && 2 * AtLeast(values, Median(values)) >= |values|
  {
    hide Sort, Middle, CountWhere;
    IntPreorder();
    SortSorted(values, IntLe);
    var s, m := Sort(values, IntLe), Median(values);
    MiddleHalves(s);
    CountPermutes(s, values, v => 10 * v <= m);
    CountPermutes(s, values, v => 10 * v >= m);
  }

  lemma MiddleHalves(s: seq<int>)
    requires s != [] && Sorted(s, IntLe)
    ensures 2 * AtMost(s, Middle(s)) >= |s| && 2 * AtLeast(s, Middle(s)) >= |s|
  {
    hide CountWhere;
    var n, h, m := |s|, |s| / 2, Middle(s);
    var low := if n % 2 == 1 then h + 1 else h;
    assert n % 2 == 0 ==> IntLe(s[h - 1], s[h]);
    forall i | 0 <= i < low ensures 10 * s[i] <= m { assert i < low - 1 ==> IntLe(s[i], s[low - 1]); }
    forall i | h <= i < n ensures 10 * s[i] >= m { assert h < i ==> IntLe(s[h], s[i]); }
    CountPart(s, 0, low, v => 10 * v <= m);
    CountPart(s, h, n, v => 10 * v >= m);
  }

  /** Values between zero and t always have an exact reference. */
  ghost predicate ReferenceExactUpTo(t: int) {
    forall values :: values != [] && Range(values, t) ==> Reference(values) == Median(values)
  }

  ghost predicate Range(values: seq<int>, t: int) {
    forall v :: v in values ==> 0 <= v <= t
  }

  /** Ten to the 27th is exactly how far values may go before the median rounds. */
  lemma ReferenceExactlyUpTo(t: int)
    ensures ReferenceExactUpTo(t) <==> t <= Tenth()
  {
    hide Reference, Median, Tenth;
    if t <= Tenth() {
      forall values | values != [] && Range(values, t) ensures Reference(values) == Median(values) {
        ReferenceExact(values);
      }
    } else {
      MedianRounds();
      var values := [Tenth(), Tenth() + 1];
      assert Range(values, t);
      assert Reference(values) != Median(values);
    }
  }

  /** The mean of 10^27 and its successor needs 29 digits. */
  lemma MedianRounds()
    ensures Median([Tenth(), Tenth() + 1]) == Limit() + 5 && Reference([Tenth(), Tenth() + 1]) == Limit()
  {
    hide InContext, Limit, Tenth;
    LimitIsTens();
    var s := [Tenth(), Tenth() + 1];
    assert Sorted(s, IntLe);
    SortFixesSorted(s, IntLe);
    FittingUnchanged(2 * Tenth() + 1);
    JustPastLimit(5);
  }

  /** Observations between zero and t have exact deviations from their own reference. */
  ghost predicate DeviationsExactUpTo(t: int) {
    forall raw :: RoleRevenues(raw, Baseline) != [] && Within(raw, t) ==>
      ExactDeviations(raw, Reference(RoleRevenues(raw, Baseline)))
  }

  ghost predicate ExactDeviations(raw: seq<Observation>, reference: int) {
    forall i :: 0 <= i < |raw| ==> Deviations(raw, reference)[i] == Revenues(raw)[i] - reference as real / 10.0
  }

  /** Ten to the 27th is exactly how far revenues may go before a deviation rounds. */
  lemma DeviationsExactlyUpTo(t: int)
    ensures DeviationsExactUpTo(t) <==> t <= Tenth()
  {
    hide Reference, Tenth, Limit, InContext, Deviations, Revenues, RoleRevenues;
    if t <= Tenth() {
      forall raw | RoleRevenues(raw, Baseline) != [] && Within(raw, t)
        ensures ExactDeviations(raw, Reference(RoleRevenues(raw, Baseline)))
      {
        RoleRevenueMembers(raw, Baseline);
        ReferenceExact(RoleRevenues(raw, Baseline));
        DeviationsExact(raw, Reference(RoleRevenues(raw, Baseline)));
      }
    } else {
      DeviationRounds();
      LimitIsTens();
      assert Within(ThreeWeeks(), t);
    }
  }

  /** Two baseline weeks with one unit between them, and a comparison week just past 10^27. */
  function ThreeWeeks(): seq<Observation> {
    [Observation(Baseline, Week(1, 7), {}, 0, 0.0), Observation(Baseline, Week(8, 14), {}, 1, 0.0),
     Observation(Comparison, Week(15, 21), {}, Tenth() + 1, 0.0)]
  }

  lemma DeviationRounds()
    ensures RoleRevenues(ThreeWeeks(), Baseline) == [0, 1] && Reference([0, 1]) == 5
    ensures !ExactDeviations(ThreeWeeks(), 5)
  {
    hide InContext, Limit, Tenth, Reference, RoleRevenues;
    LimitIsTens();
    ThreeWeeksBaseline();
    HalfReference();
    NearLimit(1);
    assert Deviations(ThreeWeeks(), 5)[2] == Limit() as real / 10.0;
    TenthsApart(Tenth() + 1, 5);
  }

  lemma ThreeWeeksBaseline()
    ensures RoleRevenues(ThreeWeeks(), Baseline) == [0, 1]
  {
    hide Tenth;
    var raw := ThreeWeeks();
    var none: seq<Observation> := [];
    assert raw[..2] == [raw[0], raw[1]] && [raw[0], raw[1]][..1] == [raw[0]] && [raw[0]][..0] == none;
    assert RoleRevenues(none, Baseline) == [] && RoleRevenues([raw[0]], Baseline) == [0];
    assert RoleRevenues([raw[0], raw[1]], Baseline) == [0, 1];
  }

  lemma HalfReference()
    ensures Reference([0, 1]) == 5
  {
    hide InContext, Limit;
    LimitIsTens();
    SortFixesSorted([0, 1], IntLe);
    FittingUnchanged(1);
    FittingUnchanged(5);
  }

  // ---- The evaluation state ----

  datatype EvaluationState = ValidationFailed | Inconclusive | ValidatedOutcome

  /** build_posttest_evaluation, when no state is given. */
  function Evaluate(validated: Option<ExecutedResult>): (EvaluationState, Outcome) {
    match validated
    case None => (ValidationFailed, NotEvaluated)
    case Some(e) => (if e.reasons != [] then Inconclusive else ValidatedOutcome, MapOutcome(e.rho, e.reasons))
  }

  /**
   * For any calculated result the state and the outcome agree: one is a validated outcome exactly when the other is
   * evaluated.
   */
  lemma StateMatchesOutcome(p: Periods, rows: seq<Transaction>, validated: Option<ExecutedResult>)
    requires validated.Some? ==> Calculated(p, rows) == Ok(validated.value)
    ensures Evaluate(validated).0 == ValidatedOutcome <==> Evaluate(validated).1 != NotEvaluated
  {
    hide Calculated;
    if validated.Some? { ReasonsDecideRho(p, rows); }
  }

  // ---- When the calculation raises ----

  predicate HasRows(rows: seq<Transaction>, weeks: seq<Week>) {
    exists w :: w in weeks && Products(rows, w.start, w.end) != {}
  }

  lemma {:induction false} ObservedIffRows(role: Role, weeks: seq<Week>, rows: seq<Transaction>, baseline: set<string>)
    ensures Observations(role, weeks, rows, baseline) != [] <==> HasRows(rows, weeks)
    ensures forall o :: o in Observations(role, weeks, rows, baseline) ==> o.role == role
  {
    if weeks != [] {
      var n := |weeks| - 1;
      ObservedIffRows(role, weeks[..n], rows, baseline);
      assert forall w :: w in weeks <==> w in weeks[..n] || w == weeks[n];
    }
  }

  lemma {:induction false} RoleRevenuesOf(a: seq<Observation>, role: Role)
    ensures (forall o :: o in a ==> o.role == role) ==> |RoleRevenues(a, role)| == |a|
    ensures (forall o :: o in a ==> o.role != role) ==> RoleRevenues(a, role) == []
  {
    if a != [] {
      var n := |a| - 1;
      RoleRevenuesOf(a[..n], role);
      assert forall o :: o in a <==> o in a[..n] || o == a[n];
    }
  }

  lemma {:induction false} RoleRevenuesConcat(a: seq<Observation>, b: seq<Observation>, role: Role)
    ensures RoleRevenues(a + b, role) == RoleRevenues(a, role) + RoleRevenues(b, role)
  {
    if b == [] {
      assert a + b == a;
    } else {
      var n := |b| - 1;
      assert (a + b)[..|a + b| - 1] == a + b[..n];
      RoleRevenuesConcat(a, b[..n], role);
    }
  }

  /** The calculation raises exactly when some comparison week has rows and no baseline week has. */
  lemma RaisesExactly(p: Periods, rows: seq<Transaction>)
    ensures Calculated(p, rows).Err? <==>
      HasRows(rows, FullWeeks(p.comparisonStart, p.comparisonEnd))
        && !HasRows(rows, FullWeeks(p.baselineStart, p.baselineEnd))
  {
    hide Observations, HasRows, FullWeeks, Products;
    var products := Products(rows, p.baselineStart, p.baselineEnd);
    var bw, cw := FullWeeks(p.baselineStart, p.baselineEnd), FullWeeks(p.comparisonStart, p.comparisonEnd);
    var b, c := Observations(Baseline, bw, rows, products), Observations(Comparison, cw, rows, products);
    ObservedIffRows(Baseline, bw, rows, products);
    ObservedIffRows(Comparison, cw, rows, products);
    RoleRevenuesConcat(b, c, Baseline);
    RoleRevenuesOf(b, Baseline);
    RoleRevenuesOf(c, Baseline);
  }

  // ---- Weeks and revenue over both periods ----

  ghost predicate NonOverlapping(p: Periods) {
    p.baselineEnd < p.comparisonStart || p.comparisonEnd < p.baselineStart
  }

  lemma AscendingDisjoint(weeks: seq<Week>, start: int, end: int)
    requires IsoWeeks(weeks, start, end)
    ensures Disjoint(weeks) && forall i, j :: 0 <= i < j < |weeks| ==> weeks[i] != weeks[j]
  {
    forall i, j | 0 <= i < j < |weeks| ensures weeks[i] != weeks[j] {
      assert weeks[i] in weeks;
    }
  }

  lemma {:induction false} OtherRole(role: Role, other: Role, weeks: seq<Week>, rows: seq<Transaction>,
                                     baseline: set<string>, week: Week)
    requires role != other
    ensures TimesObserved(Observations(role, weeks, rows, baseline), other, week) == 0
    ensures TimesExcluded(Exclusions(role, weeks, rows), other, week) == 0
  {
    if weeks != [] {
      var n := |weeks| - 1;
      OtherRole(role, other, weeks[..n], rows, baseline, week);
      if Products(rows, weeks[n].start, weeks[n].end) != {} {
        ObservedConcat(Observations(role, weeks[..n], rows, baseline), [Observe(role, weeks[n], rows, baseline)],
                       other, week);
        assert Exclusions(role, weeks[..n], rows) + [] == Exclusions(role, weeks[..n], rows);
      } else {
        ExcludedConcat(Exclusions(role, weeks[..n], rows), [Exclusion(role, weeks[n], NoEligibleLines)], other, week);
        assert Observations(role, weeks[..n], rows, baseline) + [] == Observations(role, weeks[..n], rows, baseline);
      }
    }
  }

  /**
   * Every full week of a role's period is observed or excluded exactly once under that role, and no other week appears.
   */
  lemma EachWeekOnce(p: Periods, rows: seq<Transaction>, role: Role, week: Week)
    ensures TimesObserved(RawOf(p, rows), role, week) + TimesExcluded(ExcludedOf(p, rows), role, week)
            == if (role == Baseline && FullWeekWithin(week, p.baselineStart, p.baselineEnd))
               || (role == Comparison && FullWeekWithin(week, p.comparisonStart, p.comparisonEnd)) then 1 else 0
  {
    hide Observations, Exclusions, Products, FullWeeks, TimesObserved, TimesExcluded;
    var products := Products(rows, p.baselineStart, p.baselineEnd);
    var bw, cw := FullWeeks(p.baselineStart, p.baselineEnd), FullWeeks(p.comparisonStart, p.comparisonEnd);
    FullWeeksExact(p.baselineStart, p.baselineEnd);
    FullWeeksExact(p.comparisonStart, p.comparisonEnd);
    AscendingDisjoint(bw, p.baselineStart, p.baselineEnd);
    AscendingDisjoint(cw, p.comparisonStart, p.comparisonEnd);
    ObservedConcat(Observations(Baseline, bw, rows, products), Observations(Comparison, cw, rows, products),
                   role, week);
    ExcludedConcat(Exclusions(Baseline, bw, rows), Exclusions(Comparison, cw, rows), role, week);
    if role == Baseline {
      WeekAccounting(Baseline, bw, rows, products, week);
      OtherRole(Comparison, Baseline, cw, rows, products, week);
    } else {
      WeekAccounting(Comparison, cw, rows, products, week);
      OtherRole(Baseline, Comparison, bw, rows, products, week);
    }
  }

  lemma {:induction false} TotalConcat(a: seq<Observation>, b: seq<Observation>)
    ensures TotalRevenue(a + b) == TotalRevenue(a) + TotalRevenue(b)
  {
    if b == [] {
      assert a + b == a;
    } else {
      assert (a + b)[..|a + b| - 1] == a + b[..|b| - 1];
      TotalConcat(a, b[..|b| - 1]);
    }
  }

  lemma {:induction false} InSomeConcat(rows: seq<Transaction>, a: seq<Week>, b: seq<Week>)
    requires forall v, w :: v in a && w in b ==> v.end < w.start || w.end < v.start
    ensures RevenueInSome(rows, a + b) == RevenueInSome(rows, a) + RevenueInSome(rows, b)
  {
    if rows != [] {
      InSomeConcat(rows[..|rows| - 1], a, b);
      var t := rows[|rows| - 1];
      assert forall w :: w in a + b <==> w in a || w in b;
      assert InSome(t, a + b) <==> InSome(t, a) || InSome(t, b);
      assert !(InSome(t, a) && InSome(t, b));
    }
  }

  /**
   * For non-overlapping periods and weekly totals up to 10^28 the observed weekly revenues sum to the revenue of the
   * rows dated in full weeks.
   */
  lemma RevenueIsConserved(p: Periods, rows: seq<Transaction>)
    requires NonOverlapping(p) && WeeklyTotals(p, rows, Limit())
    ensures TotalRevenue(RawOf(p, rows))
            == RevenueInSome(rows,
                             FullWeeks(p.baselineStart, p.baselineEnd) + FullWeeks(p.comparisonStart, p.comparisonEnd))
  {
    hide Observations, Products, FullWeeks, TotalRevenue, RevenueInSome, Limit, WeeksWithin, NonNegative;
    var products := Products(rows, p.baselineStart, p.baselineEnd);
    var bw, cw := FullWeeks(p.baselineStart, p.baselineEnd), FullWeeks(p.comparisonStart, p.comparisonEnd);
    FullWeeksExact(p.baselineStart, p.baselineEnd);
    FullWeeksExact(p.comparisonStart, p.comparisonEnd);
    AscendingDisjoint(bw, p.baselineStart, p.baselineEnd);
    AscendingDisjoint(cw, p.comparisonStart, p.comparisonEnd);
    RevenueConserved(Baseline, bw, rows, products);
    RevenueConserved(Comparison, cw, rows, products);
    TotalConcat(Observations(Baseline, bw, rows, products), Observations(Comparison, cw, rows, products));
    InSomeConcat(rows, bw, cw);
  }

  // ---- Reordering transactions ----

  lemma {:induction false} RevenueConcat(a: seq<Transaction>, b: seq<Transaction>, start: int, end: int)
    ensures Revenue(a + b, start, end) == Revenue(a, start, end) + Revenue(b, start, end)
  {
    if b == [] {
      assert a + b == a;
    } else {
      var n := |b| - 1;
      assert (a + b)[..|a| + n] == a + b[..n];
      RevenueConcat(a, b[..n], start, end);
    }
  }

  lemma {:induction false} RevenuePermutes(a: seq<Transaction>, b: seq<Transaction>, start: int, end: int)
    requires multiset(a) == multiset(b)
    ensures Revenue(a, start, end) == Revenue(b, start, end)
  {
    hide Revenue;
    if a == [] {
      EmptyMatch(b);
    } else {
      var i := DropMatching(a, b);
      RevenuePermutes(a[1..], b[..i] + b[i + 1..], start, end);
      RevenueConcat([a[0]], a[1..], start, end);
      RevenueConcat(b[..i], b[i + 1..], start, end);
      RevenueConcat(b[..i] + [b[i]], b[i + 1..], start, end);
      RevenueConcat(b[..i], [b[i]], start, end);
      assert a == [a[0]] + a[1..] && b == b[..i] + [b[i]] + b[i + 1..];
    }
  }

  lemma ProductsPermute(a: seq<Transaction>, b: seq<Transaction>, start: int, end: int)
    requires multiset(a) == multiset(b)
    ensures Products(a, start, end) == Products(b, start, end)
  {
    assert forall t :: t in a <==> t in multiset(a);
    assert forall t :: t in b <==> t in multiset(b);
  }

  lemma {:induction false} ObservationsPermute(role: Role, weeks: seq<Week>, a: seq<Transaction>, b: seq<Transaction>,
                                               baseline: set<string>)
    requires multiset(a) == multiset(b) && NonNegative(a) && NonNegative(b) && WeeksWithin(a, weeks, Limit() + SLACK)
    ensures Observations(role, weeks, a, baseline) == Observations(role, weeks, b, baseline)
    ensures Exclusions(role, weeks, a) == Exclusions(role, weeks, b)
  {
    hide Products, Revenue, WeekSum, Limit, NonNegative, JaccardDistance;
    if weeks != [] {
      var n := |weeks| - 1;
      assert weeks[n] in weeks && forall w :: w in weeks[..n] ==> w in weeks;
      ObservationsPermute(role, weeks[..n], a, b, baseline);
      ProductsPermute(a, b, weeks[n].start, weeks[n].end);
      RevenuePermutes(a, b, weeks[n].start, weeks[n].end);
      WeekSumSaturates(a, weeks[n].start, weeks[n].end);
      WeekSumSaturates(b, weeks[n].start, weeks[n].end);
    }
  }

  lemma NonNegativePermutes(a: seq<Transaction>, b: seq<Transaction>)
    requires multiset(a) == multiset(b) && NonNegative(a)
    ensures NonNegative(b)
  {
    forall t | t in b ensures t in a { assert t in multiset(b); }
  }

  /** Reordering the transactions changes nothing in the result, with weekly totals up to five past 10^28. */
  lemma TransactionOrderIrrelevant(p: Periods, a: seq<Transaction>, b: seq<Transaction>)
    requires multiset(a) == multiset(b) && WeeklyTotals(p, a, Limit() + SLACK)
    ensures Calculated(p, a) == Calculated(p, b)
  {
    hide Products, Observations, Exclusions, ResultOf, FullWeeks, Limit, NonNegative, WeeksWithin;
    NonNegativePermutes(a, b);
    ProductsPermute(a, b, p.baselineStart, p.baselineEnd);
    var baseline := Products(a, p.baselineStart, p.baselineEnd);
    ObservationsPermute(Baseline, FullWeeks(p.baselineStart, p.baselineEnd), a, b, baseline);
    ObservationsPermute(Comparison, FullWeeks(p.comparisonStart, p.comparisonEnd), a, b, baseline);
  }

  // ---- How far that goes ----

  ghost predicate ConservedUpTo(t: int) {
    forall p, rows :: NonOverlapping(p) && WeeklyTotals(p, rows, t) ==> Conserved(p, rows)
  }

  ghost predicate Conserved(p: Periods, rows: seq<Transaction>) {
    TotalRevenue(RawOf(p, rows))
      == RevenueInSome(rows, FullWeeks(p.baselineStart, p.baselineEnd) + FullWeeks(p.comparisonStart, p.comparisonEnd))
  }

  ghost predicate OrderIrrelevantUpTo(t: int) {
    forall p, a, b :: Reordered(a, b) && WeeklyTotals(p, a, t) ==> Calculated(p, a) == Calculated(p, b)
  }

  ghost predicate Reordered(a: seq<Transaction>, b: seq<Transaction>) {
    multiset(a) == multiset(b)
  }

  /** Two adjacent weeks, and a sale on the first day. */
  const TWO_WEEKS: Periods := Periods(1, 7, 8, 14)

  function Sale(revenue: int): Transaction {
    Transaction(1, "p", revenue)
  }

  lemma TwoWeeks()
    ensures FullWeeks(1, 7) == [Week(1, 7)] && FullWeeks(8, 14) == [Week(8, 14)] && FullWeeks(1, 3) == []
  {
    assert WeeksFrom(8, 7) == [] && WeeksFrom(15, 14) == [] && WeeksFrom(1, 3) == [];
  }

  /** All sales fall in the first week. */
  lemma SalesObserved(rows: seq<Transaction>)
    requires rows != [] && forall t :: t in rows ==> t.day == 1 && t.product == "p"
    ensures RawOf(TWO_WEEKS, rows) == [Observation(Baseline, Week(1, 7), {"p"}, WeekSum(rows, 1, 7), 0.0)]
    ensures Revenue(rows, 8, 14) == 0
    ensures RevenueInSome(rows, [Week(1, 7)] + [Week(8, 14)]) == Revenue(rows, 1, 7)
  {
    hide WeekSum, Revenue;
    TwoWeeks();
    assert rows[0] in rows;
    assert Products(rows, 1, 7) == {"p"} && Products(rows, 8, 14) == {};
    DistanceMeans({"p"}, {"p"});
    var weeks := [Week(1, 7)];
    assert weeks[..0] == [] && [Week(8, 14)][..0] == [];
    assert Observations(Baseline, [], rows, {"p"}) == [] && Observations(Comparison, [], rows, {"p"}) == [];
    NothingDatedNoRevenue(rows, 8, 14);
    SalesInSome(rows);
  }

  lemma {:induction false} SalesInSome(rows: seq<Transaction>)
    requires forall t :: t in rows ==> t.day == 1
    ensures RevenueInSome(rows, [Week(1, 7)] + [Week(8, 14)]) == Revenue(rows, 1, 7)
  {
    if rows != [] {
      var n := |rows| - 1;
      assert rows[n] in rows && forall t :: t in rows[..n] ==> t in rows;
      SalesInSome(rows[..n]);
      assert Week(1, 7) in [Week(1, 7)] + [Week(8, 14)] && InWeek(rows[n], Week(1, 7));
    }
  }

  /** Ten to the 28th is exactly how far weekly totals may go with revenue conserved. */
  lemma ConservedExactlyUpTo(t: int)
    ensures ConservedUpTo(t) <==> t <= Limit()
  {
    hide RawOf, FullWeeks, Limit, TotalRevenue, RevenueInSome, NonNegative, Revenue;
    if t <= Limit() {
      forall p, rows | NonOverlapping(p) && WeeklyTotals(p, rows, t) ensures Conserved(p, rows) {
        RevenueIsConserved(p, rows);
      }
    } else {
      UnitLost(t);
      assert !Conserved(TWO_WEEKS, [Sale(Limit()), Sale(1)]);
    }
  }

  lemma UnitLost(t: int)
    requires t > Limit()
    ensures NonOverlapping(TWO_WEEKS) && WeeklyTotals(TWO_WEEKS, [Sale(Limit()), Sale(1)], t)
    ensures !Conserved(TWO_WEEKS, [Sale(Limit()), Sale(1)])
  {
    hide Limit, InContext;
    var rows := [Sale(Limit()), Sale(1)];
    TwoWeeks();
    SalesObserved(rows);
    LimitIsTens();
    TwoSales(Limit(), 1);
    FittingUnchanged(Limit());
    JustPastLimit(1);
    var raw := RawOf(TWO_WEEKS, rows);
    assert raw[..0] == [] && TotalRevenue([]) == 0;
  }

  lemma TwoSales(a: int, b: int)
    ensures Revenue([Sale(a), Sale(b)], 1, 7) == a + b
    ensures WeekSum([Sale(a), Sale(b)], 1, 7) == InContext(InContext(a) + b)
  {
    hide InContext;
    assert [Sale(a), Sale(b)][..1] == [Sale(a)] && [Sale(a)][..0] == [];
    assert Revenue([], 1, 7) == 0 && WeekSum([], 1, 7) == 0;
    assert Revenue([Sale(a)], 1, 7) == a && WeekSum([Sale(a)], 1, 7) == InContext(a);
  }

  lemma ThreeSales(a: int, b: int, c: int)
    ensures Revenue([Sale(a), Sale(b), Sale(c)], 1, 7) == a + b + c
    ensures WeekSum([Sale(a), Sale(b), Sale(c)], 1, 7) == InContext(InContext(InContext(a) + b) + c)
  {
    hide InContext;
    assert [Sale(a), Sale(b), Sale(c)][..2] == [Sale(a), Sale(b)];
    TwoSales(a, b);
  }

  /** Five past 10^28 is exactly how far weekly totals may go with the order of transactions irrelevant. */
  lemma OrderIrrelevantExactlyUpTo(t: int)
    ensures OrderIrrelevantUpTo(t) <==> t <= Limit() + SLACK
  {
    hide Calculated, WeeklyTotals, Limit, Reordered, WeekSum, Sale;
    if t <= Limit() + SLACK {
      forall p, a, b | Reordered(a, b) && WeeklyTotals(p, a, t) ensures Calculated(p, a) == Calculated(p, b) {
        TotalsWithinSlack(p, a, b, t);
      }
    } else {
      OrderMatters(t);
      var small, large := [Sale(5), Sale(1), Sale(Limit())], [Sale(Limit()), Sale(5), Sale(1)];
      assert Reordered(small, large) && WeeklyTotals(TWO_WEEKS, small, t);
    }
  }

  lemma TotalsWithinSlack(p: Periods, a: seq<Transaction>, b: seq<Transaction>, t: int)
    requires Reordered(a, b) && WeeklyTotals(p, a, t) && t <= Limit() + SLACK
    ensures Calculated(p, a) == Calculated(p, b)
  {
    hide Calculated, Limit, FullWeeks, Revenue;
    TransactionOrderIrrelevant(p, a, b);
  }

  /** Sales of 5, 1 and 10^28 units sum to ten past 10^28 in that order, and to 10^28 with the large one first. */
  lemma OrderMatters(t: int)
    requires t > Limit() + SLACK
    ensures var small, large := [Sale(5), Sale(1), Sale(Limit())], [Sale(Limit()), Sale(5), Sale(1)];
      && Reordered(small, large) && WeeklyTotals(TWO_WEEKS, small, t)
      && WeekSum(small, 1, 7) == Limit() + 10 && WeekSum(large, 1, 7) == Limit()
      && Calculated(TWO_WEEKS, small) != Calculated(TWO_WEEKS, large)
  {
    hide Limit, InContext, Calculated, RawOf, FullWeeks, WeekSum, Revenue, RevenueInSome, TotalRevenue;
    var small, large := [Sale(5), Sale(1), Sale(Limit())], [Sale(Limit()), Sale(5), Sale(1)];
    TwoWeeks();
    SalesObserved(small);
    DifferentSums();
    ThreeSales(5, 1, Limit());
    LimitIsTens();
    OneObservation(small);
    OneObservation(large);
  }

  lemma DifferentSums()
    ensures WeekSum([Sale(5), Sale(1), Sale(Limit())], 1, 7) == Limit() + 10
    ensures WeekSum([Sale(Limit()), Sale(5), Sale(1)], 1, 7) == Limit()
  {
    hide Limit, InContext, WeekSum, Revenue;
    ThreeSales(5, 1, Limit());
    ThreeSales(Limit(), 5, 1);
    LimitIsTens();
    FittingUnchanged(5);
    FittingUnchanged(6);
    FittingUnchanged(Limit());
    JustPastLimit(6);
    JustPastLimit(5);
    JustPastLimit(1);
  }

  /** The single observation shows in the result. */
  lemma OneObservation(rows: seq<Transaction>)
    requires rows != [] && forall t :: t in rows ==> t.day == 1 && t.product == "p"
    ensures Calculated(TWO_WEEKS, rows).Ok? && |Calculated(TWO_WEEKS, rows).value.observations| == 1
    ensures Calculated(TWO_WEEKS, rows).value.observations[0].observation.revenue == WeekSum(rows, 1, 7)
  {
    hide RawOf, ExcludedOf, SpearmanRho, GuardReasons, Reference, Deviations, WeekSum;
    SalesObserved(rows);
    var raw := RawOf(TWO_WEEKS, rows);
    assert raw[..0] == [] && RoleRevenues([], Baseline) == [];
    assert |Deviations(raw, Reference(RoleRevenues(raw, Baseline)))| == 1 by {
      DeviationCount(raw, Reference(RoleRevenues(raw, Baseline)));
    }
  }

  lemma DeviationCount(raw: seq<Observation>, reference: int)
    ensures |Deviations(raw, reference)| == |raw|
  {}

  /** A comparison sale with a baseline period too short for a full week: the calculation raises. */
  lemma IndexErrorExample()
    ensures Calculated(Periods(1, 3, 8, 14), [Transaction(8, "p", 1)]).Err?
  {
    hide Calculated, Products;
    var rows := [Transaction(8, "p", 1)];
    TwoWeeks();
    RaisesExactly(Periods(1, 3, 8, 14), rows);
    assert rows[0] in rows;
    ProductListed(rows, 8, 14, rows[0]);
    assert Week(8, 14) in FullWeeks(8, 14);
  }
}
