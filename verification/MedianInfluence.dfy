/** How far weekly revenues may go before subtracting the baseline median changes the outcome. */
module MedianInfluence {
  import opened Common
  import opened Ordering
  import opened Ranks
  import opened Spearman
  import opened DecimalContext
  import opened DiagnosticWeeks
  import opened DiagnosticResult

  ghost predicate DeviationsInOrderUpTo(t: int) {
    forall p, rows :: WeeklyTotals(p, rows, t) ==> DeviationsInOrder(p, rows)
  }

  ghost predicate OutcomeIgnoresMedianUpTo(t: int) {
    forall p, rows :: WeeklyTotals(p, rows, t) ==> MedianWithoutInfluence(p, rows)
  }

  // ---- Weeks with one row each ----

  lemma {:induction false} NoRowNoSum(rows: seq<Transaction>, start: int, end: int)
    requires forall t :: t in rows ==> !(start <= t.day <= end)
    ensures WeekSum(rows, start, end) == 0 && Revenue(rows, start, end) == 0
  {
    hide InContext;
    if rows != [] {
      var n := |rows| - 1;
      assert rows[n] in rows && forall t :: t in rows[..n] ==> t in rows;
      NoRowNoSum(rows[..n], start, end);
    }
  }

  ghost predicate OnlyRow(rows: seq<Transaction>, k: nat, start: int, end: int) {
    k < |rows| && forall i :: 0 <= i < |rows| ==> (start <= rows[i].day <= end <==> i == k)
  }

  /** A week whose only row is the k-th. */
  lemma {:induction false} OneRowSum(rows: seq<Transaction>, k: nat, start: int, end: int)
    requires OnlyRow(rows, k, start, end)
    ensures WeekSum(rows, start, end) == InContext(rows[k].revenue) && Revenue(rows, start, end) == rows[k].revenue
  {
    hide InContext;
    var n := |rows| - 1;
    if k == n {
      NoRowNoSum(rows[..n], start, end);
    } else {
      OneRowSum(rows[..n], k, start, end);
    }
  }

  lemma OneRowProducts(rows: seq<Transaction>, k: nat, start: int, end: int)
    requires OnlyRow(rows, k, start, end)
    ensures Products(rows, start, end) == {rows[k].product}
  {
    assert rows[k] in rows;
  }

  ghost predicate EachHasRows(weeks: seq<Week>, rows: seq<Transaction>) {
    forall w :: w in weeks ==> Products(rows, w.start, w.end) != {}
  }

  /** Weeks that all have rows are all observed, in order. */
  lemma {:induction false} AllObserved(role: Role, weeks: seq<Week>, rows: seq<Transaction>, baseline: set<string>)
    requires EachHasRows(weeks, rows)
    ensures var raw := Observations(role, weeks, rows, baseline);
      |raw| == |weeks| && forall i :: 0 <= i < |raw| ==>
        weeks[i] in weeks && raw[i] == Observe(role, weeks[i], rows, baseline)
  {
    hide Products, Observe;
    if weeks != [] {
      var n := |weeks| - 1;
      assert forall w :: w in weeks[..n] ==> w in weeks;
      assert weeks[n] in weeks;
      AllObserved(role, weeks[..n], rows, baseline);
    }
  }

  // ---- The data: eight weeks, one row on the first day of each ----

  const EIGHT_WEEKS: Periods := Periods(1, 28, 29, 56)

  /** The revenues of the last two weeks differ by one unit, three past 10^27. */
  function MergedRows(): seq<Transaction> {
    [Transaction(1, "p", 0), Transaction(8, "p", 0), Transaction(15, "p", 1), Transaction(22, "p", 1),
     Transaction(29, "p", 0), Transaction(36, "p", 0), Transaction(43, "q", Tenth() + 2),
       Transaction(50, "p", Tenth() + 3)]
  }

  function WeekAt(i: nat): Week {
    Week(7 * i + 1, 7 * i + 7)
  }

  lemma EightWeeks()
    ensures FullWeeks(1, 28) == [WeekAt(0), WeekAt(1), WeekAt(2), WeekAt(3)]
    ensures FullWeeks(29, 56) == [WeekAt(4), WeekAt(5), WeekAt(6), WeekAt(7)]
  {
    assert WeeksFrom(29, 28) == [] && WeeksFrom(57, 56) == [];
    assert WeeksFrom(22, 28) == [WeekAt(3)] && WeeksFrom(50, 56) == [WeekAt(7)];
    assert WeeksFrom(15, 28) == [WeekAt(2), WeekAt(3)] && WeeksFrom(43, 56) == [WeekAt(6), WeekAt(7)];
    assert WeeksFrom(8, 28) == [WeekAt(1), WeekAt(2), WeekAt(3)]
      && WeeksFrom(36, 56) == [WeekAt(5), WeekAt(6), WeekAt(7)];
  }

  lemma OneEach(k: nat)
    requires k < 8
    ensures OnlyRow(MergedRows(), k, WeekAt(k).start, WeekAt(k).end)
  {
    hide Tenth;
    assert forall i :: 0 <= i < 8 ==> MergedRows()[i].day == 7 * i + 1;
  }

  /** What each week has. */
  lemma WeekHolds(k: nat)
    requires k < 8
    ensures Products(MergedRows(), WeekAt(k).start, WeekAt(k).end) == {MergedRows()[k].product}
    ensures WeekSum(MergedRows(), WeekAt(k).start, WeekAt(k).end) == MergedRows()[k].revenue
    ensures Revenue(MergedRows(), WeekAt(k).start, WeekAt(k).end) == MergedRows()[k].revenue
  {
    hide Tenth, WeekSum, Revenue, Products, InContext, Limit;
    OneEach(k);
    OneRowSum(MergedRows(), k, WeekAt(k).start, WeekAt(k).end);
    OneRowProducts(MergedRows(), k, WeekAt(k).start, WeekAt(k).end);
    LimitIsTens();
    FittingUnchanged(MergedRows()[k].revenue);
  }

  lemma BaselineProducts()
    ensures Products(MergedRows(), 1, 28) == {"p"}
  {
    hide Tenth;
    var rows := MergedRows();
    assert rows[0] in rows;
    forall t | t in rows && 1 <= t.day <= 28 ensures t.product == "p" {}
  }

  function RoleAt(i: nat): Role {
    if i < 4 then Baseline else Comparison
  }

  /** The observation of each week. */
  lemma MergedRaw()
    ensures var raw := RawOf(EIGHT_WEEKS, MergedRows());
      |raw| == 8 && forall i :: 0 <= i < 8 ==>
        && raw[i].role == RoleAt(i) && raw[i].revenue == MergedRows()[i].revenue
        && raw[i].distance == if i == 6 then 1.0 else 0.0
  {
    hide Tenth, WeekSum, Products, JaccardDistance, Observations, FullWeeks;
    var rows := MergedRows();
    EightWeeks();
    BaselineProducts();
    forall k: nat | k < 8 ensures Products(rows, WeekAt(k).start, WeekAt(k).end) == {rows[k].product} { WeekHolds(k); }
    AllObserved(Baseline, FullWeeks(1, 28), rows, {"p"});
    AllObserved(Comparison, FullWeeks(29, 56), rows, {"p"});
    forall i: nat | i < 8
      ensures var raw := RawOf(EIGHT_WEEKS, rows);
        raw[i].role == RoleAt(i) && raw[i].revenue == rows[i].revenue && raw[i].distance == if i == 6 then 1.0 else 0.0
    {
      WeekHolds(i);
      DistanceMeans({rows[i].product}, {"p"});
    }
  }

  lemma {:induction false} AllOfRole(raw: seq<Observation>, role: Role)
    requires forall i :: 0 <= i < |raw| ==> raw[i].role == role
    ensures |RoleRevenues(raw, role)| == |raw|
    ensures forall i :: 0 <= i < |raw| ==> RoleRevenues(raw, role)[i] == raw[i].revenue
  {
    if raw != [] { AllOfRole(raw[..|raw| - 1], role); }
  }

  lemma MergedRoles()
    ensures var raw := RawOf(EIGHT_WEEKS, MergedRows());
      RoleRevenues(raw, Baseline) == [0, 0, 1, 1] && |RoleRevenues(raw, Comparison)| == 4
  {
    hide Tenth, RawOf, RoleRevenues;
    MergedRaw();
    var raw := RawOf(EIGHT_WEEKS, MergedRows());
    assert raw == raw[..4] + raw[4..];
    RoleRevenuesConcat(raw[..4], raw[4..], Baseline);
    AllOfRole(raw[..4], Baseline);
    RoleRevenuesOf(raw[4..], Baseline);
    RoleCounts(raw);
  }

  lemma MergedReference()
    ensures Reference([0, 0, 1, 1]) == 5
  {
    hide InContext, Limit, Sort;
    LimitIsTens();
    var s := [0, 0, 1, 1];
    SortFixesSorted(s, IntLe);
    FittingUnchanged(1);
    FittingUnchanged(5);
  }

  lemma MergedTotals(t: int)
    requires t > Tenth() + MARGIN
    ensures WeeklyTotals(EIGHT_WEEKS, MergedRows(), t)
  {
    hide Tenth, Revenue, FullWeeks;
    EightWeeks();
    forall k: nat | k < 8 ensures Revenue(MergedRows(), WeekAt(k).start, WeekAt(k).end) <= t { WeekHolds(k); }
  }

  /** Half a unit below the last two revenues: both round to the same number. */
  lemma LastTwoMerge()
    ensures InContext(10 * (Tenth() + 2) - 5) == Limit() + 20 && InContext(10 * (Tenth() + 3) - 5) == Limit() + 20
  {
    hide InContext, Limit, Tenth;
    LimitIsTens();
    NearLimit(3);
    NearLimit(5);
  }

  // ---- The three order patterns ----

  const FAR: seq<real> := [0.0, 0.0, 0.0, 0.0, 0.0, 0.0, 1.0, 0.0]
  const APART: seq<real> := [0.0, 0.0, 1.0, 1.0, 0.0, 0.0, 2.0, 3.0]
  const MERGED: seq<real> := [0.0, 0.0, 1.0, 1.0, 0.0, 0.0, 2.0, 2.0]

  lemma MergedPatterns()
    ensures var raw := RawOf(EIGHT_WEEKS, MergedRows());
      Distances(raw) == FAR && SamePattern(Revenues(raw), APART) && SamePattern(Deviations(raw, 5), MERGED)
  {
    hide RawOf, InContext, Tenth, Limit;
    MergedRaw();
    LimitIsTens();
    var raw := RawOf(EIGHT_WEEKS, MergedRows());
    LastTwoMerge();
    FittingUnchanged(-5);
    FittingUnchanged(5);
    var d := Deviations(raw, 5);
    var high := (Limit() + 20) as real / 10.0;
    assert d == [-0.5, -0.5, 0.5, 0.5, -0.5, -0.5, high, high];
    assert Revenues(raw) == [0.0, 0.0, 1.0, 1.0, 0.0, 0.0, (Tenth() + 2) as real, (Tenth() + 3) as real];
  }

  lemma PairCounts(a: real, b: real, x: real)
    ensures Below([a, b], x) == (if a < x then 1 else 0) + (if b < x then 1 else 0)
    ensures Ties([a, b], x) == (if a == x then 1 else 0) + (if b == x then 1 else 0)
  {
    assert [a, b][1..] == [b] && [b][1..] == [];
    assert Below([], x) == 0 && Ties([], x) == 0;
  }

  /** Counting over eight values, two at a time. */
  lemma EightCounts(v: seq<real>, x: real)
    requires |v| == 8
    ensures Below(v, x) == Below(v[..2], x) + Below(v[2..4], x) + Below(v[4..6], x) + Below(v[6..], x)
    ensures Ties(v, x) == Ties(v[..2], x) + Ties(v[2..4], x) + Ties(v[4..6], x) + Ties(v[6..], x)
  {
    hide Below, Ties;
    CountsConcat(v[..6], v[6..], x);
    CountsConcat(v[..4], v[4..6], x);
    CountsConcat(v[..2], v[2..4], x);
    assert v == v[..6] + v[6..] && v[..6] == v[..4] + v[4..6] && v[..4] == v[..2] + v[2..4];
  }

  /** The rank of x among eight values that come in pairs. */
  lemma PairedRank(v: seq<real>, x: real)
    requires |v| == 8 && v[0] == v[1] && v[2] == v[3] && v[4] == v[5]
    ensures Below(v, x) == (if v[0] < x then 2 else 0) + (if v[2] < x then 2 else 0) + (if v[4] < x then 2 else 0)
                           + (if v[6] < x then 1 else 0) + (if v[7] < x then 1 else 0)
    ensures Ties(v, x) == (if v[0] == x then 2 else 0) + (if v[2] == x then 2 else 0) + (if v[4] == x then 2 else 0)
                          + (if v[6] == x then 1 else 0) + (if v[7] == x then 1 else 0)
  {
    hide Below, Ties;
    EightCounts(v, x);
    PairCounts(v[0], v[1], x);
    PairCounts(v[2], v[3], x);
    PairCounts(v[4], v[5], x);
    PairCounts(v[6], v[7], x);
    assert v[..2] == [v[0], v[1]] && v[2..4] == [v[2], v[3]] && v[4..6] == [v[4], v[5]] && v[6..] == [v[6], v[7]];
  }

  lemma FarRanks()
    ensures RankVector(FAR) == [4.0, 4.0, 4.0, 4.0, 4.0, 4.0, 8.0, 4.0]
  {
    hide Below, Ties;
    PairedRank(FAR, 0.0);
    PairedRank(FAR, 1.0);
  }

  lemma ApartRanks()
    ensures RankVector(APART) == [2.5, 2.5, 5.5, 5.5, 2.5, 2.5, 7.0, 8.0]
  {
    hide Below, Ties;
    PairedRank(APART, 0.0);
    PairedRank(APART, 1.0);
    PairedRank(APART, 2.0);
    PairedRank(APART, 3.0);
  }

  lemma MergedRanks()
    ensures RankVector(MERGED) == [2.5, 2.5, 5.5, 5.5, 2.5, 2.5, 7.5, 7.5]
  {
    hide Below, Ties;
    PairedRank(MERGED, 0.0);
    PairedRank(MERGED, 1.0);
    PairedRank(MERGED, 2.0);
  }

  // ---- Rho of the patterns ----

  lemma {:induction false} SumConcat(a: seq<real>, b: seq<real>)
    ensures Sum(a + b) == Sum(a) + Sum(b)
  {
    if a == [] {
      assert a + b == b;
    } else {
      assert (a + b)[1..] == a[1..] + b;
      SumConcat(a[1..], b);
    }
  }

  lemma {:induction false} CrossConcat(a: seq<real>, b: seq<real>, c: seq<real>, d: seq<real>, p: real, q: real)
    requires |a| == |c| && |b| == |d|
    ensures Cross(a + b, c + d, p, q) == Cross(a, c, p, q) + Cross(b, d, p, q)
  {
    hide Times;
    if a == [] {
      assert a + b == b && c + d == d;
    } else {
      assert (a + b)[1..] == a[1..] + b && (c + d)[1..] == c[1..] + d;
      CrossConcat(a[1..], b, c[1..], d, p, q);
    }
  }

  lemma PairCross(a: real, b: real, c: real, d: real, p: real, q: real)
    ensures Sum([a, b]) == a + b
    ensures Cross([a, b], [c, d], p, q) == Times(a - p, c - q) + Times(b - p, d - q)
  {
    hide Times;
    assert [a, b][1..] == [b] && [b][1..] == [] && [c, d][1..] == [d] && [d][1..] == [];
    assert Sum([]) == 0.0 && Cross([], [], p, q) == 0.0;
  }

  /** Sums over eight values, two at a time. */
  lemma EightCross(u: seq<real>, v: seq<real>, p: real, q: real)
    requires |u| == 8 && |v| == 8
    ensures Sum(u) == Sum(u[..2]) + Sum(u[2..4]) + Sum(u[4..6]) + Sum(u[6..])
    ensures Cross(u, v, p, q) == Cross(u[..2], v[..2], p, q) + Cross(u[2..4], v[2..4], p, q)
                                 + Cross(u[4..6], v[4..6], p, q) + Cross(u[6..], v[6..], p, q)
  {
    hide Sum, Cross;
    SumConcat(u[..6], u[6..]);
    SumConcat(u[..4], u[4..6]);
    SumConcat(u[..2], u[2..4]);
    CrossConcat(u[..6], u[6..], v[..6], v[6..], p, q);
    CrossConcat(u[..4], u[4..6], v[..4], v[4..6], p, q);
    CrossConcat(u[..2], u[2..4], v[..2], v[2..4], p, q);
    assert u == u[..6] + u[6..] && u[..6] == u[..4] + u[4..6] && u[..4] == u[..2] + u[2..4];
    assert v == v[..6] + v[6..] && v[..6] == v[..4] + v[4..6] && v[..4] == v[..2] + v[2..4];
  }

  lemma PairedCross(u: seq<real>, v: seq<real>, p: real, q: real)
    requires |u| == 8 && |v| == 8
    ensures Sum(u) == u[0] + u[1] + u[2] + u[3] + u[4] + u[5] + u[6] + u[7]
    ensures Cross(u, v, p, q)
            == Times(u[0] - p, v[0] - q) + Times(u[1] - p, v[1] - q) + Times(u[2] - p, v[2] - q)
              + Times(u[3] - p, v[3] - q)
               + Times(u[4] - p, v[4] - q) + Times(u[5] - p, v[5] - q) + Times(u[6] - p, v[6] - q)
                 + Times(u[7] - p, v[7] - q)
  {
    hide Sum, Cross, Times;
    EightCross(u, v, p, q);
    PairCross(u[0], u[1], v[0], v[1], p, q);
    PairCross(u[2], u[3], v[2], v[3], p, q);
    PairCross(u[4], u[5], v[4], v[5], p, q);
    PairCross(u[6], u[7], v[6], v[7], p, q);
    assert u[..2] == [u[0], u[1]] && u[2..4] == [u[2], u[3]] && u[4..6] == [u[4], u[5]] && u[6..] == [u[6], u[7]];
    assert v[..2] == [v[0], v[1]] && v[2..4] == [v[2], v[3]] && v[4..6] == [v[4], v[5]] && v[6..] == [v[6], v[7]];
  }

  /** Revenue itself correlates with distance by less than a half. */
  lemma ApartRho()
    ensures SpearmanRho(FAR, APART) == Some(Rho(10.0, 14.0, 36.5))
  {
    hide Sum, Cross, RankVector;
    FarRanks();
    ApartRanks();
    var x, y := RankVector(FAR), RankVector(APART);
    PairedCross(x, y, 4.5, 4.5);
    PairedCross(x, x, 4.5, 4.5);
    PairedCross(y, y, 4.5, 4.5);
  }

  /** The rounded deviations correlate with distance by more than a half. */
  lemma MergedRho()
    ensures SpearmanRho(FAR, MERGED) == Some(Rho(12.0, 14.0, 36.0))
  {
    hide Sum, Cross, RankVector;
    FarRanks();
    MergedRanks();
    var x, y := RankVector(FAR), RankVector(MERGED);
    PairedCross(x, y, 4.5, 4.5);
    PairedCross(x, x, 4.5, 4.5);
    PairedCross(y, y, 4.5, 4.5);
  }

  // ---- What the calculation makes of it ----

  /**
   * Eight weeks with revenues up to three past 10^27 are conclusive; their deviations tie two different revenues and
   * turn the outcome.
   */
  lemma MedianDecides()
    ensures var r := Calculated(EIGHT_WEEKS, MergedRows());
      && r.Ok? && r.value.reasons == [] && r.value.reference == Some(5)
      && MapOutcome(r.value.rho, r.value.reasons) == PropositionContradicted
      && RevenueOutcome(EIGHT_WEEKS, MergedRows()) == CriterionNotMet
    ensures !DeviationsInOrder(EIGHT_WEEKS, MergedRows())
  {
    hide RawOf, ExcludedOf, RoleRevenues, Reference, Deviations, Revenues, Distances, SpearmanRho, GuardReasons,
         SamePattern, Tenth;
    var rows := MergedRows();
    var raw := RawOf(EIGHT_WEEKS, rows);
    MergedRoles();
    MergedReference();
    MergedPatterns();
    PatternReflexive(FAR);
    RhoDependsOnOrder(FAR, Revenues(raw), FAR, APART);
    RhoDependsOnOrder(FAR, Deviations(raw, 5), FAR, MERGED);
    ApartRho();
    MergedRho();
    GuardsExactly(4, 4, FAR, Deviations(raw, 5));
    MergedVaries(raw);
    MergedDiffer(raw);
  }

  lemma MergedVaries(raw: seq<Observation>)
    requires SamePattern(Deviations(raw, 5), MERGED)
    ensures !AllSame(FAR) && !AllSame(Deviations(raw, 5))
  {
    hide Deviations;
    assert FAR[6] != FAR[0];
    assert MERGED[0] < MERGED[6];
  }

  lemma MergedDiffer(raw: seq<Observation>)
    requires SamePattern(Revenues(raw), APART) && SamePattern(Deviations(raw, 5), MERGED)
    ensures !SamePattern(Revenues(raw), Deviations(raw, 5))
  {
    hide Deviations, Revenues;
    assert APART[6] < APART[7] && !(MERGED[6] < MERGED[7]);
  }

  // ---- The exact bounds ----

  /** Two past 10^27 is exactly how far weekly totals may go with the deviations in the order of the revenues. */
  lemma DeviationsInOrderExactlyUpTo(t: int)
    ensures DeviationsInOrderUpTo(t) <==> t <= Tenth() + MARGIN
  {
    hide DeviationsInOrder, WeeklyTotals, Tenth;
    if t <= Tenth() + MARGIN {
      forall p, rows | WeeklyTotals(p, rows, t) ensures DeviationsInOrder(p, rows) {
        TotalsModerate(p, rows, t);
        ModerateInOrder(p, rows);
      }
    } else {
      MergedTotals(t);
      MedianDecides();
    }
  }

  /** And exactly how far they may go with the outcome that of revenue itself. */
  lemma OutcomeIgnoresMedianExactlyUpTo(t: int)
    ensures OutcomeIgnoresMedianUpTo(t) <==> t <= Tenth() + MARGIN
  {
    hide WeeklyTotals, Tenth, Calculated, MapOutcome, RevenueOutcome;
    if t <= Tenth() + MARGIN {
      forall p, rows | WeeklyTotals(p, rows, t) ensures MedianWithoutInfluence(p, rows) {
        TotalsModerate(p, rows, t);
        OutcomeIgnoresMedian(p, rows);
      }
    } else {
      MergedTotals(t);
      MedianDecides();
    }
  }

  lemma TotalsModerate(p: Periods, rows: seq<Transaction>, t: int)
    requires WeeklyTotals(p, rows, t) && t <= Tenth() + MARGIN
    ensures Moderate(p, rows)
  {
    hide Tenth, FullWeeks, Revenue;
  }
}
