/** The weekly diagnostic: full ISO weeks, weekly observations, and the executed result. */
module DiagnosticWeeks {
  import opened DecimalContext

  /** Days are proleptic ordinals; ordinal 1 is a Monday, and weekday 0 is Monday. */
  function Weekday(day: int): int {
    (day + 6) % 7
  }

  datatype Week = Week(start: int, end: int)

  ghost predicate FullWeekWithin(w: Week, start: int, end: int) {
    Weekday(w.start) == 0 && w.end == w.start + 6 && start <= w.start && w.end <= end
  }

  /** full_iso_weeks: exactly the Monday-to-Sunday weeks inside [start, end], ascending and seven days apart. */
  method FullIsoWeeks(start: int, end: int) returns (weeks: seq<Week>)
    ensures IsoWeeks(weeks, start, end)
  {
    var first := start + (-Weekday(start)) % 7;
    weeks := [];
    var cursor := first;
    while cursor + 6 <= end
      invariant cursor == first + 7 * |weeks| && Weekday(cursor) == 0 && start <= first <= start + 6
      invariant forall i :: 0 <= i < |weeks| ==>
        weeks[i] == Week(first + 7 * i, first + 7 * i + 6) && FullWeekWithin(weeks[i], start, end)
      decreases end - cursor
    {
      weeks := weeks + [Week(cursor, cursor + 6)];
      cursor := cursor + 7;
    }
    forall w | FullWeekWithin(w, start, end) ensures w in weeks {
      var i := (w.start - first) / 7;
      assert w == weeks[i];
    }
  }

  /** The weeks of a period: sound, complete, strictly ascending. */
  ghost predicate IsoWeeks(weeks: seq<Week>, start: int, end: int) {
    && (forall w :: w in weeks <==> FullWeekWithin(w, start, end))
    && (forall i, j :: 0 <= i < j < |weeks| ==> weeks[i].end < weeks[j].start)
  }

  function WeeksFrom(cursor: int, end: int): seq<Week>
    decreases end - cursor
  {
    if cursor + 6 > end then [] else [Week(cursor, cursor + 6)] + WeeksFrom(cursor + 7, end)
  }

  /** The full ISO weeks of a period as a value. */
  function FullWeeks(start: int, end: int): seq<Week> {
    WeeksFrom(start + (-Weekday(start)) % 7, end)
  }

  lemma {:induction false} WeeksFromExact(cursor: int, end: int)
    requires Weekday(cursor) == 0
    ensures forall w :: w in WeeksFrom(cursor, end) <==> FullWeekWithin(w, cursor, end)
    ensures forall i, j :: 0 <= i < j < |WeeksFrom(cursor, end)| ==>
      WeeksFrom(cursor, end)[i].end < WeeksFrom(cursor, end)[j].start
    decreases end - cursor
  {
    if cursor + 6 <= end {
      WeeksFromExact(cursor + 7, end);
      var rest := WeeksFrom(cursor + 7, end);
      forall j | 0 <= j < |rest| ensures cursor + 6 < rest[j].start {
        assert rest[j] in rest;
      }
      forall w | FullWeekWithin(w, cursor, end) ensures w in WeeksFrom(cursor, end) {
        assert w.start == cursor || w.start >= cursor + 7;
      }
    }
  }

  lemma FullWeeksExact(start: int, end: int)
    ensures IsoWeeks(FullWeeks(start, end), start, end)
  {
    var first := start + (-Weekday(start)) % 7;
    WeeksFromExact(first, end);
    assert forall w :: FullWeekWithin(w, start, end) <==> FullWeekWithin(w, first, end);
  }

  lemma {:induction false} IsoWeeksUnique(a: seq<Week>, b: seq<Week>, start: int, end: int)
    requires IsoWeeks(a, start, end) && IsoWeeks(b, start, end)
    ensures a == b
  {
    AscendingUnique(a, b);
  }

  lemma {:induction false} AscendingUnique(a: seq<Week>, b: seq<Week>)
    requires forall w :: w in a <==> w in b
    requires forall w :: w in a ==> w.end == w.start + 6
    requires forall i, j :: 0 <= i < j < |a| ==> a[i].end < a[j].start
    requires forall i, j :: 0 <= i < j < |b| ==> b[i].end < b[j].start
    ensures a == b
  {
    assert b == [] || b[0] in b;
    if a != [] {
      assert a[0] in a;
      assert a[0] == b[0];
      assert a == [a[0]] + a[1..] && b == [b[0]] + b[1..];
      forall w ensures w in a[1..] <==> w in b[1..] {
        assert w in a[1..] <==> w in a && w != a[0];
        assert w in b[1..] <==> w in b && w != b[0];
      }
      AscendingUnique(a[1..], b[1..]);
    }
  }

  // ---- Transactions ----

  datatype Transaction = Transaction(day: int, product: string, revenue: int)
  datatype Role = Baseline | Comparison

  predicate InWeek(t: Transaction, w: Week) {
    w.start <= t.day <= w.end
  }

  function Products(rows: seq<Transaction>, start: int, end: int): set<string> {
    set t | t in rows && start <= t.day <= end :: t.product
  }

  /** The exact revenue of the rows dated in a week. */
  function Revenue(rows: seq<Transaction>, start: int, end: int): int {
    if rows == [] then 0
    else
      var n := |rows| - 1;
      Revenue(rows[..n], start, end) + if start <= rows[n].day <= end then rows[n].revenue else 0
  }

  /** The week's revenues added up from zero, every addition in the default context. */
  function WeekSum(rows: seq<Transaction>, start: int, end: int): int {
    if rows == [] then 0
    else
      var n := |rows| - 1;
      var before := WeekSum(rows[..n], start, end);
      if start <= rows[n].day <= end then InContext(before + rows[n].revenue) else before
  }

  datatype Observation = Observation(role: Role, week: Week, products: set<string>, revenue: int, distance: real)
  datatype Reason = NoEligibleLines | EmptyUnion
  datatype Exclusion = Exclusion(role: Role, week: Week, reason: Reason)

  /** One minus the Jaccard similarity with the baseline products. */
  function JaccardDistance(products: set<string>, baseline: set<string>): real
    requires products + baseline != {}
  {
    1.0 - |products * baseline| as real / |products + baseline| as real
  }

  lemma {:induction false} SubsetSmaller(a: set<string>, b: set<string>)
    requires a <= b
    ensures |a| <= |b| && (|a| == |b| ==> a == b)
  {
    assert b == a + (b - a) && |b| == |a| + |b - a|;
  }

  lemma QuotientOfSizes(n: nat, d: nat)
    requires n <= d && d > 0
    ensures 0.0 <= n as real / d as real <= 1.0
    ensures n as real / d as real == 1.0 <==> n == d
    ensures n as real / d as real == 0.0 <==> n == 0
  {}

  /** The distance lies between zero, for the same products, and one, for no common product. */
  lemma DistanceMeans(products: set<string>, baseline: set<string>)
    requires products + baseline != {}
    ensures 0.0 <= JaccardDistance(products, baseline) <= 1.0
    ensures JaccardDistance(products, baseline) == 0.0 <==> products == baseline
    ensures JaccardDistance(products, baseline) == 1.0 <==> products !! baseline
    ensures JaccardDistance(products, baseline) == JaccardDistance(baseline, products)
  {
    var common, all := products * baseline, products + baseline;
    SubsetSmaller(common, all);
    QuotientOfSizes(|common|, |all|);
    assert products == baseline <==> common == all;
    forall p | p in products && p in baseline ensures common != {} { assert p in common; }
    assert common != {} ==> !(products !! baseline) by {
      if p :| p in common { assert p in products && p in baseline; }
    }
    assert baseline * products == common && baseline + products == all;
  }

  /** The observation a week gives when it has rows. */
  function Observe(role: Role, week: Week, rows: seq<Transaction>, baseline: set<string>): Observation
    requires Products(rows, week.start, week.end) != {}
  {
    var products := Products(rows, week.start, week.end);
    assert products + baseline != {} by {
      var p :| p in products;
      assert p in products + baseline;
    }
    Observation(role, week, products, WeekSum(rows, week.start, week.end), JaccardDistance(products, baseline))
  }

  /** The observations of a list of weeks: one for each week with rows, in order. */
  function Observations(role: Role, weeks: seq<Week>, rows: seq<Transaction>, baseline: set<string>): seq<Observation> {
    if weeks == [] then []
    else
      var n := |weeks| - 1;
      Observations(role, weeks[..n], rows, baseline)
      + if Products(rows, weeks[n].start, weeks[n].end) != {} then [Observe(role, weeks[n], rows, baseline)] else []
  }

  /** Some row dated from start to end is of the product. */
  ghost predicate Sold(rows: seq<Transaction>, start: int, end: int, product: string) {
    exists t :: t in rows && start <= t.day <= end && t.product == product
  }

  /**
   * The observation has the products of its week's rows, and its distance is the share of the products sold in only one
   * of the week and the baseline among those sold in either.
   */
  ghost predicate Distanced(o: Observation, rows: seq<Transaction>, baseline: set<string>) {
    && o.products != {} && (forall x :: x in o.products <==> Sold(rows, o.week.start, o.week.end, x))
    && o.distance * |o.products + baseline| as real
       == |(o.products - baseline) + (baseline - o.products)| as real
  }

  lemma {:induction false} SetsSplit(a: set<string>, b: set<string>)
    ensures |a + b| == |a * b| + |(a - b) + (b - a)|
  {
    assert a + b == a * b + ((a - b) + (b - a));
  }

  lemma ShareOfRest(common: nat, rest: nat, all: nat)
    requires all == common + rest && all > 0
    ensures (1.0 - common as real / all as real) * all as real == rest as real
  {}

  lemma ObserveDistanced(role: Role, week: Week, rows: seq<Transaction>, baseline: set<string>)
    requires Products(rows, week.start, week.end) != {}
    ensures Distanced(Observe(role, week, rows, baseline), rows, baseline)
  {
    hide WeekSum;
    var products := Products(rows, week.start, week.end);
    SetsSplit(products, baseline);
    var x :| x in products;
    assert x in products + baseline;
    ShareOfRest(|products * baseline|, |(products - baseline) + (baseline - products)|, |products + baseline|);
  }

  lemma {:induction false} ObservationsDistanced(role: Role, weeks: seq<Week>, rows: seq<Transaction>,
                                                 baseline: set<string>)
    ensures forall o :: o in Observations(role, weeks, rows, baseline) ==> Distanced(o, rows, baseline)
  {
    hide Distanced, Products;
    if weeks != [] {
      var n := |weeks| - 1;
      ObservationsDistanced(role, weeks[..n], rows, baseline);
      if Products(rows, weeks[n].start, weeks[n].end) != {} { ObserveDistanced(role, weeks[n], rows, baseline); }
    }
  }

  /** A week is excluded for want of rows. */
  ghost predicate WithoutRows(x: Exclusion, rows: seq<Transaction>) {
    x.reason == NoEligibleLines && forall product :: !Sold(rows, x.week.start, x.week.end, product)
  }

  lemma {:induction false} ExclusionsWithoutRows(role: Role, weeks: seq<Week>, rows: seq<Transaction>)
    ensures forall x :: x in Exclusions(role, weeks, rows) ==> WithoutRows(x, rows)
  {
    if weeks != [] {
      var n := |weeks| - 1;
      ExclusionsWithoutRows(role, weeks[..n], rows);
      forall product ensures Sold(rows, weeks[n].start, weeks[n].end, product) <==>
        product in Products(rows, weeks[n].start, weeks[n].end) {}
    }
  }

  /** Weeks without rows, in order. */
  function Exclusions(role: Role, weeks: seq<Week>, rows: seq<Transaction>): seq<Exclusion> {
    if weeks == [] then []
    else
      var n := |weeks| - 1;
      Exclusions(role, weeks[..n], rows)
      + if Products(rows, weeks[n].start, weeks[n].end) == {} then [Exclusion(role, weeks[n], NoEligibleLines)] else []
  }

  /** The running sum of one week's revenue. */
  method SumWeek(rows: seq<Transaction>, start: int, end: int) returns (revenue: int)
    ensures revenue == WeekSum(rows, start, end)
  {
    hide InContext;
    revenue := 0;
    for i := 0 to |rows|
      invariant revenue == WeekSum(rows[..i], start, end)
    {
      assert rows[..i + 1][..i] == rows[..i];
      if start <= rows[i].day <= end { revenue := InContext(revenue + rows[i].revenue); }
    }
    assert rows[..|rows|] == rows;
  }

  lemma NoWeeks(role: Role, rows: seq<Transaction>, baseline: set<string>)
    ensures Observations(role, [], rows, baseline) == [] && Exclusions(role, [], rows) == []
  {}

  lemma ObserveStep(role: Role, weeks: seq<Week>, i: nat, rows: seq<Transaction>, baseline: set<string>)
    requires i < |weeks|
    ensures var w := weeks[i];
      if Products(rows, w.start, w.end) == {}
      then
        && Observations(role, weeks[..i + 1], rows, baseline) == Observations(role, weeks[..i], rows, baseline)
        && Exclusions(role, weeks[..i + 1], rows)
           == Exclusions(role, weeks[..i], rows) + [Exclusion(role, w, NoEligibleLines)]
      else
        && Exclusions(role, weeks[..i + 1], rows) == Exclusions(role, weeks[..i], rows)
        && Observations(role, weeks[..i + 1], rows, baseline)
           == Observations(role, weeks[..i], rows, baseline) + [Observe(role, w, rows, baseline)]
  {
    hide Products, Observe;
    assert weeks[..i + 1][..i] == weeks[..i];
    var o, e := Observations(role, weeks[..i], rows, baseline), Exclusions(role, weeks[..i], rows);
    assert o + [] == o && e + [] == e;
  }

  /** The loop over one period's weeks. The empty-union exclusion cannot be taken: a week with rows has products. */
  method ObservePeriod(role: Role, start: int, end: int, rows: seq<Transaction>, baseline: set<string>)
    returns (raw: seq<Observation>, excluded: seq<Exclusion>)
    ensures raw == Observations(role, FullWeeks(start, end), rows, baseline)
    ensures excluded == Exclusions(role, FullWeeks(start, end), rows)
  {
    var found := FullIsoWeeks(start, end);
    FullWeeksExact(start, end);
    IsoWeeksUnique(found, FullWeeks(start, end), start, end);
    hide FullWeeks, IsoWeeks, Products, WeekSum, JaccardDistance, Observations, Exclusions;
    NoWeeks(role, rows, baseline);
    raw, excluded := [], [];
    for i := 0 to |found|
      invariant raw == Observations(role, found[..i], rows, baseline)
      invariant excluded == Exclusions(role, found[..i], rows)
    {
      var w := found[i];
      ObserveStep(role, found, i, rows, baseline);
      var products := Products(rows, w.start, w.end);
      if products == {} {
        excluded := excluded + [Exclusion(role, w, NoEligibleLines)];
      } else {
        var union := products + baseline;
        assert union != {} by {
          var p :| p in products;
          assert p in union;
        }
        var revenue := SumWeek(rows, w.start, w.end);
        raw := raw + [Observation(role, w, products, revenue, JaccardDistance(products, baseline))];
      }
    }
    assert found[..|found|] == found;
  }

  // ---- Every week accounted for once ----

  function TimesObserved(raw: seq<Observation>, role: Role, week: Week): nat {
    if raw == [] then 0
    else
      var o := raw[|raw| - 1];
      TimesObserved(raw[..|raw| - 1], role, week) + if o.role == role && o.week == week then 1 else 0
  }

  function TimesExcluded(excluded: seq<Exclusion>, role: Role, week: Week): nat {
    if excluded == [] then 0
    else
      var e := excluded[|excluded| - 1];
      TimesExcluded(excluded[..|excluded| - 1], role, week) + if e.role == role && e.week == week then 1 else 0
  }

  lemma {:induction false} ObservedConcat(a: seq<Observation>, b: seq<Observation>, role: Role, week: Week)
    ensures TimesObserved(a + b, role, week) == TimesObserved(a, role, week) + TimesObserved(b, role, week)
  {
    if b == [] {
      assert a + b == a;
    } else {
      assert (a + b)[..|a + b| - 1] == a + b[..|b| - 1];
      ObservedConcat(a, b[..|b| - 1], role, week);
    }
  }

  lemma {:induction false} ExcludedConcat(a: seq<Exclusion>, b: seq<Exclusion>, role: Role, week: Week)
    ensures TimesExcluded(a + b, role, week) == TimesExcluded(a, role, week) + TimesExcluded(b, role, week)
  {
    if b == [] {
      assert a + b == a;
    } else {
      assert (a + b)[..|a + b| - 1] == a + b[..|b| - 1];
      ExcludedConcat(a, b[..|b| - 1], role, week);
    }
  }

  lemma SingleCounts(o: Observation, e: Exclusion, role: Role, week: Week)
    ensures TimesObserved([], role, week) == 0 && TimesExcluded([], role, week) == 0
    ensures TimesObserved([o], role, week) == if o.role == role && o.week == week then 1 else 0
    ensures TimesExcluded([e], role, week) == if e.role == role && e.week == week then 1 else 0
  {
    assert [o][..0] == [] && [e][..0] == [];
  }

  /** Each week of the list is observed or excluded exactly once, and nothing else is. */
  lemma {:induction false} WeekAccounting(role: Role, weeks: seq<Week>, rows: seq<Transaction>, baseline: set<string>,
                                          week: Week)
    requires forall i, j :: 0 <= i < j < |weeks| ==> weeks[i] != weeks[j]
    ensures TimesObserved(Observations(role, weeks, rows, baseline), role, week)
      + TimesExcluded(Exclusions(role, weeks, rows), role, week)
            == if week in weeks then 1 else 0
  {
    hide Products, TimesObserved, TimesExcluded;
    var none := Exclusion(role, Week(0, 0), NoEligibleLines);
    if weeks == [] {
      SingleCounts(Observation(role, Week(0, 0), {}, 0, 0.0), none, role, week);
    } else {
      var n := |weeks| - 1;
      var o, e := Observations(role, weeks[..n], rows, baseline), Exclusions(role, weeks[..n], rows);
      WeekAccounting(role, weeks[..n], rows, baseline, week);
      assert week in weeks <==> week in weeks[..n] || week == weeks[n];
      assert weeks[n] !in weeks[..n];
      if Products(rows, weeks[n].start, weeks[n].end) != {} {
        var one := Observe(role, weeks[n], rows, baseline);
        ObservedConcat(o, [one], role, week);
        SingleCounts(one, none, role, week);
        assert e + [] == e;
      } else {
        ExcludedConcat(e, [Exclusion(role, weeks[n], NoEligibleLines)], role, week);
        SingleCounts(Observation(role, Week(0, 0), {}, 0, 0.0), Exclusion(role, weeks[n], NoEligibleLines), role, week);
        assert o + [] == o;
      }
    }
  }

  // ---- When weekly sums are exact ----

  ghost predicate NonNegative(rows: seq<Transaction>) {
    forall t :: t in rows ==> t.revenue >= 0
  }

  /** Half a unit past the last exact digit, up to which rounding does not depend on the order of the additions. */
  const SLACK: int := 5

  /**
   * With non-negative lines a week's running sum stops at 10^28, whatever the order, until the total is more than five
   * past it.
   */
  lemma {:induction false} WeekSumSaturates(rows: seq<Transaction>, start: int, end: int)
    requires NonNegative(rows) && Revenue(rows, start, end) <= Limit() + SLACK
    ensures 0 <= Revenue(rows, start, end)
    ensures WeekSum(rows, start, end)
      == if Revenue(rows, start, end) <= Limit() then Revenue(rows, start, end) else Limit()
  {
    hide InContext, Limit;
    if rows != [] {
      var n := |rows| - 1;
      assert rows[n] in rows && forall t :: t in rows[..n] ==> t in rows;
      RevenueNonNegative(rows[..n], start, end);
      WeekSumSaturates(rows[..n], start, end);
      if start <= rows[n].day <= end { AddWithin(WeekSum(rows[..n], start, end), rows[n].revenue); }
    } else {
      LimitIsTens();
    }
  }

  lemma {:induction false} RevenueNonNegative(rows: seq<Transaction>, start: int, end: int)
    requires NonNegative(rows)
    ensures 0 <= Revenue(rows, start, end)
  {
    if rows != [] {
      var n := |rows| - 1;
      assert rows[n] in rows && forall t :: t in rows[..n] ==> t in rows;
      RevenueNonNegative(rows[..n], start, end);
    }
  }

  lemma AddWithin(before: int, x: int)
    requires 0 <= before <= Limit() && 0 <= x && before + x <= Limit() + SLACK
    ensures InContext(before + x) == if before + x <= Limit() then before + x else Limit()
  {
    hide InContext, Limit;
    if before + x <= Limit() { FittingUnchanged(before + x); } else { JustPastLimit(before + x - Limit()); }
  }

  /** The exact revenue of every week of the list is at most t. */
  ghost predicate WeeksWithin(rows: seq<Transaction>, weeks: seq<Week>, t: int) {
    forall w :: w in weeks ==> Revenue(rows, w.start, w.end) <= t
  }

  // ---- Revenue conservation ----

  predicate InSome(t: Transaction, weeks: seq<Week>) {
    exists w :: w in weeks && InWeek(t, w)
  }

  /** Revenue of the rows dated in some week of the list. */
  function RevenueInSome(rows: seq<Transaction>, weeks: seq<Week>): int {
    if rows == [] then 0
    else
      var n := |rows| - 1;
      RevenueInSome(rows[..n], weeks) + if InSome(rows[n], weeks) then rows[n].revenue else 0
  }

  function TotalRevenue(raw: seq<Observation>): int {
    if raw == [] then 0 else TotalRevenue(raw[..|raw| - 1]) + raw[|raw| - 1].revenue
  }

  lemma {:induction false} RevenueSplit(rows: seq<Transaction>, weeks: seq<Week>, week: Week)
    requires forall w :: w in weeks ==> w.end < week.start || week.end < w.start
    ensures RevenueInSome(rows, weeks + [week]) == RevenueInSome(rows, weeks) + Revenue(rows, week.start, week.end)
  {
    if rows != [] {
      var n := |rows| - 1;
      RevenueSplit(rows[..n], weeks, week);
      assert InSome(rows[n], weeks + [week]) <==> InSome(rows[n], weeks) || InWeek(rows[n], week) by {
        assert forall w :: w in weeks + [week] <==> w in weeks || w == week;
        if InSome(rows[n], weeks) {
          var w :| w in weeks && InWeek(rows[n], w);
          assert w in weeks + [week];
        }
        if InWeek(rows[n], week) { assert week in weeks + [week]; }
      }
    }
  }

  lemma ProductListed(rows: seq<Transaction>, start: int, end: int, t: Transaction)
    requires t in rows && start <= t.day <= end
    ensures t.product in Products(rows, start, end)
  {}

  lemma {:induction false} NothingDatedNoRevenue(rows: seq<Transaction>, start: int, end: int)
    requires forall t :: t in rows ==> !(start <= t.day <= end)
    ensures Revenue(rows, start, end) == 0
  {
    if rows != [] {
      var n := |rows| - 1;
      assert rows[n] in rows && forall t :: t in rows[..n] ==> t in rows;
      NothingDatedNoRevenue(rows[..n], start, end);
    }
  }

  lemma NoProductsNoRevenue(rows: seq<Transaction>, start: int, end: int)
    requires Products(rows, start, end) == {}
    ensures Revenue(rows, start, end) == 0
  {
    forall t | t in rows ensures !(start <= t.day <= end) {
      if start <= t.day <= end { ProductListed(rows, start, end, t); }
    }
    NothingDatedNoRevenue(rows, start, end);
  }

  ghost predicate Disjoint(weeks: seq<Week>) {
    forall i, j :: 0 <= i < j < |weeks| ==> weeks[i].end < weeks[j].start || weeks[j].end < weeks[i].start
  }

  lemma TotalAppend(raw: seq<Observation>, o: Observation)
    ensures TotalRevenue(raw + [o]) == TotalRevenue(raw) + o.revenue
  {
    assert (raw + [o])[..|raw|] == raw;
  }

  lemma {:induction false} ObservationStep(role: Role, weeks: seq<Week>, n: nat, rows: seq<Transaction>,
                                           baseline: set<string>)
    requires |weeks| == n + 1
    ensures var before := TotalRevenue(Observations(role, weeks[..n], rows, baseline));
      TotalRevenue(Observations(role, weeks, rows, baseline))
      == if Products(rows, weeks[n].start, weeks[n].end) == {} then before
        else before + WeekSum(rows, weeks[n].start, weeks[n].end)
  {
    hide Products, TotalRevenue, WeekSum, JaccardDistance;
    var o := Observations(role, weeks[..n], rows, baseline);
    if Products(rows, weeks[n].start, weeks[n].end) == {} {
      assert o + [] == o;
    } else {
      TotalAppend(o, Observe(role, weeks[n], rows, baseline));
    }
  }

  /**
   * With non-negative lines and weekly totals up to 10^28, observed weekly revenues add up to the revenue of all rows
   * dated in the weeks.
   */
  lemma {:induction false} RevenueConserved(role: Role, weeks: seq<Week>, rows: seq<Transaction>, baseline: set<string>)
    requires Disjoint(weeks) && NonNegative(rows) && WeeksWithin(rows, weeks, Limit())
    ensures TotalRevenue(Observations(role, weeks, rows, baseline)) == RevenueInSome(rows, weeks)
  {
    hide Products, Limit, Revenue, RevenueInSome, WeekSum, Observations, TotalRevenue, NonNegative;
    if weeks == [] {
      NothingInNoWeeks(rows);
      assert TotalRevenue(Observations(role, weeks, rows, baseline)) == 0 by { NothingObserved(role, rows, baseline); }
    } else {
      var n := |weeks| - 1;
      assert weeks == weeks[..n] + [weeks[n]];
      RevenueConserved(role, weeks[..n], rows, baseline);
      WeekSumSaturates(rows, weeks[n].start, weeks[n].end);
      RevenueSplit(rows, weeks[..n], weeks[n]);
      ObservationStep(role, weeks, n, rows, baseline);
      if Products(rows, weeks[n].start, weeks[n].end) == {} { NoProductsNoRevenue(rows, weeks[n].start, weeks[n].end); }
    }
  }

  lemma NothingObserved(role: Role, rows: seq<Transaction>, baseline: set<string>)
    ensures TotalRevenue(Observations(role, [], rows, baseline)) == 0
  {}

  lemma {:induction false} NothingInNoWeeks(rows: seq<Transaction>)
    ensures RevenueInSome(rows, []) == 0
  {
    if rows != [] { NothingInNoWeeks(rows[..|rows| - 1]); }
  }
}
