/** What each record of a run says: when it completes, with what, and that every failure names a true reason. */
module ExecutionRecords {
  import opened Common
  import opened PlanModel
  import opened PlanAuthorization
  import opened DecimalArithmetic
  import opened PlanExecution
  import opened ExecutionGuarantees

  // ---- The description ----

  /** The node stands on one ungrouped population. */
  ghost predicate OnPopulation(c: Context, id: NodeId, p: Population) {
    && id.grouping == Whole && p.grouping == Whole
    && exists ref :: ref in c.populations && id.populationRefs == [ref] && c.populations[ref] == p
  }

  /** The node stands on two ungrouped populations, one of each role, with their periods in that order. */
  ghost predicate OnPair(c: Context, id: NodeId, baseline: Population, comparison: Population) {
    && id.grouping == Whole && baseline.grouping == Whole == comparison.grouping
    && baseline.role == Baseline && comparison.role == Comparison
    && id.periodRefs == [baseline.period, comparison.period]
    && exists x, y :: x in c.populations && y in c.populations && id.populationRefs == [x, y]
                      && (c.populations[x], c.populations[y]) in {(baseline, comparison), (comparison, baseline)}
  }

  /** The last of the dependencies' results that is of a metric. */
  ghost predicate LastOf(deps: seq<NodeId>, results: map<NodeId, MetricResult>, m: MetricId, r: MetricResult) {
    exists i :: 0 <= i < |deps| && deps[i] in results && results[deps[i]] == r && r.metric == m
                && forall j :: i < j < |deps| && deps[j] in results ==> results[deps[j]].metric != m
  }

  ghost predicate AllFound(deps: seq<NodeId>, results: map<NodeId, MetricResult>) {
    forall d :: d in deps ==> d in results
  }

  ghost predicate HasMetric(deps: seq<NodeId>, results: map<NodeId, MetricResult>, m: MetricId) {
    exists d :: d in deps && d in results && results[d].metric == m
  }

  /** The dependencies' results are of Revenue and Orders, both, and of nothing else. */
  ghost predicate RevenueAndOrders(deps: seq<NodeId>, results: map<NodeId, MetricResult>) {
    forall m :: HasMetric(deps, results, m) <==> m == Revenue || m == Orders
  }

  /** A Revenue and an Orders result of one population and period, ready to be divided. */
  ghost predicate Divisible(revenue: MetricResult, orders: MetricResult) {
    revenue.scope == orders.scope && revenue.period == orders.period && revenue.value.Money? && orders.value.Count?
  }

  ghost predicate AovFrom(c: Context, id: NodeId, p: Population, deps: seq<NodeId>,
                          results: map<NodeId, MetricResult>, r: MetricResult) {
    && AllFound(deps, results) && RevenueAndOrders(deps, results)
    && r.metric == Aov && r.scope == p.id && r.period == p.period && r.currency == c.foreign(id).currency
    && exists revenue, orders :: LastOf(deps, results, Revenue, revenue) && LastOf(deps, results, Orders, orders)
         && Divisible(revenue, orders)
         && AovIs(r.value, revenue.value.amount.coefficient, revenue.value.amount.exponent, orders.value.n)
  }

  ghost predicate RefersTo(c: Context, d: NodeId, p: Population) {
    exists ref :: ref in c.populations && d.populationRefs == [ref] && c.populations[ref] == p
  }

  /** A dependency with a Revenue result of its own population. */
  ghost predicate RevenueOn(c: Context, d: NodeId, results: map<NodeId, MetricResult>, p: Population) {
    && d in results && results[d].metric == Revenue && RefersTo(c, d, p)
    && results[d].scope == p.id && results[d].period == p.period
  }

  /** Two dependencies with Revenue results of a baseline and a comparison population, in one currency. */
  ghost predicate Comparable(c: Context, x: NodeId, y: NodeId, results: map<NodeId, MetricResult>) {
    && (exists p, q :: RevenueOn(c, x, results, p) && RevenueOn(c, y, results, q)
                       && p.role == Baseline && q.role == Comparison)
    && results[x].currency == results[y].currency && results[x].value.Money? && results[y].value.Money?
  }

  ghost predicate ChangeFrom(c: Context, id: NodeId, p: Population, results: map<NodeId, MetricResult>,
                             r: MetricResult) {
    && r.metric == RevenueChange && r.scope == p.id && r.period == p.period && r.currency == c.foreign(id).currency
    && exists x, y :: id.deps in {[x, y], [y, x]} && Comparable(c, x, y, results)
         && r.value == Money(Subtract(results[y].value.amount.coefficient, results[x].value.amount.coefficient,
                                      c.exponent))
  }

  ghost predicate LeafFrom(c: Context, id: NodeId, p: Population, r: MetricResult) {
    && r.metric == id.metric && r.scope == p.id && r.period == p.period
    && (id.metric == Revenue ==>
         r.value == Money(Decimal(c.foreign(id).total, c.exponent)) && r.currency == c.foreign(id).currency)
    && (id.metric == Orders ==> r.value == Count(c.foreign(id).orders) && r.currency.None?)
  }

  /** A result of the node's own metric, over its own population, from the results so far. */
  ghost predicate Yields(c: Context, id: NodeId, results: map<NodeId, MetricResult>, r: MetricResult) {
    && c.foreign(id).sound
    && match id.metric
       case Revenue => exists p :: OnPopulation(c, id, p) && LeafFrom(c, id, p, r)
       case Orders => exists p :: OnPopulation(c, id, p) && LeafFrom(c, id, p, r)
       case Aov => exists p :: OnPopulation(c, id, p) && AovFrom(c, id, p, id.deps, results, r)
       case RevenueChange => exists b, p :: OnPair(c, id, b, p) && ChangeFrom(c, id, p, results, r)
       case _ => false
  }

  ghost predicate Standing(c: Context, id: NodeId) {
    if id.metric == RevenueChange then exists b, p :: OnPair(c, id, b, p) else exists p :: OnPopulation(c, id, p)
  }

  predicate Supported(m: MetricId) {
    m == Revenue || m == Orders || m == Aov || m == RevenueChange
  }

  /** The reason a failure names is true. */
  ghost predicate TrueReason(c: Context, id: NodeId, results: map<NodeId, MetricResult>, e: ExecutionFailure) {
    match e
    case UnsupportedMetric => !Supported(id.metric)
    case PopulationRejected =>
      && Supported(id.metric)
      && (!Standing(c, id) || (id.metric == RevenueChange
                               && exists d :: d in id.deps && d in results && forall p :: !RefersTo(c, d, p)))
    case ForeignFailure => Supported(id.metric) && Standing(c, id) && !c.foreign(id).sound
    case DependencyMissing => !AllFound(id.deps, results) || (id.metric == RevenueChange && |id.deps| != 2)
    case DependencyMetrics =>
      if id.metric == Aov then !RevenueAndOrders(id.deps, results)
      else exists d :: d in id.deps && d in results && results[d].metric != Revenue
    case DependencyScope =>
      if id.metric == Aov
      then exists r, o :: LastOf(id.deps, results, Revenue, r) && LastOf(id.deps, results, Orders, o)
                          && r.scope != o.scope
      else exists d, p :: d in id.deps && d in results && RefersTo(c, d, p)
                          && (results[d].scope != p.id || results[d].period != p.period)
    case DependencyPeriod =>
      exists r, o :: LastOf(id.deps, results, Revenue, r) && LastOf(id.deps, results, Orders, o)
                     && r.period != o.period
    case DependencyType =>
      if id.metric == Aov
      then exists r, o :: LastOf(id.deps, results, Revenue, r) && LastOf(id.deps, results, Orders, o)
                          && (!r.value.Money? || !o.value.Count?)
      else exists d :: d in id.deps && d in results && !results[d].value.Money?
    case DependencyRoles =>
      exists x, y, p, q :: id.deps == [x, y] && RevenueOn(c, x, results, p) && RevenueOn(c, y, results, q)
                           && p.role == q.role
    case DependencyCurrency =>
      exists x, y :: x in id.deps && y in id.deps && x in results && y in results
                     && results[x].currency != results[y].currency
  }

  predicate OfDependencies(e: ExecutionFailure) {
    !e.UnsupportedMetric? && e != PopulationRejected && e != ForeignFailure
  }

  /** A record completes with exactly what it yields, and a failure has its reason. */
  ghost predicate Explains(c: Context, id: NodeId, results: map<NodeId, MetricResult>,
                           outcome: Result<MetricResult, ExecutionFailure>) {
    match outcome
    case Ok(r) => Yields(c, id, results, r)
    case Err(e) =>
      && (e.UnsupportedMetric? <==> !Supported(id.metric))
      && (OfDependencies(e) ==>
           (id.metric == Aov || id.metric == RevenueChange) && Standing(c, id) && c.foreign(id).sound)
      && TrueReason(c, id, results, e) && forall r :: !Yields(c, id, results, r)
  }

  // ---- Populations ----

  lemma SingleIs(c: Context, id: NodeId, p: Population)
    ensures SinglePopulation(c, id) == Some(p) <==> OnPopulation(c, id, p)
  {
    if |id.populationRefs| == 1 { assert id.populationRefs == [id.populationRefs[0]]; }
  }

  lemma PairIs(c: Context, id: NodeId, b: Population, q: Population)
    ensures PopulationPair(c, id) == Some((b, q)) <==> OnPair(c, id, b, q)
  {
    if |id.populationRefs| == 2 { assert id.populationRefs == [id.populationRefs[0], id.populationRefs[1]]; }
  }

  // ---- AOV ----

  lemma LastAppended(before: seq<NodeId>, last: NodeId, results: map<NodeId, MetricResult>, m: MetricId,
                     r: MetricResult)
    requires last in results
    ensures results[last].metric == m ==> (LastOf(before + [last], results, m, r) <==> r == results[last])
    ensures results[last].metric != m && LastOf(before, results, m, r) ==> LastOf(before + [last], results, m, r)
  {
    var deps := before + [last];
    if results[last].metric == m {
      assert deps[|before|] == last;
    } else if LastOf(before, results, m, r) {
      var i :| 0 <= i < |before| && before[i] in results && results[before[i]] == r && r.metric == m
               && forall j :: i < j < |before| && before[j] in results ==> results[before[j]].metric != m;
      assert deps[i] == before[i];
      assert forall j :: i < j < |before| ==> deps[j] == before[j];
    }
  }

  lemma MetricAppended(before: seq<NodeId>, last: NodeId, results: map<NodeId, MetricResult>, m: MetricId)
    requires last in results
    ensures HasMetric(before + [last], results, m) <==> HasMetric(before, results, m) || results[last].metric == m
  {
    assert forall d :: d in before + [last] <==> d in before || d == last;
    if results[last].metric == m { assert last in before + [last]; }
    if d :| d in before && d in results && results[d].metric == m { assert d in before + [last]; }
  }

  lemma {:induction false} ByMetricIs(deps: seq<NodeId>, results: map<NodeId, MetricResult>)
    ensures ByMetric(deps, results).Some? <==> AllFound(deps, results)
    ensures ByMetric(deps, results).Some? ==>
      var found := ByMetric(deps, results).value;
      && (forall m :: m in found <==> HasMetric(deps, results, m))
      && (forall m :: m in found ==> LastOf(deps, results, m, found[m]))
  {
    if deps != [] {
      var n := |deps| - 1;
      var before, last := deps[..n], deps[n];
      assert deps == before + [last];
      ByMetricIs(before, results);
      if last in results && ByMetric(before, results).Some? {
        var found := ByMetric(deps, results).value;
        hide LastOf, HasMetric;
        forall m ensures m in found <==> HasMetric(deps, results, m) { MetricAppended(before, last, results, m); }
        forall m | m in found ensures LastOf(deps, results, m, found[m]) {
          LastAppended(before, last, results, m, found[m]);
        }
      }
    }
  }

  lemma LastUnique(deps: seq<NodeId>, results: map<NodeId, MetricResult>, m: MetricId, r: MetricResult, s: MetricResult)
    requires LastOf(deps, results, m, r) && LastOf(deps, results, m, s)
    ensures r == s
  {}

  lemma AovExplained(c: Context, id: NodeId, p: Population, results: map<NodeId, MetricResult>)
    requires id.metric == Aov && c.foreign(id).sound && OnPopulation(c, id, p)
    ensures Explains(c, id, results, ExecuteAov(c, id, p, results))
  {
    ByMetricIs(id.deps, results);
    hide ByMetric, LastOf, HasMetric, AovIs, OnPopulation, Quotient;
    var outcome := ExecuteAov(c, id, p, results);
    if ByMetric(id.deps, results).Some? {
      var m := ByMetric(id.deps, results).value;
      assert m.Keys == {Revenue, Orders} <==> RevenueAndOrders(id.deps, results);
      if m.Keys == {Revenue, Orders} {
        assert LastOf(id.deps, results, Revenue, m[Revenue]) && LastOf(id.deps, results, Orders, m[Orders]);
        forall r, o | LastOf(id.deps, results, Revenue, r) && LastOf(id.deps, results, Orders, o)
          ensures r == m[Revenue] && o == m[Orders]
        {
          LastUnique(id.deps, results, Revenue, r, m[Revenue]);
          LastUnique(id.deps, results, Orders, o, m[Orders]);
        }
        if m[Revenue].value.Money? && m[Orders].value.Count? { AovValueAccurate(c, m[Revenue], m[Orders]); }
      }
    }
  }

  // ---- Revenue Change ----

  /** What is wrong with one dependency of a Revenue Change, if anything. */
  function Fault(c: Context, d: NodeId, results: map<NodeId, MetricResult>): Option<ExecutionFailure> {
    if d !in results then Some(DependencyMissing)
    else if results[d].metric != Revenue then Some(DependencyMetrics)
    else if |d.populationRefs| != 1 || d.populationRefs[0] !in c.populations then Some(PopulationRejected)
    else
      var p := c.populations[d.populationRefs[0]];
      if results[d].scope != p.id || results[d].period != p.period then Some(DependencyScope) else None
  }

  function RoleOn(c: Context, d: NodeId, results: map<NodeId, MetricResult>): Role
    requires Fault(c, d, results).None?
  {
    c.populations[d.populationRefs[0]].role
  }

  /** Two dependencies: the first fault decides, then the roles. */
  lemma ByRoleOfTwo(c: Context, x: NodeId, y: NodeId, results: map<NodeId, MetricResult>)
    ensures var r := ByRole(c, [x, y], results);
      if Fault(c, x, results).Some? then r == Err(Fault(c, x, results).value)
      else if Fault(c, y, results).Some? then r == Err(Fault(c, y, results).value)
      else if RoleOn(c, x, results) == RoleOn(c, y, results) then r == Err(DependencyRoles)
      else r == Ok(map[RoleOn(c, x, results) := results[x], RoleOn(c, y, results) := results[y]])
  {
    assert [x, y][..1] == [x] && [x][..0] == [];
    var none: seq<NodeId> := [];
    assert ByRole(c, none, results) == Ok(map[]);
    assert ByRole(c, [x], results) == if Fault(c, x, results).Some? then Err(Fault(c, x, results).value)
                                      else Ok(map[RoleOn(c, x, results) := results[x]]);
  }

  lemma FaultIs(c: Context, d: NodeId, results: map<NodeId, MetricResult>, p: Population)
    ensures RevenueOn(c, d, results, p) <==>
      Fault(c, d, results).None? && p == c.populations[d.populationRefs[0]]
    ensures Fault(c, d, results) == Some(DependencyMetrics) ==> d in results && results[d].metric != Revenue
    ensures Fault(c, d, results) == Some(DependencyMissing) ==> d !in results
    ensures Fault(c, d, results) == Some(PopulationRejected) ==> d in results && !RefersTo(c, d, p)
    ensures Fault(c, d, results) == Some(DependencyScope) ==>
      d in results && RefersTo(c, d, c.populations[d.populationRefs[0]])
      && (results[d].scope != c.populations[d.populationRefs[0]].id
          || results[d].period != c.populations[d.populationRefs[0]].period)
    ensures Fault(c, d, results).Some? ==>
      Fault(c, d, results).value in {DependencyMetrics, DependencyMissing, PopulationRejected, DependencyScope}
  {
    if |d.populationRefs| == 1 { assert d.populationRefs == [d.populationRefs[0]]; }
  }

  /** A fault has its reason, and nothing is yielded. */
  lemma FaultExplained(c: Context, id: NodeId, d: NodeId, results: map<NodeId, MetricResult>)
    requires id.metric == RevenueChange && |id.deps| == 2 && d in id.deps && Fault(c, d, results).Some?
    ensures TrueReason(c, id, results, Fault(c, d, results).value)
    ensures forall r :: !Yields(c, id, results, r)
  {
    hide Fault, RevenueOn, TrueReason, Yields;
    FaultTrue(c, id, d, results);
    forall p ensures !RevenueOn(c, d, results, p) { FaultIs(c, d, results, p); }
    FaultYields(c, id, d, results);
  }

  lemma FaultTrue(c: Context, id: NodeId, d: NodeId, results: map<NodeId, MetricResult>)
    requires id.metric == RevenueChange && |id.deps| == 2 && d in id.deps && Fault(c, d, results).Some?
    ensures TrueReason(c, id, results, Fault(c, d, results).value)
  {
    forall p | Fault(c, d, results) == Some(PopulationRejected) ensures d in results && !RefersTo(c, d, p) {
      FaultIs(c, d, results, p);
    }
    FaultIs(c, d, results, Population(PopulationId(Baseline, Whole, ""), Baseline, Whole, ""));
    hide Fault, RevenueOn, RefersTo, OnPair;
  }

  lemma FaultYields(c: Context, id: NodeId, d: NodeId, results: map<NodeId, MetricResult>)
    requires id.metric == RevenueChange && |id.deps| == 2 && d in id.deps
    requires forall p :: !RevenueOn(c, d, results, p)
    ensures forall r :: !Yields(c, id, results, r)
  {
    hide RevenueOn, OnPair, Subtract;
  }

  lemma ChangeExplained(c: Context, id: NodeId, b: Population, p: Population, results: map<NodeId, MetricResult>)
    requires id.metric == RevenueChange && c.foreign(id).sound && OnPair(c, id, b, p)
    ensures Explains(c, id, results, ExecuteRevenueChange(c, id, p, results))
  {
    hide OnPair, Subtract;
    if |id.deps| == 2 {
      var x, y := id.deps[0], id.deps[1];
      assert id.deps == [x, y];
      ByRoleOfTwo(c, x, y, results);
      if Fault(c, x, results).Some? {
        FaultExplained(c, id, x, results);
      } else if Fault(c, y, results).Some? {
        FaultExplained(c, id, y, results);
      } else {
        SoundPair(c, id, x, y, b, p, results);
      }
    }
  }

  lemma SoundPair(c: Context, id: NodeId, x: NodeId, y: NodeId, b: Population, p: Population,
                  results: map<NodeId, MetricResult>)
    requires id.metric == RevenueChange && c.foreign(id).sound && OnPair(c, id, b, p) && id.deps == [x, y]
    requires Fault(c, x, results).None? && Fault(c, y, results).None?
    requires var r := ByRole(c, [x, y], results);
      if RoleOn(c, x, results) == RoleOn(c, y, results) then r == Err(DependencyRoles)
      else r == Ok(map[RoleOn(c, x, results) := results[x], RoleOn(c, y, results) := results[y]])
    ensures Explains(c, id, results, ExecuteRevenueChange(c, id, p, results))
  {
    var px, py := c.populations[x.populationRefs[0]], c.populations[y.populationRefs[0]];
    forall q ensures RevenueOn(c, x, results, q) <==> q == px { FaultIs(c, x, results, q); }
    forall q ensures RevenueOn(c, y, results, q) <==> q == py { FaultIs(c, y, results, q); }
    if px.role == py.role {
      hide OnPair, ByRole, RevenueOn, RefersTo;
    } else if px.role == Baseline {
      hide OnPair, ByRole, RevenueOn, RefersTo;
      OrderedPair(c, id, x, y, px, py, b, p, results);
    } else {
      hide OnPair, ByRole, RevenueOn, RefersTo;
      assert map[Comparison := results[x], Baseline := results[y]]
        == map[Baseline := results[y], Comparison := results[x]];
      OrderedPair(c, id, y, x, py, px, b, p, results);
    }
  }

  lemma OrderedPair(c: Context, id: NodeId, x: NodeId, y: NodeId, px: Population, py: Population, b: Population,
                    p: Population, results: map<NodeId, MetricResult>)
    requires id.metric == RevenueChange && c.foreign(id).sound && OnPair(c, id, b, p) && id.deps in {[x, y], [y, x]}
    requires px.role == Baseline && py.role == Comparison && x in results && y in results
    requires forall q :: RevenueOn(c, x, results, q) <==> q == px
    requires forall q :: RevenueOn(c, y, results, q) <==> q == py
    requires ByRole(c, id.deps, results) == Ok(map[Baseline := results[x], Comparison := results[y]])
    ensures Explains(c, id, results, ExecuteRevenueChange(c, id, p, results))
  {
    hide OnPair, Subtract, ByRole, RevenueOn, RefersTo;
    assert ByRole(c, id.deps, results).value.Keys == {Baseline, Comparison};
    forall u, v | id.deps in {[u, v], [v, u]} && Comparable(c, u, v, results) ensures u == x && v == y {}
  }

  // ---- Every step ----

  /** The step of a node completes with exactly what it yields, and its failures have their reasons. */
  lemma StepExplained(c: Context, id: NodeId, results: map<NodeId, MetricResult>)
    ensures Explains(c, id, results, Step(c, id, results))
  {
    hide ExecuteAov, ExecuteRevenueChange, SinglePopulation, PopulationPair, OnPair, OnPopulation;
    if id.metric == RevenueChange {
      forall b, q ensures PopulationPair(c, id) == Some((b, q)) <==> OnPair(c, id, b, q) { PairIs(c, id, b, q); }
      if PopulationPair(c, id).Some? && c.foreign(id).sound {
        ChangeExplained(c, id, PopulationPair(c, id).value.0, PopulationPair(c, id).value.1, results);
      }
    } else if Supported(id.metric) {
      forall p ensures SinglePopulation(c, id) == Some(p) <==> OnPopulation(c, id, p) { SingleIs(c, id, p); }
      if SinglePopulation(c, id).Some? && c.foreign(id).sound && id.metric == Aov {
        AovExplained(c, id, SinglePopulation(c, id).value, results);
      }
    }
  }

  // ---- Whole runs ----

  /** The last result recorded for each node. */
  function ResultsOf(records: seq<Record>): map<NodeId, MetricResult> {
    if records == [] then map[]
    else
      var n := |records| - 1;
      var before := ResultsOf(records[..n]);
      if records[n].outcome.Ok? then before[records[n].node := records[n].outcome.value] else before
  }

  /** Every record is explained by the completed ones before it. */
  ghost predicate AllExplained(c: Context, records: seq<Record>) {
    forall k :: 0 <= k < |records| ==> Explains(c, records[k].node, ResultsOf(records[..k]), records[k].outcome)
  }

  lemma OneMoreExplained(c: Context, records: seq<Record>, r: Record)
    requires AllExplained(c, records) && Explains(c, r.node, ResultsOf(records), r.outcome)
    ensures AllExplained(c, records + [r])
    ensures ResultsOf(records + [r])
      == if r.outcome.Ok? then ResultsOf(records)[r.node := r.outcome.value] else ResultsOf(records)
  {
    hide Explains;
    var m, all := |records|, records + [r];
    assert all[..m] == records;
    assert forall k :: 0 <= k < m ==> all[..k] == records[..k] && all[k] == records[k];
  }

  lemma {:induction false} RunExplained(c: Context, nodes: seq<PlanNode>)
    ensures var s := Run(c, nodes);
      s.resultByNode == ResultsOf(s.records) && AllExplained(c, s.records)
  {
    if nodes == [] {
      assert ResultsOf([]) == map[];
    } else {
      var n := |nodes| - 1;
      RunExplained(c, nodes[..n]);
      var before := Run(c, nodes[..n]);
      assert AllExplained(c, before.records);
      hide Step, Explains, AllExplained, ResultsOf, Run;
      if nodes[n].state == Executable {
        var id := nodes[n].id;
        StepExplained(c, id, before.resultByNode);
        OneMoreExplained(c, before.records, Record(id, Step(c, id, before.resultByNode)));
      }
      RunLast(c, nodes, n);
    }
  }

  lemma RunLast(c: Context, nodes: seq<PlanNode>, n: nat)
    requires |nodes| == n + 1
    ensures Run(c, nodes)
      == if nodes[n].state == Executable then Advance(c, Run(c, nodes[..n]), nodes[n].id) else Run(c, nodes[..n])
  {}

  /**
   * execute_plan as a whole. Each executable entry of the plan has one record, in order, which the results of the
   * records before it explain, and each completed record has one result.
   */
  method ExecutePlan(context: Context, nodes: seq<PlanNode>) returns (records: seq<Record>, results: seq<MetricResult>)
    ensures |records| == |ExecutableIds(nodes)|
    ensures forall k :: 0 <= k < |records| ==> records[k].node == ExecutableIds(nodes)[k]
    ensures results == CompletedResults(records)
    ensures records == Run(context, nodes).records
    ensures forall k :: 0 <= k < |records| ==>
      Explains(context, records[k].node, ResultsOf(records[..k]), records[k].outcome)
    ensures Topological(nodes) ==> Faithful(context, nodes, records)
  {
    hide Step, Denote, DenoteAll, Run, Faithful, Explains;
    var executor := new Executor(context);
    executor.Execute(nodes);
    records, results := executor.records, executor.results;
    RunRecords(context, nodes);
    RunExplained(context, nodes);
    if Topological(nodes) { RunFaithful(context, nodes); }
  }
}
