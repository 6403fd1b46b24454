/**
 * What executing a governed plan yields: when each metric completes, how exact its value is, and one record per node.
 */
module ExecutionGuarantees {
  import opened Common
  import opened PlanModel
  import opened PlanAuthorization
  import opened DecimalArithmetic
  import opened PlanExecution

  /** A leaf runs on its own. */
  ghost predicate Runs(c: Context, executable: set<NodeId>, id: NodeId) {
    id in executable && c.foreign(id).sound
  }

  /** Revenue and Orders complete exactly when they run on a single ungrouped population. */
  lemma {:induction false} LeafCompletesExactly(c: Context, executable: set<NodeId>, id: NodeId)
    requires id.metric in {Revenue, Orders}
    ensures Denote(c, executable, id).Some? <==> Runs(c, executable, id) && SinglePopulation(c, id).Some?
    ensures Denote(c, executable, id).Some? ==>
      var r, p := Denote(c, executable, id).value, SinglePopulation(c, id).value;
      && r.metric == id.metric && r.scope == p.id && r.period == p.period
      && (id.metric == Revenue ==>
           r.value == Money(Decimal(c.foreign(id).total, c.exponent)) && r.currency == c.foreign(id).currency)
      && (id.metric == Orders ==> r.value == Count(c.foreign(id).orders))
  {
    hide DenoteAll;
  }

  /** The shape the validator demands of an AOV node: Revenue and Orders over the node's own population. */
  ghost predicate AovShape(c: Context, id: NodeId, revenue: NodeId, orders: NodeId) {
    && id.metric == Aov && revenue.metric == Revenue && orders.metric == Orders
    && id.deps in {[revenue, orders], [orders, revenue]}
    && SinglePopulation(c, id).Some?
    && SinglePopulation(c, revenue) == SinglePopulation(c, id) == SinglePopulation(c, orders)
  }

  /** The result is of a metric over a population. */
  ghost predicate Describes(r: MetricResult, metric: MetricId, p: Population) {
    r.metric == metric && r.scope == p.id && r.period == p.period
  }

  /**
   * AOV of a total over an order count: undefined at zero orders,
     else the exact quotient to 38 significant digits, half
   * to even.
   */
  ghost predicate AovIs(v: MetricValue, total: int, exponent: int, orders: nat) {
    if orders == 0 then v == Undefined
    else if total == 0 then v == Money(Decimal(0, exponent))
    else
      && v.Money?
      && Rounds(v.amount, Exact(total, exponent, orders), LastDigit(total, exponent, orders))
  }

  lemma {:induction false} PairResults(c: Context, deps: seq<NodeId>, a: NodeId, b: NodeId,
                                       results: map<NodeId, MetricResult>)
    requires a != b && deps in {[a, b], [b, a]}
    ensures ByMetric(deps, results).Some? <==> a in results && b in results
    ensures ByMetric(deps, results).Some? && results[a].metric != results[b].metric ==>
      ByMetric(deps, results).value == map[results[a].metric := results[a], results[b].metric := results[b]]
  {
    assert deps[..1] == [deps[0]] && [deps[0]][..0] == [];
    var none: seq<NodeId> := [];
    assert ByMetric(none, results) == Some(map[]);
    assert ByMetric([deps[0]], results)
      == if deps[0] in results then Some(map[results[deps[0]].metric := results[deps[0]]]) else None;
  }

  /** AOV completes exactly when it and both its dependencies do, with the value of their exact quotient. */
  lemma {:induction false} AovCompletesExactly(c: Context, executable: set<NodeId>, id: NodeId, revenue: NodeId,
                                               orders: NodeId)
    requires AovShape(c, id, revenue, orders)
    ensures Denote(c, executable, id).Some? <==>
      Runs(c, executable, id) && Runs(c, executable, revenue) && Runs(c, executable, orders)
    ensures Denote(c, executable, id).Some? ==>
      var r := Denote(c, executable, id).value;
      Describes(r, Aov, SinglePopulation(c, id).value)
        && AovIs(r.value, c.foreign(revenue).total, c.exponent, c.foreign(orders).orders)
  {
    hide Step, Denote, DenoteAll, ByMetric, AovIs;
    var results := DenoteAll(c, executable, id.deps);
    DenoteAllAt(c, executable, id.deps);
    LeafCompletesExactly(c, executable, revenue);
    LeafCompletesExactly(c, executable, orders);
    PairResults(c, id.deps, revenue, orders, results);
    AovStep(c, id, revenue, orders, results);
    if id in executable { DenoteIsStep(c, executable, id); }
    if Denote(c, executable, id).Some? { OnlyExecutableDenotes(c, executable, id); }
  }

  lemma {:induction false} AovStep(c: Context, id: NodeId, revenue: NodeId, orders: NodeId,
                                   results: map<NodeId, MetricResult>)
    requires AovShape(c, id, revenue, orders)
    requires ByMetric(id.deps, results).Some? <==> revenue in results && orders in results
    requires revenue in results && orders in results ==>
      && results[revenue].metric == Revenue && results[orders].metric == Orders
      && results[revenue].scope == results[orders].scope && results[revenue].period == results[orders].period
      && ByMetric(id.deps, results).value == map[Revenue := results[revenue], Orders := results[orders]]
      && results[revenue].value == Money(Decimal(c.foreign(revenue).total, c.exponent))
      && results[orders].value == Count(c.foreign(orders).orders)
    ensures Step(c, id, results).Ok? <==> c.foreign(id).sound && revenue in results && orders in results
    ensures Step(c, id, results).Ok? ==>
      var r := Step(c, id, results).value;
      Describes(r, Aov, SinglePopulation(c, id).value)
        && AovIs(r.value, c.foreign(revenue).total, c.exponent, c.foreign(orders).orders)
  {
    hide ByMetric, ByRole, Quotient, AovIs;
    if revenue in results && orders in results {
      var total, n := c.foreign(revenue).total, c.foreign(orders).orders;
      assert ByMetric(id.deps, results).value.Keys == {Revenue, Orders};
      AovValueAccurate(c, results[revenue], results[orders]);
    }
  }

  lemma {:induction false} AovValueAccurate(c: Context, revenue: MetricResult, orders: MetricResult)
    requires revenue.value.Money? && orders.value.Count?
    ensures AovValue(c, revenue, orders).Ok?
    ensures AovIs(AovValue(c, revenue, orders).value, revenue.value.amount.coefficient, revenue.value.amount.exponent,
                  orders.value.n)
  {
    hide Normalise, Pow10, Unit, Times, Value, Exact;
    var total, n := revenue.value.amount.coefficient, orders.value.n;
    if n > 0 && total != 0 { QuotientAccurate(total, revenue.value.amount.exponent, n); }
  }

  /** The shape the validator demands of Revenue Change: one Revenue node per population of the pair. */
  ghost predicate ChangeShape(c: Context, id: NodeId, baseline: NodeId, comparison: NodeId) {
    && id.metric == RevenueChange && baseline.metric == Revenue == comparison.metric
    && id.deps in {[baseline, comparison], [comparison, baseline]}
    && PopulationPair(c, id).Some?
    && SinglePopulation(c, baseline) == Some(PopulationPair(c, id).value.0)
    && SinglePopulation(c, comparison) == Some(PopulationPair(c, id).value.1)
  }

  lemma {:induction false} PairRoles(c: Context, deps: seq<NodeId>, a: NodeId, b: NodeId,
                                     results: map<NodeId, MetricResult>)
    requires deps in {[a, b], [b, a]}
    requires SinglePopulation(c, a).Some? && SinglePopulation(c, b).Some?
    requires SinglePopulation(c, a).value.role == Baseline && SinglePopulation(c, b).value.role == Comparison
    requires a in results ==> results[a].metric == Revenue && results[a].scope == SinglePopulation(c, a).value.id
                              && results[a].period == SinglePopulation(c, a).value.period
    requires b in results ==> results[b].metric == Revenue && results[b].scope == SinglePopulation(c, b).value.id
                              && results[b].period == SinglePopulation(c, b).value.period
    ensures ByRole(c, deps, results).Ok? <==> a in results && b in results
    ensures a in results && b in results ==>
      ByRole(c, deps, results).value == map[Baseline := results[a], Comparison := results[b]]
  {
    assert deps[..1] == [deps[0]] && [deps[0]][..0] == [];
    var none: seq<NodeId> := [];
    assert ByRole(c, none, results) == Ok(map[]);
    var first := deps[0];
    assert ByRole(c, [first], results) ==
      if first in results then Ok(map[SinglePopulation(c, first).value.role := results[first]])
        else Err(DependencyMissing);
  }

  /**
   * Revenue Change completes exactly when it and both Revenues do under one currency; fitting totals give the exact
   * difference.
   */
  lemma {:induction false} ChangeCompletesExactly(c: Context, executable: set<NodeId>, id: NodeId, baseline: NodeId,
                                                  comparison: NodeId)
    requires ChangeShape(c, id, baseline, comparison)
    ensures Denote(c, executable, id).Some? <==>
      && Runs(c, executable, id) && Runs(c, executable, baseline) && Runs(c, executable, comparison)
      && c.foreign(baseline).currency == c.foreign(comparison).currency
    ensures Denote(c, executable, id).Some? ==>
      Describes(Denote(c, executable, id).value, RevenueChange, PopulationPair(c, id).value.1)
    ensures var x, y := c.foreign(baseline).total, c.foreign(comparison).total;
      Denote(c, executable, id).Some? && 0 <= x < Pow10(38) && 0 <= y < Pow10(38) ==>
        var v := Denote(c, executable, id).value.value;
        v.Money? && Value(v.amount) == Times((y - x) as real, Unit(c.exponent))
  {
    hide Step, Denote, DenoteAll, ByRole, Pow10, Unit, Times, Value, Subtract;
    var results := DenoteAll(c, executable, id.deps);
    DenoteAllAt(c, executable, id.deps);
    LeafCompletesExactly(c, executable, baseline);
    LeafCompletesExactly(c, executable, comparison);
    PairRoles(c, id.deps, baseline, comparison, results);
    ChangeStep(c, id, baseline, comparison, results);
    if id in executable { DenoteIsStep(c, executable, id); }
    if Denote(c, executable, id).Some? { OnlyExecutableDenotes(c, executable, id); }
    var x, y := c.foreign(baseline).total, c.foreign(comparison).total;
    if 0 <= x < Pow10(38) && 0 <= y < Pow10(38) { RevenueChangeExact(x, y, c.exponent); }
  }

  lemma {:induction false} ChangeStep(c: Context, id: NodeId, baseline: NodeId, comparison: NodeId,
                                      results: map<NodeId, MetricResult>)
    requires ChangeShape(c, id, baseline, comparison)
    requires ByRole(c, id.deps, results).Ok? <==> baseline in results && comparison in results
    requires baseline in results && comparison in results ==>
      && ByRole(c, id.deps, results).value == map[Baseline := results[baseline], Comparison := results[comparison]]
      && results[baseline].value == Money(Decimal(c.foreign(baseline).total, c.exponent))
      && results[comparison].value == Money(Decimal(c.foreign(comparison).total, c.exponent))
      && results[baseline].currency == c.foreign(baseline).currency
      && results[comparison].currency == c.foreign(comparison).currency
    ensures Step(c, id, results).Ok? <==>
      c.foreign(id).sound && baseline in results && comparison in results
        && c.foreign(baseline).currency == c.foreign(comparison).currency
    ensures Step(c, id, results).Ok? ==>
      Describes(Step(c, id, results).value, RevenueChange, PopulationPair(c, id).value.1)
    ensures Step(c, id, results).Ok? ==>
      Step(c, id, results).value.value
        == Money(Subtract(c.foreign(comparison).total, c.foreign(baseline).total, c.exponent))
  {
    hide ByMetric, ByRole, Subtract;
    if baseline in results && comparison in results {
      assert ByRole(c, id.deps, results).value.Keys == {Baseline, Comparison};
    }
  }

  // ---- Whole runs ----

  lemma {:induction false} ExecutableIdsMembers(nodes: seq<PlanNode>)
    ensures forall id :: id in ExecutableIds(nodes) <==> id in ExecutableSet(nodes)
  {
    if nodes != [] {
      var n := |nodes| - 1;
      ExecutableIdsMembers(nodes[..n]);
      assert nodes[..n + 1] == nodes;
      PrefixStep(nodes, n);
    }
  }

  lemma {:induction false} ExecutableOnce(nodes: seq<PlanNode>)
    requires forall i, j :: 0 <= i < j < |nodes| ==> nodes[i].id != nodes[j].id
    ensures NoDuplicates(ExecutableIds(nodes))
  {
    if nodes != [] {
      var n := |nodes| - 1;
      ExecutableOnce(nodes[..n]);
      ExecutableIdsMembers(nodes[..n]);
      assert nodes[n].id !in ExecutableSet(nodes[..n]);
      ExtendDistinct(ExecutableIds(nodes[..n]), nodes[n].id);
      assert ExecutableIds(nodes[..n]) + [] == ExecutableIds(nodes[..n]);
    }
  }

  lemma ExtendDistinct(ids: seq<NodeId>, id: NodeId)
    requires NoDuplicates(ids) && id !in ids
    ensures NoDuplicates(ids + [id])
  {}

  /** The results list holds one result per completed record, in record order. */
  lemma {:induction false} CompletedAre(records: seq<Record>)
    ensures forall k :: 0 <= k < |records| && records[k].outcome.Ok? ==>
      records[k].outcome.value in CompletedResults(records)
    ensures |CompletedResults(records)| == |Completing(records)|
  {
    if records != [] { CompletedAre(records[..|records| - 1]); }
  }

  function Completing(records: seq<Record>): seq<NodeId> {
    if records == [] then []
    else
      var n := |records| - 1;
      Completing(records[..n]) + if records[n].outcome.Ok? then [records[n].node] else []
  }

  /** No node has two records, and a record completes exactly when its node denotes a value, with that value. */
  ghost predicate Faithful(context: Context, nodes: seq<PlanNode>, records: seq<Record>) {
    && NoDuplicates(ExecutableIds(nodes))
    && (forall id :: id in ExecutableIds(nodes) <==> id in ExecutableSet(nodes))
    && forall k :: 0 <= k < |records| ==>
      Denote(context, ExecutableSet(nodes), records[k].node)
        == if records[k].outcome.Ok? then Some(records[k].outcome.value) else None
  }

  lemma RunFaithful(context: Context, nodes: seq<PlanNode>)
    requires Topological(nodes)
    ensures Faithful(context, nodes, Run(context, nodes).records)
  {
    hide Step, Denote, DenoteAll, Run;
    ghost var ids, executable := ExecutableIds(nodes), ExecutableSet(nodes);
    var records := Run(context, nodes).records;
    RunDenotes(context, nodes);
    ExecutableOnce(nodes);
    ExecutableIdsMembers(nodes);
    RecordsAre(context, executable, ids);
    forall k | 0 <= k < |records|
      ensures Denote(context, executable, records[k].node)
        == if records[k].outcome.Ok? then Some(records[k].outcome.value) else None
    {
      assert ids[k] in ids;
      DenoteIsStep(context, executable, ids[k]);
    }
  }
}
