/** execute_plan: one pass over the ordered nodes, against a semantics that only follows dependencies. */
module PlanExecution {
  import opened Common
  import opened PlanModel
  import opened PlanAuthorization
  import opened DecimalArithmetic

  datatype MetricValue = Money(amount: Decimal) | Count(n: nat) | Undefined

  datatype MetricResult = MetricResult(metric: MetricId, scope: PopulationId, period: string, value: MetricValue,
                                       currency: Option<string>)

  datatype ExecutionFailure = UnsupportedMetric | PopulationRejected | ForeignFailure | DependencyMissing
                            | DependencyMetrics
                            | DependencyScope | DependencyPeriod | DependencyType | DependencyRoles | DependencyCurrency

  /**
   * What the calls outside the engine answer for a node: whether every identity, query and currency check passes, and
   * with what.
   */
  datatype Foreign = Foreign(sound: bool, total: int, orders: nat, currency: Option<string>)

  /** The executor's surroundings; totals share one decimal exponent. */
  datatype Context = Context(populations: map<PopulationId, Population>, exponent: int, foreign: NodeId -> Foreign)

  datatype Record = Record(node: NodeId, outcome: Result<MetricResult, ExecutionFailure>)

  // ---- One node ----

  /** _single_total_population. */
  function SinglePopulation(c: Context, id: NodeId): Option<Population> {
    if id.grouping != Whole || |id.populationRefs| != 1 || id.populationRefs[0] !in c.populations then None
    else
      var p := c.populations[id.populationRefs[0]];
      if p.grouping == Whole then Some(p) else None
  }

  /** _revenue_change_populations: baseline then comparison, whichever order the references have. */
  function PopulationPair(c: Context, id: NodeId): Option<(Population, Population)> {
    if id.grouping != Whole || |id.populationRefs| != 2 then None
    else if id.populationRefs[0] !in c.populations || id.populationRefs[1] !in c.populations then None
    else
      var p, q := c.populations[id.populationRefs[0]], c.populations[id.populationRefs[1]];
      if p.grouping != Whole || q.grouping != Whole || p.role == q.role then None
      else
        var baseline, comparison := if p.role == Baseline then p else q, if p.role == Baseline then q else p;
        if id.periodRefs == [baseline.period, comparison.period] then Some((baseline, comparison)) else None
  }

  /**
   * _aov_dependency_results: the dictionary of results by metric; a later result of the same metric replaces an earlier
   * one.
   */
  function ByMetric(deps: seq<NodeId>, results: map<NodeId, MetricResult>): Option<map<MetricId, MetricResult>> {
    if deps == [] then Some(map[])
    else
      var n := |deps| - 1;
      match ByMetric(deps[..n], results)
      case None => None
      case Some(m) => if deps[n] in results then Some(m[results[deps[n]].metric := results[deps[n]]]) else None
  }

  function AovValue(c: Context, revenue: MetricResult, orders: MetricResult): Result<MetricValue, ExecutionFailure> {
    if !revenue.value.Money? || !orders.value.Count? then Err(DependencyType)
    else if orders.value.n == 0 then Ok(Undefined)
    else Ok(Money(Quotient(revenue.value.amount.coefficient, revenue.value.amount.exponent, orders.value.n)))
  }

  function ExecuteAov(c: Context, id: NodeId, population: Population,
                      results: map<NodeId, MetricResult>): Result<MetricResult, ExecutionFailure> {
    match ByMetric(id.deps, results)
    case None => Err(DependencyMissing)
    case Some(m) =>
      if m.Keys != {Revenue, Orders} then Err(DependencyMetrics)
      else if m[Revenue].scope != m[Orders].scope then Err(DependencyScope)
      else if m[Revenue].period != m[Orders].period then Err(DependencyPeriod)
      else
        match AovValue(c, m[Revenue], m[Orders])
        case Err(e) => Err(e)
        case Ok(v) => Ok(MetricResult(Aov, population.id, population.period, v, c.foreign(id).currency))
  }

  /** _revenue_change_dependency_results: one valid Revenue result per period role. */
  function ByRole(c: Context, deps: seq<NodeId>, results: map<NodeId, MetricResult>): Result<map<Role, MetricResult>,
                  ExecutionFailure> {
    if deps == [] then Ok(map[])
    else
      var n := |deps| - 1;
      match ByRole(c, deps[..n], results)
      case Err(e) => Err(e)
      case Ok(m) =>
        if deps[n] !in results then Err(DependencyMissing)
        else if results[deps[n]].metric != Revenue then Err(DependencyMetrics)
        else if |deps[n].populationRefs| != 1 || deps[n].populationRefs[0] !in c.populations
          then Err(PopulationRejected)
        else
          var p := c.populations[deps[n].populationRefs[0]];
          if results[deps[n]].scope != p.id || results[deps[n]].period != p.period then Err(DependencyScope)
          else if p.role in m then Err(DependencyRoles)
          else Ok(m[p.role := results[deps[n]]])
  }

  function ExecuteRevenueChange(c: Context, id: NodeId, comparison: Population,
                                results: map<NodeId, MetricResult>): Result<MetricResult, ExecutionFailure> {
    if |id.deps| != 2 then Err(DependencyMissing)
    else
      match ByRole(c, id.deps, results)
      case Err(e) => Err(e)
      case Ok(m) =>
        if m.Keys != {Baseline, Comparison} then Err(DependencyRoles)
        else if m[Baseline].currency != m[Comparison].currency then Err(DependencyCurrency)
        else if !m[Baseline].value.Money? || !m[Comparison].value.Money? then Err(DependencyType)
        else
          var value :=
            Subtract(m[Comparison].value.amount.coefficient, m[Baseline].value.amount.coefficient, c.exponent);
          Ok(MetricResult(RevenueChange, comparison.id, comparison.period, Money(value), c.foreign(id).currency))
  }

  /** The body of the loop for one executable node. */
  function Step(c: Context, id: NodeId, results: map<NodeId, MetricResult>): Result<MetricResult, ExecutionFailure> {
    if id.metric !in {Revenue, Orders, Aov, RevenueChange} then Err(ExecutionFailure.UnsupportedMetric)
    else if id.metric == RevenueChange then
      match PopulationPair(c, id)
      case None => Err(PopulationRejected)
      case Some((_, comparison)) =>
        if !c.foreign(id).sound then Err(ForeignFailure) else ExecuteRevenueChange(c, id, comparison, results)
    else
      match SinglePopulation(c, id)
      case None => Err(PopulationRejected)
      case Some(p) =>
        if !c.foreign(id).sound then Err(ForeignFailure)
        else if id.metric == Revenue then
          Ok(MetricResult(Revenue, p.id, p.period, Money(Decimal(c.foreign(id).total, c.exponent)),
                          c.foreign(id).currency))
        else if id.metric == Orders then Ok(MetricResult(Orders, p.id, p.period, Count(c.foreign(id).orders), None))
        else ExecuteAov(c, id, p, results)
  }

  // ---- Reference semantics: follow dependencies, ignore the rest of the plan ----

  /** The result of a node, from its identity alone; executable says which identities may run. */
  function Denote(c: Context, executable: set<NodeId>, id: NodeId): Option<MetricResult>
    decreases id, 1
  {
    if id !in executable then None
    else
      match Step(c, id, DenoteAll(c, executable, id.deps))
      case Err(_) => None
      case Ok(r) => Some(r)
  }

  function DenoteAll(c: Context, executable: set<NodeId>, ids: seq<NodeId>): map<NodeId, MetricResult>
    decreases ids, 0
  {
    if ids == [] then map[]
    else
      var n := |ids| - 1;
      var before := DenoteAll(c, executable, ids[..n]);
      match Denote(c, executable, ids[n])
      case None => before
      case Some(r) => before[ids[n] := r]
  }

  lemma {:induction false} DenoteAllAt(c: Context, executable: set<NodeId>, ids: seq<NodeId>)
    ensures forall d :: d in DenoteAll(c, executable, ids) <==> d in ids && Denote(c, executable, d).Some?
    ensures forall d :: d in DenoteAll(c, executable, ids) ==>
      Denote(c, executable, d) == Some(DenoteAll(c, executable, ids)[d])
  {
    if ids != [] {
      var n := |ids| - 1;
      DenoteAllAt(c, executable, ids[..n]);
      assert forall d :: d in ids <==> d in ids[..n] || d == ids[n];
    }
  }

  /** Two result maps that agree on some dependencies. */
  ghost predicate AgreeOn(deps: seq<NodeId>, a: map<NodeId, MetricResult>, b: map<NodeId, MetricResult>) {
    forall d :: d in deps ==> (d in a <==> d in b) && (d in a ==> a[d] == b[d])
  }

  lemma {:induction false} DependenciesDecide(c: Context, deps: seq<NodeId>, a: map<NodeId, MetricResult>,
                                              b: map<NodeId, MetricResult>)
    requires AgreeOn(deps, a, b)
    ensures ByMetric(deps, a) == ByMetric(deps, b) && ByRole(c, deps, a) == ByRole(c, deps, b)
  {
    if deps != [] {
      var n := |deps| - 1;
      assert deps[n] in deps && forall d :: d in deps[..n] ==> d in deps;
      DependenciesDecide(c, deps[..n], a, b);
    }
  }

  lemma StepReadsDependencies(c: Context, id: NodeId, a: map<NodeId, MetricResult>, b: map<NodeId, MetricResult>)
    requires AgreeOn(id.deps, a, b)
    ensures Step(c, id, a) == Step(c, id, b)
  {
    hide ByMetric, ByRole, Quotient, Subtract;
    DependenciesDecide(c, id.deps, a, b);
  }

  // ---- The executor ----

  function ExecutableIds(nodes: seq<PlanNode>): seq<NodeId> {
    if nodes == [] then []
    else
      var n := |nodes| - 1;
      ExecutableIds(nodes[..n]) + if nodes[n].state == Executable then [nodes[n].id] else []
  }

  function RecordFor(c: Context, executable: set<NodeId>, id: NodeId): Record {
    Record(id, Step(c, id, DenoteAll(c, executable, id.deps)))
  }

  function Records(c: Context, executable: set<NodeId>, ids: seq<NodeId>): seq<Record> {
    if ids == [] then [] else Records(c, executable, ids[..|ids| - 1]) + [RecordFor(c, executable, ids[|ids| - 1])]
  }

  function CompletedResults(records: seq<Record>): seq<MetricResult> {
    if records == [] then []
    else
      var n := |records| - 1;
      CompletedResults(records[..n]) + if records[n].outcome.Ok? then [records[n].outcome.value] else []
  }

  ghost function ExecutableSet(nodes: seq<PlanNode>): set<NodeId> {
    set n | n in nodes && n.state == Executable :: n.id
  }

  /** What the pass has accumulated. */
  datatype RunState = RunState(resultByNode: map<NodeId, MetricResult>, records: seq<Record>,
                               results: seq<MetricResult>)

  /** One executable node: run the step on the results so far, record it, and keep its result when it completes. */
  function Advance(c: Context, s: RunState, id: NodeId): RunState {
    var outcome := Step(c, id, s.resultByNode);
    var records := s.records + [Record(id, outcome)];
    match outcome
    case Err(_) => s.(records := records)
    case Ok(r) => RunState(s.resultByNode[id := r], records, s.results + [r])
  }

  /** The pass over a plan in any order. */
  function Run(c: Context, nodes: seq<PlanNode>): RunState {
    if nodes == [] then RunState(map[], [], [])
    else
      var n := |nodes| - 1;
      var before := Run(c, nodes[..n]);
      if nodes[n].state == Executable then Advance(c, before, nodes[n].id) else before
  }

  class Executor {
    const context: Context
    var resultByNode: map<NodeId, MetricResult>
    var records: seq<Record>
    var results: seq<MetricResult>

    constructor (context: Context)
      ensures this.context == context && State() == RunState(map[], [], [])
    {
      this.context := context;
      resultByNode, records, results := map[], [], [];
    }

    ghost function State(): RunState
      reads this
    {
      RunState(resultByNode, records, results)
    }

    method Execute(nodes: seq<PlanNode>)
      requires State() == RunState(map[], [], [])
      modifies this
      ensures State() == Run(context, nodes)
    {
      hide Advance;
      for i := 0 to |nodes|
        invariant State() == Run(context, nodes[..i])
      {
        RunStep(context, nodes, i);
        if nodes[i].state == Executable {
          ExecuteNode(nodes[i].id);
        }
      }
      assert nodes[..|nodes|] == nodes;
    }

    /** The body of the loop for one executable node. */
    method ExecuteNode(id: NodeId)
      modifies this
      ensures State() == Advance(context, old(State()), id)
    {
      hide Step;
      var outcome := Step(context, id, resultByNode);
      records := records + [Record(id, outcome)];
      if outcome.Ok? {
        results := results + [outcome.value];
        resultByNode := resultByNode[id := outcome.value];
      }
    }
  }

  // ---- The pass against the reference semantics ----

  /**
   * One record per executable node in plan order, and one result per completed record, whatever the order of the plan.
   */
  lemma {:induction false} RunRecords(c: Context, nodes: seq<PlanNode>)
    ensures var s := Run(c, nodes);
      && |s.records| == |ExecutableIds(nodes)|
      && (forall k :: 0 <= k < |s.records| ==> s.records[k].node == ExecutableIds(nodes)[k])
      && s.results == CompletedResults(s.records)
  {
    hide Step;
    if nodes != [] {
      var n := |nodes| - 1;
      RunRecords(c, nodes[..n]);
      var before := Run(c, nodes[..n]);
      assert ExecutableIds(nodes[..n]) + [] == ExecutableIds(nodes[..n]);
      if nodes[n].state == Executable {
        var record := Record(nodes[n].id, Step(c, nodes[n].id, before.resultByNode));
        ResultAppended(before.records, record);
      }
    }
  }

  lemma ResultAppended(records: seq<Record>, r: Record)
    ensures CompletedResults(records + [r])
      == if r.outcome.Ok? then CompletedResults(records) + [r.outcome.value] else CompletedResults(records)
  {
    assert (records + [r])[..|records|] == records;
    assert CompletedResults(records) + [] == CompletedResults(records);
  }

  /**
   * After a prefix of the plan: the records of the reference semantics, and a result for exactly the nodes that denote
   * one.
   */
  ghost predicate After(c: Context, executable: set<NodeId>, nodes: seq<PlanNode>, s: RunState) {
    && s.records == Records(c, executable, ExecutableIds(nodes))
    && s.results == CompletedResults(s.records)
    && (forall id :: id in s.resultByNode <==> id in ExecutableSet(nodes) && Denote(c, executable, id).Some?)
    && (forall id :: id in s.resultByNode ==> Denote(c, executable, id) == Some(s.resultByNode[id]))
  }

  /** Over a topologically ordered plan the pass computes the reference semantics. */
  lemma RunDenotes(c: Context, nodes: seq<PlanNode>)
    requires Topological(nodes)
    ensures After(c, ExecutableSet(nodes), nodes, Run(c, nodes))
  {
    hide After, Run;
    RunPrefix(c, nodes, |nodes|);
    assert nodes[..|nodes|] == nodes;
  }

  lemma {:induction false} RunPrefix(c: Context, nodes: seq<PlanNode>, i: nat)
    requires Topological(nodes) && i <= |nodes|
    ensures After(c, ExecutableSet(nodes), nodes[..i], Run(c, nodes[..i]))
  {
    if i == 0 {
      NothingRun(c, ExecutableSet(nodes));
      assert nodes[..0] == [];
    } else {
      hide Run, Topological, After, Advance, ExecutableSet, ExecutableIds;
      var n := i - 1;
      RunPrefix(c, nodes, n);
      PrefixStep(nodes, n);
      RunStep(c, nodes, n);
      if nodes[n].state == Executable {
        AdvanceDenotes(c, nodes, n, Run(c, nodes[..n]));
      } else {
        AfterSame(c, ExecutableSet(nodes), nodes[..n], nodes[..i], Run(c, nodes[..n]));
      }
    }
  }

  lemma RunStep(c: Context, nodes: seq<PlanNode>, n: nat)
    requires n < |nodes|
    ensures Run(c, nodes[..n + 1])
      == if nodes[n].state == Executable then Advance(c, Run(c, nodes[..n]), nodes[n].id) else Run(c, nodes[..n])
  {
    hide Advance;
    assert nodes[..n + 1][..n] == nodes[..n];
  }

  lemma NothingRun(c: Context, executable: set<NodeId>)
    ensures After(c, executable, [], Run(c, []))
  {}

  lemma AfterSame(c: Context, executable: set<NodeId>, nodes: seq<PlanNode>, more: seq<PlanNode>, s: RunState)
    requires After(c, executable, nodes, s)
    requires ExecutableIds(more) == ExecutableIds(nodes) && ExecutableSet(more) == ExecutableSet(nodes)
    ensures After(c, executable, more, s)
  {
    hide Denote, Records, ExecutableSet;
  }

  lemma AdvanceDenotes(c: Context, nodes: seq<PlanNode>, i: nat, s: RunState)
    requires Topological(nodes) && i < |nodes| && nodes[i].state == Executable
    requires After(c, ExecutableSet(nodes), nodes[..i], s)
    ensures After(c, ExecutableSet(nodes), nodes[..i + 1], Advance(c, s, nodes[i].id))
  {
    hide Step, Denote, DenoteAll, Topological, AgreeOn, Advance, Records, CompletedResults, ExecutableIds,
         ExecutableSet;
    var id, executable := nodes[i].id, ExecutableSet(nodes);
    PrefixStep(nodes, i);
    ResultsAgree(c, nodes, i, s.resultByNode);
    StepReadsDependencies(c, id, s.resultByNode, DenoteAll(c, executable, id.deps));
    AfterGrows(c, executable, nodes[..i], nodes[..i + 1], id, s);
  }

  lemma AfterGrows(c: Context, executable: set<NodeId>, nodes: seq<PlanNode>, more: seq<PlanNode>, id: NodeId,
                   s: RunState)
    requires After(c, executable, nodes, s) && id in executable
    requires ExecutableIds(more) == ExecutableIds(nodes) + [id] && ExecutableSet(more) == ExecutableSet(nodes) + {id}
    requires Step(c, id, s.resultByNode) == Step(c, id, DenoteAll(c, executable, id.deps))
    ensures After(c, executable, more, Advance(c, s, id))
  {
    hide Step, Denote, DenoteAll, Records, CompletedResults, ExecutableIds, ExecutableSet;
    DenoteIsStep(c, executable, id);
    ResultAppended(s.records, Record(id, Step(c, id, s.resultByNode)));
    RecordAppended(c, executable, ExecutableIds(nodes), id);
  }

  lemma {:induction false} RecordAppended(c: Context, executable: set<NodeId>, ids: seq<NodeId>, id: NodeId)
    ensures Records(c, executable, ids + [id]) == Records(c, executable, ids) + [RecordFor(c, executable, id)]
  {
    hide RecordFor;
    assert (ids + [id])[..|ids|] == ids;
  }

  lemma PrefixStep(nodes: seq<PlanNode>, i: nat)
    requires i < |nodes|
    ensures var ids := ExecutableIds(nodes[..i]);
            ExecutableIds(nodes[..i + 1]) == if nodes[i].state == Executable then ids + [nodes[i].id] else ids
    ensures ExecutableSet(nodes[..i + 1])
      == ExecutableSet(nodes[..i]) + (if nodes[i].state == Executable then {nodes[i].id} else {})
    ensures nodes[i].state == Executable ==> nodes[i].id in ExecutableSet(nodes)
  {
    assert nodes[..i + 1][..i] == nodes[..i];
    assert nodes[..i + 1] == nodes[..i] + [nodes[i]];
    assert nodes[i] in nodes;
    assert ExecutableIds(nodes[..i]) + [] == ExecutableIds(nodes[..i]);
  }

  lemma DenoteIsStep(c: Context, executable: set<NodeId>, id: NodeId)
    requires id in executable
    ensures var outcome := Step(c, id, DenoteAll(c, executable, id.deps));
            Denote(c, executable, id) == if outcome.Ok? then Some(outcome.value) else None
  {
    hide Step;
  }

  /** When node i is reached, the result map already holds exactly what its dependencies denote. */
  lemma ResultsAgree(c: Context, nodes: seq<PlanNode>, i: nat, results: map<NodeId, MetricResult>)
    requires Topological(nodes) && i < |nodes|
    requires forall id :: id in results <==>
      id in ExecutableSet(nodes[..i]) && Denote(c, ExecutableSet(nodes), id).Some?
    requires forall id :: id in results ==> Denote(c, ExecutableSet(nodes), id) == Some(results[id])
    ensures AgreeOn(nodes[i].id.deps, results, DenoteAll(c, ExecutableSet(nodes), nodes[i].id.deps))
  {
    hide Step, DenoteAll, Denote;
    var executable := ExecutableSet(nodes);
    DenoteAllAt(c, executable, nodes[i].id.deps);
    forall d | d in nodes[i].id.deps && Denote(c, executable, d).Some? ensures d in ExecutableSet(nodes[..i]) {
      assert d in executable by { OnlyExecutableDenotes(c, executable, d); }
      DependencyRanEarlier(nodes, i, d);
    }
  }

  lemma {:induction false} OnlyExecutableDenotes(c: Context, executable: set<NodeId>, id: NodeId)
    requires Denote(c, executable, id).Some?
    ensures id in executable
  {
    hide Step, DenoteAll;
  }

  lemma {:induction false} DependencyRanEarlier(nodes: seq<PlanNode>, i: nat, d: NodeId)
    requires Topological(nodes) && i < |nodes| && d in nodes[i].id.deps && d in ExecutableSet(nodes)
    ensures d in ExecutableSet(nodes[..i])
  {
    var j :| 0 <= j < i && nodes[j].id == d;
    var n :| n in nodes && n.state == Executable && n.id == d;
    var k :| 0 <= k < |nodes| && nodes[k] == n;
    assert nodes[..i][j] == nodes[j];
  }

  // ---- What execution guarantees ----

  /** AOV and Revenue Change complete only when every dependency completed. */
  lemma CompletionNeedsDependencies(c: Context, executable: set<NodeId>, id: NodeId)
    requires id.metric in {Aov, RevenueChange}
    ensures Denote(c, executable, id).Some? ==> forall d :: d in id.deps ==> Denote(c, executable, d).Some?
  {
    if Denote(c, executable, id).None? { return; }
    var results := DenoteAll(c, executable, id.deps);
    DenoteAllAt(c, executable, id.deps);
    if id.metric == Aov { ByMetricNeeds(id.deps, results); }
    else { ByRoleNeeds(c, id.deps, results); }
  }

  lemma {:induction false} ByMetricNeeds(deps: seq<NodeId>, results: map<NodeId, MetricResult>)
    requires ByMetric(deps, results).Some?
    ensures forall d :: d in deps ==> d in results
  {
    if deps != [] {
      var n := |deps| - 1;
      ByMetricNeeds(deps[..n], results);
      assert forall d :: d in deps <==> d in deps[..n] || d == deps[n];
    }
  }

  lemma {:induction false} ByRoleNeeds(c: Context, deps: seq<NodeId>, results: map<NodeId, MetricResult>)
    requires ByRole(c, deps, results).Ok?
    ensures forall d :: d in deps ==> d in results
  {
    if deps != [] {
      var n := |deps| - 1;
      ByRoleNeeds(c, deps[..n], results);
      assert forall d :: d in deps <==> d in deps[..n] || d == deps[n];
    }
  }

  /** Two contexts that differ only in what the outside answers for one node. */
  ghost predicate DifferOnlyAt(a: Context, b: Context, f: NodeId) {
    a.populations == b.populations && a.exponent == b.exponent && forall id :: id != f ==>
      a.foreign(id) == b.foreign(id)
  }

  /** A change at one node changes no denotation but those of nodes that transitively depend on it. */
  lemma {:induction false} DenotationIsolated(a: Context, b: Context, executable: set<NodeId>, f: NodeId, id: NodeId)
    requires DifferOnlyAt(a, b, f) && f !in Reach(id)
    ensures Denote(a, executable, id) == Denote(b, executable, id)
    ensures RecordFor(a, executable, id) == RecordFor(b, executable, id)
    decreases id, 1
  {
    DenotationsIsolated(a, b, executable, f, id.deps);
    SameStep(a, b, id, DenoteAll(a, executable, id.deps));
    hide Step;
  }

  lemma {:induction false} DenotationsIsolated(a: Context, b: Context, executable: set<NodeId>, f: NodeId,
                                               ids: seq<NodeId>)
    requires DifferOnlyAt(a, b, f) && f !in ReachAll(ids)
    ensures DenoteAll(a, executable, ids) == DenoteAll(b, executable, ids)
    decreases ids, 0
  {
    hide Step;
    if ids != [] {
      var n := |ids| - 1;
      DenotationsIsolated(a, b, executable, f, ids[..n]);
      DenotationIsolated(a, b, executable, f, ids[n]);
    }
  }

  /**
   * Two runs that differ in one node's answers, a failure in particular: every other record is the same, failure
   * details included.
   */
  lemma FailureIsolation(a: Context, b: Context, nodes: seq<PlanNode>, f: NodeId)
    requires Topological(nodes) && DifferOnlyAt(a, b, f)
    ensures |Run(a, nodes).records| == |Run(b, nodes).records|
    ensures forall k :: 0 <= k < |Run(a, nodes).records| && f !in Reach(Run(a, nodes).records[k].node) ==>
      Run(a, nodes).records[k] == Run(b, nodes).records[k]
  {
    hide Denote, DenoteAll, Step, Topological, Run, Reach, DifferOnlyAt, ExecutableSet;
    var ids, executable := ExecutableIds(nodes), ExecutableSet(nodes);
    RunDenotes(a, nodes);
    RunDenotes(b, nodes);
    RecordsAre(a, executable, ids);
    RecordsAre(b, executable, ids);
    forall k | 0 <= k < |ids| && f !in Reach(ids[k])
      ensures RecordFor(a, executable, ids[k]) == RecordFor(b, executable, ids[k])
    {
      DenotationIsolated(a, b, executable, f, ids[k]);
    }
  }

  lemma {:induction false} SameStep(a: Context, b: Context, id: NodeId, results: map<NodeId, MetricResult>)
    requires a.populations == b.populations && a.exponent == b.exponent && a.foreign(id) == b.foreign(id)
    ensures Step(a, id, results) == Step(b, id, results)
  {
    hide ByMetric, Quotient, Subtract, ByRole;
    SameRoles(a, b, id.deps, results);
  }

  lemma {:induction false} SameRoles(a: Context, b: Context, deps: seq<NodeId>, results: map<NodeId, MetricResult>)
    requires a.populations == b.populations
    ensures ByRole(a, deps, results) == ByRole(b, deps, results)
  {
    if deps != [] { SameRoles(a, b, deps[..|deps| - 1], results); }
  }

  lemma {:induction false} RecordsAre(c: Context, executable: set<NodeId>, ids: seq<NodeId>)
    ensures |Records(c, executable, ids)| == |ids|
    ensures forall k :: 0 <= k < |ids| ==> Records(c, executable, ids)[k] == RecordFor(c, executable, ids[k])
  {
    hide Step, DenoteAll;
    if ids != [] {
      var n := |ids| - 1;
      RecordsAre(c, executable, ids[..n]);
      assert forall k :: 0 <= k < n ==> ids[..n][k] == ids[k];
    }
  }
}
