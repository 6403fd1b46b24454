/** From planning to execution: what each node of a plan built over the approved registry does when it runs. */
module GovernedExecution {
  import opened Common
  import opened PlanModel
  import opened PlanBuilder
  import opened PlanValidation
  import opened ExecutionPlanning
  import opened PlanSelfCheck
  import opened PlanContents
  import opened PlanOrder
  import opened ApprovedRegistry
  import opened PlanExecution
  import opened ExecutionGuarantees
  import opened ExecutionRecords

  /** What the approved registry says about the executable metrics. */
  ghost predicate Standard(registry: Registry, rank: MetricId -> nat) {
    && Governed(registry, rank)
    && (forall m :: m in {Revenue, Orders, Aov} ==>
         m in registry.definitions && registry.definitions[m].period == SinglePeriod)
    && registry.definitions[Aov].dependencies == [On(Revenue, SameAsParent, Whole), On(Orders, SameAsParent, Whole)]
    && RevenueChange in registry.definitions && registry.definitions[RevenueChange].period == BaselineAndComparison
    && registry.definitions[RevenueChange].dependencies
         == [On(Revenue, AtBaseline, Whole), On(Revenue, AtComparison, Whole)]
    && (forall m, g :: m in {Aov, RevenueChange} && GroupingError(registry.definitions[m], g).None? ==> g == Whole)
  }

  lemma ApprovedStandard()
    ensures Standard(Approved(), Rank)
  {
    ApprovedQualifies();
    hide Governed, Approved, ApprovedIds;
    forall m | m in {Revenue, Orders, Aov, RevenueChange}
      ensures m in Approved().definitions && Approved().definitions[m] == Define(m)
    {
      DefinedAs(m);
    }
  }

  lemma DefinedAs(m: MetricId)
    requires m in {Revenue, Orders, Aov, RevenueChange}
    ensures m in Approved().definitions && Approved().definitions[m] == Define(m)
  {}

  /** A plan over such a registry, and a context that holds its populations. */
  ghost predicate Planned(registry: Registry, rank: MetricId -> nat, request: AnalysisRequest,
                          sufficiency: SufficiencyResult, plan: Plan, c: Context) {
    && Standard(registry, rank)
    && Built(registry, rank, request, sufficiency, plan)
    && c.populations == PopulationById(plan.populations)
  }

  /** Executable dependencies: an executable node only has such. */
  lemma DependencyExecutable(registry: Registry, rank: MetricId -> nat, request: AnalysisRequest,
                             sufficiency: SufficiencyResult, plan: Plan, i: nat, d: NodeId)
    requires Standard(registry, rank) && Built(registry, rank, request, sufficiency, plan)
    requires i < |plan.nodes| && plan.nodes[i].state == Executable && d in plan.nodes[i].id.deps
    ensures d in ExecutableSet(plan.nodes) && plan.nodes[i].id in ExecutableSet(plan.nodes)
  {
    hide Built;
    BuiltTopological(registry, rank, request, sufficiency, plan);
    StateHolds(registry, rank, request, sufficiency, plan, i);
    assert plan.nodes[i] in plan.nodes;
    var j := DependencyIsNode(plan.nodes, i, d);
    assert plan.nodes[j] in plan.nodes;
  }

  /** The identity of a planned ungrouped single-period node has one governed population. */
  lemma OnePopulation(id: NodeId, role: Role, baseline: string, comparison: string, c: Context)
    requires c.populations == PopulationById(Populations(baseline, comparison))
    requires id.grouping == Whole && id.populationRefs == RefsAt(true, Some(role), Whole, baseline, comparison)
    ensures SinglePopulation(c, id)
      == Some(PopulationOf(role, Whole, if role == Baseline then baseline else comparison))
  {
    PopulationLookup(baseline, comparison);
    RefsKnown(true, Some(role), Whole, baseline, comparison);
    assert id.populationRefs[0] in RefsAt(true, Some(role), Whole, baseline, comparison);
  }

  lemma {:induction false} AovChildren(registry: Registry, rank: MetricId -> nat, key: Key)
    requires Standard(registry, rank) && key.metric == Aov
    requires forall k :: k in Children(registry, rank, key) ==> k.Ok?
    ensures key.role.Some?
    ensures Children(registry, rank, key) == [Ok(Key(Revenue, key.role, Whole)), Ok(Key(Orders, key.role, Whole))]
  {
    var deps := [On(Revenue, SameAsParent, Whole), On(Orders, SameAsParent, Whole)];
    UnfilteredDependencies(deps, key.grouping);
    SamePeriodChildren(registry, deps, key.role, Ok(Whole));
    var children := Children(registry, rank, key);
    assert children[0] in children && children[1] in children;
  }

  /** Any planned Revenue, Orders or AOV node of a role and no grouping stands on that role's population. */
  lemma StandsOn(registry: Registry, rank: MetricId -> nat, request: AnalysisRequest, sufficiency: SufficiencyResult,
                 plan: Plan, c: Context, i: nat, role: Role)
    requires Planned(registry, rank, request, sufficiency, plan, c) && i < |plan.nodes|
    requires var id := plan.nodes[i].id;
      id.metric in {Revenue, Orders, Aov} && id.role == Some(role) && id.grouping == Whole
    ensures SinglePopulation(c, plan.nodes[i].id)
         == Some(PopulationOf(role, Whole,
                              if role == Baseline then request.baselinePeriod else request.comparisonPeriod))
  {
    BuiltPopulations(registry, rank, request, sufficiency, plan);
    hide Built, SinglePopulation, Governed, DependencyFacts, Populations;
    NodeFactsHold(registry, rank, request, sufficiency, plan, i);
    OnePopulation(plan.nodes[i].id, role, request.baselinePeriod, request.comparisonPeriod, c);
  }

  /** A dependency identity of a node is an earlier node, with the key of the corresponding child. */
  lemma DependencyKey(registry: Registry, rank: MetricId -> nat, request: AnalysisRequest,
                      sufficiency: SufficiencyResult, plan: Plan, i: nat, k: nat)
    returns (j: nat)
    requires Governed(registry, rank) && Built(registry, rank, request, sufficiency, plan) && i < |plan.nodes|
    requires k < |plan.nodes[i].id.deps|
    ensures j < |plan.nodes| && plan.nodes[j].id == plan.nodes[i].id.deps[k]
    ensures plan.nodes[i].metric == plan.nodes[i].id.metric && plan.nodes[i].metric in registry.definitions
    ensures var children := Children(registry, rank, KeyOf(plan.nodes[i].id));
      k < |children| && children[k] == Ok(KeyOf(plan.nodes[j].id))
  {
    hide Built, Children;
    NodeFactsHold(registry, rank, request, sufficiency, plan, i);
    BuiltTopological(registry, rank, request, sufficiency, plan);
    j := DependencyIsNode(plan.nodes, i, plan.nodes[i].id.deps[k]);
  }

  /** An AOV node depends on Revenue and Orders of its own period, over its own population. */
  lemma AovPlanned(registry: Registry, rank: MetricId -> nat, request: AnalysisRequest, sufficiency: SufficiencyResult,
                   plan: Plan, c: Context, i: nat)
    requires Planned(registry, rank, request, sufficiency, plan, c) && i < |plan.nodes| && plan.nodes[i].metric == Aov
    ensures var id := plan.nodes[i].id;
      |id.deps| == 2 && AovShape(c, id, id.deps[0], id.deps[1])
  {
    hide Built, AovGoverned, RevenueChangeGoverned, SinglePopulation, Children;
    var id := plan.nodes[i].id;
    NodeFactsHold(registry, rank, request, sufficiency, plan, i);
    AovChildren(registry, rank, KeyOf(id));
    StandsOn(registry, rank, request, sufficiency, plan, c, i, id.role.value);
    var j := DependencyKey(registry, rank, request, sufficiency, plan, i, 0);
    var k := DependencyKey(registry, rank, request, sufficiency, plan, i, 1);
    StandsOn(registry, rank, request, sufficiency, plan, c, j, id.role.value);
    StandsOn(registry, rank, request, sufficiency, plan, c, k, id.role.value);
    assert id.deps == [id.deps[0], id.deps[1]];
  }

  lemma {:induction false} ChangeChildren(registry: Registry, rank: MetricId -> nat, key: Key)
    requires Standard(registry, rank) && key.metric == RevenueChange
    ensures Children(registry, rank, key)
      == [Ok(Key(Revenue, Some(Baseline), Whole)), Ok(Key(Revenue, Some(Comparison), Whole))]
  {
    hide Children;
    RevenueChangeChildren(registry, rank, key);
  }

  /** A Revenue Change node depends on the Revenue of the baseline and of the comparison. */
  lemma ChangePlanned(registry: Registry, rank: MetricId -> nat, request: AnalysisRequest,
                      sufficiency: SufficiencyResult, plan: Plan, c: Context, i: nat)
    requires Planned(registry, rank, request, sufficiency, plan, c) && i < |plan.nodes|
    requires plan.nodes[i].metric == RevenueChange
    ensures var id := plan.nodes[i].id;
      |id.deps| == 2 && ChangeShape(c, id, id.deps[0], id.deps[1])
  {
    hide Built, AovGoverned, RevenueChangeGoverned, SinglePopulation, PopulationPair, Children;
    var id := plan.nodes[i].id;
    NodeFactsHold(registry, rank, request, sufficiency, plan, i);
    ChangeChildren(registry, rank, KeyOf(id));
    var j := DependencyKey(registry, rank, request, sufficiency, plan, i, 0);
    var k := DependencyKey(registry, rank, request, sufficiency, plan, i, 1);
    StandsOn(registry, rank, request, sufficiency, plan, c, j, Baseline);
    StandsOn(registry, rank, request, sufficiency, plan, c, k, Comparison);
    BuiltPopulations(registry, rank, request, sufficiency, plan);
    ChangePair(id, request.baselinePeriod, request.comparisonPeriod, c);
    assert id.deps == [id.deps[0], id.deps[1]];
  }

  lemma ChangePair(id: NodeId, baseline: string, comparison: string, c: Context)
    requires c.populations == PopulationById(Populations(baseline, comparison))
    requires id.grouping == Whole && id.populationRefs == RefsAt(false, id.role, Whole, baseline, comparison)
    requires id.periodRefs == Periods(id.populationRefs)
    ensures PopulationPair(c, id)
      == Some((PopulationOf(Baseline, Whole, baseline), PopulationOf(Comparison, Whole, comparison)))
  {
    PopulationLookup(baseline, comparison);
    RefsKnown(false, id.role, Whole, baseline, comparison);
    var refs := RefsAt(false, id.role, Whole, baseline, comparison);
    assert id.populationRefs[0] in refs && id.populationRefs[1] in refs;
  }

  /**
   * In a governed plan an executable AOV completes exactly when nothing outside fails for it, its Revenue and its
   * Orders.
   */
  lemma AovCompletes(registry: Registry, rank: MetricId -> nat, request: AnalysisRequest,
                     sufficiency: SufficiencyResult, plan: Plan, c: Context, i: nat)
    requires Planned(registry, rank, request, sufficiency, plan, c) && i < |plan.nodes|
    requires plan.nodes[i].metric == Aov && plan.nodes[i].state == Executable
    ensures var id := plan.nodes[i].id;
      |id.deps| == 2
      && (Denote(c, ExecutableSet(plan.nodes), id).Some? <==>
            c.foreign(id).sound && c.foreign(id.deps[0]).sound && c.foreign(id.deps[1]).sound)
  {
    AovPlanned(registry, rank, request, sufficiency, plan, c, i);
    hide Built, Standard, AovShape, Denote, ExecutableSet;
    var id := plan.nodes[i].id;
    DependencyExecutable(registry, rank, request, sufficiency, plan, i, id.deps[0]);
    DependencyExecutable(registry, rank, request, sufficiency, plan, i, id.deps[1]);
    AovCompletesExactly(c, ExecutableSet(plan.nodes), id, id.deps[0], id.deps[1]);
  }

  /** An executable Revenue Change also needs the two Revenues in one currency. */
  lemma ChangeCompletes(registry: Registry, rank: MetricId -> nat, request: AnalysisRequest,
                        sufficiency: SufficiencyResult, plan: Plan, c: Context, i: nat)
    requires Planned(registry, rank, request, sufficiency, plan, c) && i < |plan.nodes|
    requires plan.nodes[i].metric == RevenueChange && plan.nodes[i].state == Executable
    ensures var id := plan.nodes[i].id;
      |id.deps| == 2
      && (Denote(c, ExecutableSet(plan.nodes), id).Some? <==>
            && c.foreign(id).sound && c.foreign(id.deps[0]).sound && c.foreign(id.deps[1]).sound
            && c.foreign(id.deps[0]).currency == c.foreign(id.deps[1]).currency)
  {
    ChangePlanned(registry, rank, request, sufficiency, plan, c, i);
    hide Built, Standard, ChangeShape, Denote, ExecutableSet;
    var id := plan.nodes[i].id;
    DependencyExecutable(registry, rank, request, sufficiency, plan, i, id.deps[0]);
    DependencyExecutable(registry, rank, request, sufficiency, plan, i, id.deps[1]);
    ChangeCompletesExactly(c, ExecutableSet(plan.nodes), id, id.deps[0], id.deps[1]);
  }

  /** Build a plan over the approved registry, then execute it. */
  method PlanAndExecute(request: AnalysisRequest, sufficiency: SufficiencyResult, exponent: int,
                        foreign: NodeId -> Foreign)
    returns (r: Result<(Plan, seq<Record>), PlanningError>)
    ensures r.Ok? <==>
      && Admissible(Approved(), request, sufficiency)
      && NoDuplicates(RequestedIds(request.metrics))
      && forall m :: m in RequestedIds(request.metrics) ==>
           m in Approved().definitions && Groupable(Approved().definitions[m], request.grouping)
    ensures r.Ok? ==>
      var (plan, records) := r.value;
      var c := Context(PopulationById(plan.populations), exponent, foreign);
      && Planned(Approved(), Rank, request, sufficiency, plan, c)
      && AsRequested(Approved(), request, sufficiency, plan) && InOrder(Approved(), request, plan)
      && records == Run(c, plan.nodes).records
      && |records| == |ExecutableIds(plan.nodes)|
      && (forall k :: 0 <= k < |records| ==>
           Explains(c, records[k].node, ResultsOf(records[..k]), records[k].outcome))
      && Faithful(c, plan.nodes, records)
  {
    hide Built, Standard, Admissible, Run, Faithful, Approved, Rank, Governed, Closed, Ranked;
    ApprovedRanked();
    ApprovedStandard();
    ApprovedQualifies();
    var plan := BuildGovernedPlan(Approved(), Rank, request, sufficiency);
    if plan.Err? { return Err(plan.error); }
    BuiltTopological(Approved(), Rank, request, sufficiency, plan.value);
    var records, results :=
      ExecutePlan(Context(PopulationById(plan.value.populations), exponent, foreign), plan.value.nodes);
    return Ok((plan.value, records));
  }
}
