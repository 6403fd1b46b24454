/** The one approved metric registry, and why planning over it is total. */
module ApprovedRegistry {
  import opened Common
  import opened PlanModel
  import opened PlanBuilder
  import opened PlanCompilation
  import opened PlanValidation
  import opened ExecutionPlanning
  import opened PlanSelfCheck
  import opened PlanContents
  import opened PlanOrder

  const REGISTRY_VERSION := "metric_registry_mvp_v3"
  const DEFINITION_VERSION := "metric_dictionary_v1"

  function GroupingOf(entity: Entity): Grouping {
    if entity == Product then ByProduct else ByCategory
  }

  function On(metric: MetricId, role: DependencyRole, grouping: Grouping): Dependency {
    Dependency(metric, role, Some(grouping), [])
  }

  /** Contributor rankings depend on the contribution of the requested entity only. */
  function Ranking(): Definition {
    Definition(DEFINITION_VERSION,
               [Dependency(Of(Product, AbsoluteContribution), NoPeriod, Some(ByProduct), [ByProduct]),
                Dependency(Of(Category, AbsoluteContribution), NoPeriod, Some(ByCategory), [ByCategory])],
               None, [ByProduct, ByCategory], BaselineAndComparison)
  }

  function Scalar(dependencies: seq<Dependency>, grouping: Grouping, period: PeriodRequirement): Definition {
    Definition(DEFINITION_VERSION, dependencies, Some(grouping), [], period)
  }

  function Define(m: MetricId): Definition {
    match m
    case Aov => Scalar([On(Revenue, SameAsParent, Whole), On(Orders, SameAsParent, Whole)], Whole, SinglePeriod)
    case RevenueChange =>
      Scalar([On(Revenue, AtBaseline, Whole), On(Revenue, AtComparison, Whole)], Whole, BaselineAndComparison)
    case RevenueChangePct =>
      Scalar([On(Revenue, AtBaseline, Whole), On(Revenue, AtComparison, Whole)], Whole, BaselineAndComparison)
    case LeadingPositive => Ranking()
    case LeadingNegative => Ranking()
    case Of(e, measure) =>
      var g := GroupingOf(e);
      (match measure
       case EntityRevenue => Scalar([On(Revenue, SameAsParent, Whole)], g, SinglePeriod)
       case EntityOrders => Scalar([On(Orders, SameAsParent, Whole)], g, SinglePeriod)
       case EntityRevenueChange =>
         Scalar([On(Of(e, EntityRevenue), AtBaseline, g), On(Of(e, EntityRevenue), AtComparison, g)], g,
                BaselineAndComparison)
       case EntityRevenueChangePct =>
         Scalar([On(Of(e, EntityRevenue), AtBaseline, g), On(Of(e, EntityRevenue), AtComparison, g)], g,
                BaselineAndComparison)
       case AbsoluteContribution =>
         Scalar([On(Of(e, EntityRevenueChange), NoPeriod, g), On(RevenueChange, NoPeriod, Whole)], g,
                BaselineAndComparison)
       case ContributionShare =>
         Scalar([On(Of(e, AbsoluteContribution), NoPeriod, g), On(RevenueChange, NoPeriod, Whole)], g,
                BaselineAndComparison))
    case _ => Scalar([], Whole, SinglePeriod)
  }

  function Measures(entity: Entity): set<MetricId> {
    {Of(entity, EntityRevenue), Of(entity, EntityOrders), Of(entity, EntityRevenueChange),
     Of(entity, EntityRevenueChangePct),
     Of(entity, AbsoluteContribution), Of(entity, ContributionShare)}
  }

  function ApprovedIds(): set<MetricId> {
    {Revenue, Orders, Aov, RevenueChange, RevenueChangePct, LeadingPositive, LeadingNegative} + Measures(Product)
      + Measures(Category)
  }

  function Approved(): Registry {
    Registry(REGISTRY_VERSION, map m | m in ApprovedIds() :: Define(m))
  }

  function Rank(m: MetricId): nat {
    match m
    case Aov => 1
    case RevenueChange => 1
    case RevenueChangePct => 1
    case LeadingPositive => 4
    case LeadingNegative => 4
    case Of(_, measure) =>
      (match measure
       case EntityRevenue => 1
       case EntityOrders => 1
       case EntityRevenueChange => 2
       case EntityRevenueChangePct => 2
       case AbsoluteContribution => 3
       case ContributionShare => 4)
    case _ => 0
  }

  // ---- Registries over which compilation cannot fail below a root ----

  /** Dependencies name a supported grouping, and a period role exactly where one exists. */
  ghost predicate Closed(registry: Registry) {
    forall m, d | m in registry.definitions && d in registry.definitions[m].dependencies ::
      && d.metric in registry.definitions
      && DependencyGrouping(d, registry).Ok?
      && GroupingError(registry.definitions[d.metric], DependencyGrouping(d, registry).value).None?
      && (d.role == SameAsParent ==> registry.definitions[m].period == SinglePeriod)
      && (d.role == NoPeriod ==> registry.definitions[d.metric].period == BaselineAndComparison)
  }

  /** Keys the planner may meet: supported grouping, and a role for single-period metrics. */
  ghost predicate KeyFits(registry: Registry, key: Key) {
    && key.metric in registry.definitions
    && GroupingError(registry.definitions[key.metric], key.grouping).None?
    && (registry.definitions[key.metric].period == SinglePeriod ==> key.role.Some?)
  }

  lemma {:induction false} ChildrenFit(registry: Registry, m: MetricId, dependencies: seq<Dependency>,
                                       parent: Option<Role>)
    requires Closed(registry) && m in registry.definitions
    requires forall d :: d in dependencies ==> d in registry.definitions[m].dependencies
    requires registry.definitions[m].period == SinglePeriod ==> parent.Some?
    ensures forall c :: c in ChildrenOf(registry, dependencies, parent) ==> c.Ok? && KeyFits(registry, c.value)
  {
    if dependencies != [] {
      var d := dependencies[0];
      ChildrenFit(registry, m, dependencies[1..], parent);
      assert d in registry.definitions[m].dependencies;
      KeysFit(registry, d.metric, DependencyRoles(d, parent).value, DependencyGrouping(d, registry));
    }
  }

  lemma {:induction false} KeysFit(registry: Registry, metric: MetricId, roles: seq<Option<Role>>,
                                   grouping: Result<Grouping, PlanningError>)
    requires metric in registry.definitions && grouping.Ok?
    requires GroupingError(registry.definitions[metric], grouping.value).None?
    requires registry.definitions[metric].period == SinglePeriod ==> forall r :: r in roles ==> r.Some?
    ensures forall c :: c in KeysOf(metric, roles, grouping) ==> c.Ok? && KeyFits(registry, c.value)
  {
    if roles != [] { KeysFit(registry, metric, roles[1..], grouping); }
  }

  lemma {:induction false} FittingKeyCompiles(registry: Registry, rank: MetricId -> nat, populations: seq<Population>,
                                              key: Key)
    requires Ranked(registry, rank) && Closed(registry) && KeyFits(registry, key)
    ensures Compile(registry, rank, populations, key).Ok?
    decreases rank(key.metric), 1, 0
  {
    var definition := registry.definitions[key.metric];
    ChildrenFit(registry, key.metric, EffectiveDependencies(definition.dependencies, key.grouping), key.role);
    FittingKeysCompile(registry, rank, populations, Children(registry, rank, key), rank(key.metric));
  }

  lemma {:induction false} FittingKeysCompile(registry: Registry, rank: MetricId -> nat, populations: seq<Population>,
                                              children: seq<Result<Key, PlanningError>>, bound: nat)
    requires Ranked(registry, rank) && Closed(registry) && Below(children, registry, rank, bound)
    requires forall c :: c in children ==> c.Ok? && KeyFits(registry, c.value)
    ensures CompileAll(registry, rank, populations, children, bound).Ok?
    decreases bound, 0, |children|
  {
    if children != [] {
      var n := |children| - 1;
      FittingKeysCompile(registry, rank, populations, children[..n], bound);
      FittingKeyCompiles(registry, rank, populations, children[n].value);
    }
  }

  /** The metric supports the requested grouping, or supports none and requires one. */
  predicate Groupable(definition: Definition, requested: Grouping) {
    if definition.supportedGroupings != [] then requested in definition.supportedGroupings
    else definition.groupingRequirement.Some?
  }

  /** Over a closed registry the only thing that can stop construction is an unsupported requested grouping. */
  lemma ConstructibleExactly(registry: Registry, rank: MetricId -> nat, request: AnalysisRequest)
    requires Ranked(registry, rank) && Closed(registry)
    requires forall m :: m in RequestedIds(request.metrics) ==> m in registry.definitions
    ensures Constructible(registry, rank, request) <==>
      forall m :: m in RequestedIds(request.metrics) ==>
        Groupable(registry.definitions[m], request.grouping)
  {
    var populations := Populations(request.baselinePeriod, request.comparisonPeriod);
    forall m | m in RequestedIds(request.metrics)
      ensures RootsCompile(registry, rank, populations, m, request.grouping) <==>
        Groupable(registry.definitions[m], request.grouping)
    {
      var roots := RootKeys(registry, m, request.grouping);
      if roots.Ok? {
        forall k | k in roots.value ensures Compile(registry, rank, populations, k).Ok? {
          FittingKeyCompiles(registry, rank, populations, k);
        }
      }
    }
  }

  /** One dependency of one approved metric. */
  lemma ApprovedDependency(m: MetricId, d: Dependency)
    requires m in ApprovedIds() && d in Define(m).dependencies
    ensures d.metric in ApprovedIds() && Rank(d.metric) < Rank(m)
    ensures d.grouping.Some? && GroupingError(Define(d.metric), d.grouping.value).None?
    ensures d.role == SameAsParent ==> Define(m).period == SinglePeriod
    ensures d.role == NoPeriod ==> Define(d.metric).period == BaselineAndComparison
  {
    if m.Of? { EntityDependency(m.entity, m.measure, d); }
  }

  lemma EntityDependency(e: Entity, measure: Measure, d: Dependency)
    requires d in Define(Of(e, measure)).dependencies
    ensures d.metric in ApprovedIds() && Rank(d.metric) < Rank(Of(e, measure))
    ensures d.grouping.Some? && GroupingError(Define(d.metric), d.grouping.value).None?
    ensures d.role == SameAsParent ==> Define(Of(e, measure)).period == SinglePeriod
    ensures d.role == NoPeriod ==> Define(d.metric).period == BaselineAndComparison
  {
    hide ApprovedIds;
    EntityNames(e, measure, d);
    EntityApproved(e, d.metric);
    EntityGrouping(e, measure, d);
    EntityPeriods(e, measure, d);
    hide Define, GroupingError;
    assert Rank(d.metric) < Rank(Of(e, measure)) by { EntityRank(e, measure, d); }
  }

  lemma EntityRank(e: Entity, measure: Measure, d: Dependency)
    requires d in Define(Of(e, measure)).dependencies
    ensures Rank(d.metric) < Rank(Of(e, measure))
  {}

  lemma EntityGrouping(e: Entity, measure: Measure, d: Dependency)
    requires d in Define(Of(e, measure)).dependencies
    ensures d.grouping.Some? && GroupingError(Define(d.metric), d.grouping.value).None?
  {
    EntityNames(e, measure, d);
    hide Define, GroupingError;
    if d.metric.Of? {
      EntitySupported(e, d.metric.measure);
      assert d.metric == Of(e, d.metric.measure);
    } else {
      TotalsSupported();
    }
  }

  /** A dependency of an entity metric names an ungrouped metric, or another metric of the entity at its grouping. */
  lemma EntityNames(e: Entity, measure: Measure, d: Dependency)
    requires d in Define(Of(e, measure)).dependencies
    ensures d.grouping == Some(if d.metric.Of? then GroupingOf(e) else Whole)
    ensures if d.metric.Of? then d.metric.entity == e else d.metric in {Revenue, Orders, RevenueChange}
  {}

  lemma EntitySupported(e: Entity, measure: Measure)
    ensures GroupingError(Define(Of(e, measure)), GroupingOf(e)).None?
  {}

  lemma TotalsSupported()
    ensures GroupingError(Define(Revenue), Whole).None? && GroupingError(Define(Orders), Whole).None?
    ensures GroupingError(Define(RevenueChange), Whole).None?
  {}

  lemma EntityPeriods(e: Entity, measure: Measure, d: Dependency)
    requires d in Define(Of(e, measure)).dependencies
    ensures d.role == SameAsParent ==> Define(Of(e, measure)).period == SinglePeriod
    ensures d.role == NoPeriod ==> Define(d.metric).period == BaselineAndComparison
  {
    match measure
    case EntityRevenue =>
    case EntityOrders =>
    case EntityRevenueChange =>
    case EntityRevenueChangePct =>
    case AbsoluteContribution => PeriodsOf(e);
    case ContributionShare => PeriodsOf(e);
  }

  lemma PeriodsOf(e: Entity)
    ensures Define(RevenueChange).period == BaselineAndComparison
    ensures Define(Of(e, EntityRevenueChange)).period == BaselineAndComparison
    ensures Define(Of(e, AbsoluteContribution)).period == BaselineAndComparison
  {}

  lemma EntityApproved(e: Entity, m: MetricId)
    requires m in {Revenue, Orders, RevenueChange} || (m.Of? && m.entity == e)
    ensures m in ApprovedIds()
  {
    if m.Of? {
      MeasureListed(e, m.measure);
      assert m == Of(e, m.measure);
    }
  }

  lemma MeasureListed(e: Entity, measure: Measure)
    ensures Of(e, measure) in Measures(e) && Measures(e) <= ApprovedIds()
  {}

  lemma ApprovedLookup(m: MetricId)
    ensures m in Approved().definitions <==> m in ApprovedIds()
    ensures m in ApprovedIds() ==> Approved().definitions[m] == Define(m)
  {
    hide Define;
  }

  lemma ApprovedPairs(m: MetricId, d: Dependency)
    requires m in Approved().definitions && d in Approved().definitions[m].dependencies
    ensures d.metric in Approved().definitions && Rank(d.metric) < Rank(m) && DependencyGrouping(d, Approved()).Ok?
    ensures GroupingError(Approved().definitions[d.metric], DependencyGrouping(d, Approved()).value).None?
    ensures d.role == SameAsParent ==> Approved().definitions[m].period == SinglePeriod
    ensures d.role == NoPeriod ==> Approved().definitions[d.metric].period == BaselineAndComparison
  {
    ApprovedLookup(m);
    ApprovedLookup(d.metric);
    ApprovedDependency(m, d);
    hide Approved, ApprovedIds, Define, Rank;
  }

  lemma ApprovedRanked()
    ensures Ranked(Approved(), Rank) && Closed(Approved())
  {
    hide Approved, Rank;
    forall m, d | m in Approved().definitions && d in Approved().definitions[m].dependencies
      ensures d.metric in Approved().definitions && Rank(d.metric) < Rank(m) && DependencyGrouping(d, Approved()).Ok?
      ensures GroupingError(Approved().definitions[d.metric], DependencyGrouping(d, Approved()).value).None?
      ensures d.role == SameAsParent ==> Approved().definitions[m].period == SinglePeriod
      ensures d.role == NoPeriod ==> Approved().definitions[d.metric].period == BaselineAndComparison
    {
      ApprovedPairs(m, d);
    }
  }

  /** The approved registry qualifies for everything proved about planning. */
  lemma ApprovedQualifies()
    ensures Governed(Approved(), Rank) && Closed(Approved())
  {
    ApprovedRanked();
    hide Approved, ApprovedIds, Rank, Closed, Ranked;
    forall m | m in {Revenue, Orders, Aov, RevenueChange}
      ensures m in Approved().definitions && Approved().definitions[m] == Define(m)
    {
      assert m in ApprovedIds() by { ScalarApproved(m); }
      ApprovedLookup(m);
    }
  }

  lemma ScalarApproved(m: MetricId)
    requires m in {Revenue, Orders, Aov, RevenueChange}
    ensures m in ApprovedIds()
  {}

  /** Planning succeeds exactly for admissible requests of distinct metrics at groupings they support. */
  method BuildGovernedPlan(registry: Registry, ghost rank: MetricId -> nat, request: AnalysisRequest,
                           sufficiency: SufficiencyResult)
    returns (r: Result<Plan, PlanningError>)
    requires Governed(registry, rank) && Closed(registry)
    ensures r.Ok? <==>
      && Admissible(registry, request, sufficiency)
      && NoDuplicates(RequestedIds(request.metrics))
      && forall m :: m in RequestedIds(request.metrics) ==>
           m in registry.definitions && Groupable(registry.definitions[m], request.grouping)
    ensures r.Ok? ==> Built(registry, rank, request, sufficiency, r.value) && Sound(r.value, registry)
    ensures r.Ok? ==> AsRequested(registry, request, sufficiency, r.value) && InOrder(registry, request, r.value)
  {
    r := BuildExecutionPlan(registry, rank, request, sufficiency);
    if forall m :: m in RequestedIds(request.metrics) ==> m in registry.definitions {
      ConstructibleExactly(registry, rank, request);
    }
    if r.Ok? {
      BuiltDescribed(registry, rank, request, sufficiency, r.value);
      BuiltInOrder(registry, rank, request, sufficiency, r.value);
    }
  }

  // ---- A request that passes every gate and still fails ----

  /** Revenue requested twice. */
  function RepeatedRequest(): AnalysisRequest {
    var revenue := MetricReference(Revenue, DEFINITION_VERSION);
    AnalysisRequest("request", REGISTRY_VERSION, "dataset", [revenue, revenue], Whole, "before", "after")
  }

  function RevenueSufficient(): SufficiencyResult {
    SufficiencyResult("request", "dataset", Some("canonical"), [MetricEligibility(Revenue, true, [])])
  }

  lemma RepeatedAdmissible()
    ensures Admissible(Approved(), RepeatedRequest(), RevenueSufficient())
    ensures !NoDuplicates(RequestedIds(RepeatedRequest().metrics))
    ensures forall m :: m in RequestedIds(RepeatedRequest().metrics) ==> m == Revenue
  {
    hide Approved, ApprovedIds, Rank;
    ScalarApproved(Revenue);
    ApprovedLookup(Revenue);
    var entries := RevenueSufficient().eligibility;
    assert entries[..0] == [] && EntriesFor([], Revenue) == [];
    assert EntriesFor(entries, Revenue) == entries;
    var ids := RequestedIds(RepeatedRequest().metrics);
    assert ids == [Revenue, Revenue] && ids[0] == ids[1];
  }

  /** Planning it constructs the whole plan, and then the closing self-check raises. */
  method PlanRepeatedRequest() returns (r: Result<Plan, PlanningError>)
    ensures r == Err(SelfCheckFailed)
  {
    hide Approved, Rank, Admissible, Governed, Closed, Ranked, Built, Accepts, NoDuplicates, RequestedIds;
    ApprovedQualifies();
    ApprovedRanked();
    RepeatedAdmissible();
    RepeatedConstructible();
    r := BuildExecutionPlan(Approved(), Rank, RepeatedRequest(), RevenueSufficient());
  }

  lemma RepeatedConstructible()
    requires Ranked(Approved(), Rank) && Closed(Approved())
    ensures !Refused(Approved(), Rank, RepeatedRequest(), RevenueSufficient())
  {
    hide Approved, Rank, Ranked, Closed, Admissible, Constructible, RequestedIds;
    RepeatedAdmissible();
    ScalarApproved(Revenue);
    ApprovedLookup(Revenue);
    hide ApprovedIds;
    ConstructibleExactly(Approved(), Rank, RepeatedRequest());
  }
}
