/** Metric definitions, populations and plan nodes: the values the planner works on. */
module PlanModel {
  import opened Common

  /** Metric identities: the approved ones by name, and every other string a request may carry. */
  datatype Entity = Product | Category
  datatype Measure = EntityRevenue | EntityOrders | EntityRevenueChange | EntityRevenueChangePct
                   | AbsoluteContribution | ContributionShare
  datatype MetricId = Revenue | Orders | Aov | RevenueChange | RevenueChangePct | Of(entity: Entity, measure: Measure)
                    | LeadingPositive | LeadingNegative | Unapproved(name: string)

  datatype Grouping = Whole | ByProduct | ByCategory | ByProductAndCategory
  datatype Role = Baseline | Comparison
  datatype PeriodRequirement = SinglePeriod | BaselineAndComparison
  datatype DependencyRole = SameAsParent | AtBaseline | AtComparison | AtBoth | NoPeriod

  datatype Dependency = Dependency(metric: MetricId, role: DependencyRole, grouping: Option<Grouping>,
                                   appliesTo: seq<Grouping>)

  datatype Definition = Definition(version: string, dependencies: seq<Dependency>,
                                   groupingRequirement: Option<Grouping>,
                                   supportedGroupings: seq<Grouping>, period: PeriodRequirement)

  datatype Registry = Registry(version: string, definitions: map<MetricId, Definition>)

  /** Content addresses are modelled as the content itself: an injective fingerprint. */
  datatype PopulationId = PopulationId(role: Role, grouping: Grouping, period: string)
  datatype Population = Population(id: PopulationId, role: Role, grouping: Grouping, period: string)

  datatype NodeId = NodeId(metric: MetricId, version: string, role: Option<Role>, periodRefs: seq<string>,
                           populationRefs: seq<PopulationId>, grouping: Grouping, deps: seq<NodeId>)

  datatype Key = Key(metric: MetricId, role: Option<Role>, grouping: Grouping)

  datatype PlanningState = Executable | Blocked

  datatype Failure = Sufficiency(detail: string) | MarkedIneligible(metric: MetricId)
                   | NoEligibleChain(node: NodeId) | DependencyBlocked(node: NodeId)

  datatype PlanNode = PlanNode(id: NodeId, metric: MetricId, version: string, dependencyMetrics: seq<MetricId>,
                               dependencyIds: seq<NodeId>, periodRefs: seq<string>, populationRefs: seq<PopulationId>,
                               grouping: Grouping, state: PlanningState, authorized: seq<MetricId>,
                               failures: seq<Failure>)

  datatype PlanningError = RegistryVersionMismatch | RequestMismatch | UnsupportedMetric | DefinitionVersionMismatch
                         | EligibilityMissing | EligibilityDuplicate | GroupingNotSupported | GroupingMustBeExplicit
                         | CanonicalDatasetMissing | DatasetMismatch | SamePeriodNeedsParent | SelfCheckFailed

  datatype MetricReference = MetricReference(metric: MetricId, version: string)
  datatype MetricEligibility = MetricEligibility(metric: MetricId, eligible: bool, failures: seq<string>)

  datatype AnalysisRequest = AnalysisRequest(id: string, registryVersion: string, datasetRef: string,
                                             metrics: seq<MetricReference>,
                                             grouping: Grouping, baselinePeriod: string, comparisonPeriod: string)
  datatype SufficiencyResult = SufficiencyResult(requestId: string, datasetRef: string,
                                                 canonicalDataset: Option<string>,
                                                 eligibility: seq<MetricEligibility>)

  datatype Plan = Plan(nodes: seq<PlanNode>, populations: seq<Population>, populationRefs: seq<PopulationId>,
                       requested: seq<MetricId>, eligible: seq<MetricId>, blocked: seq<MetricId>)

  /** First occurrences, in order. */
  function Unique<T(==,!new)>(s: seq<T>): (r: seq<T>)
    ensures forall x :: x in r <==> x in s
  {
    if s == [] then []
    else
      var n := |s| - 1;
      assert s == s[..n] + [s[n]];
      if s[n] in s[..n] then Unique(s[..n]) else Unique(s[..n]) + [s[n]]
  }

  ghost predicate NoDuplicates<T>(s: seq<T>) {
    forall i, j :: 0 <= i < j < |s| ==> s[i] != s[j]
  }

  /** r lists the elements of s in the order in which they first occur. */
  ghost predicate FirstsOf<T(!new)>(r: seq<T>, s: seq<T>) {
    && (forall x :: x in r <==> x in s)
    && forall i, j :: 0 <= i < j < |r| ==> FoundFirst(s, r[i], r[j])
  }

  /** x occurs before any y. */
  ghost predicate FoundFirst<T(!new)>(s: seq<T>, x: T, y: T) {
    exists k :: 0 <= k < |s| && s[k] == x && forall l :: 0 <= l <= k ==> s[l] != y
  }

  lemma {:induction false} UniqueFirsts<T(!new)>(s: seq<T>)
    ensures FirstsOf(Unique(s), s)
  {
    if s != [] {
      var n, r := |s| - 1, Unique(s);
      var before := s[..n];
      UniqueFirsts(before);
      forall i, j | 0 <= i < j < |r| ensures FoundFirst(s, r[i], r[j]) {
        if j < |Unique(before)| {
          assert FoundFirst(before, r[i], r[j]);
          var k :| 0 <= k < n && before[k] == r[i] && forall l :: 0 <= l <= k ==> before[l] != r[j];
          assert s[k] == r[i] && forall l :: 0 <= l <= k ==> s[l] == before[l];
        } else {
          assert r[i] in Unique(before);
          var k :| 0 <= k < n && before[k] == r[i];
          assert forall l :: 0 <= l < n ==> before[l] in before && before[l] == s[l];
          assert s[k] == r[i];
        }
      }
    }
  }

  /** The elements of r follow each other in s. */
  ghost predicate KeepsOrder<T(!new)>(r: seq<T>, s: seq<T>) {
    forall i, j :: 0 <= i < j < |r| ==> Follows(s, r[i], r[j])
  }

  ghost predicate Follows<T(!new)>(s: seq<T>, x: T, y: T) {
    exists k, l :: 0 <= k < l < |s| && s[k] == x && s[l] == y
  }

  /** Filtering a list from the front keeps its order. */
  lemma KeepsOrderStep<T(!new)>(rest: seq<T>, s: seq<T>)
    requires s != [] && KeepsOrder(rest, s[1..]) && forall x :: x in rest ==> x in s[1..]
    ensures KeepsOrder(rest, s) && KeepsOrder([s[0]] + rest, s)
  {
    forall i, j | 0 <= i < j < |rest| ensures Follows(s, rest[i], rest[j]) {
      assert Follows(s[1..], rest[i], rest[j]);
      var k, l :| 0 <= k < l < |s| - 1 && s[1..][k] == rest[i] && s[1..][l] == rest[j];
      assert s[k + 1] == rest[i] && s[l + 1] == rest[j];
    }
    forall j | 0 <= j < |rest| ensures Follows(s, s[0], rest[j]) {
      assert rest[j] in s[1..];
      var l :| 0 <= l < |s| - 1 && s[1..][l] == rest[j];
      assert s[l + 1] == rest[j];
    }
    var all := [s[0]] + rest;
    forall i, j | 0 <= i < j < |all| ensures Follows(s, all[i], all[j]) {
      assert all[j] == rest[j - 1] && (i > 0 ==> all[i] == rest[i - 1]);
    }
  }

  /** The source's uniqueness test: dropping repetitions keeps the length exactly for duplicate-free input. */
  lemma {:induction false} UniqueLength<T(!new)>(s: seq<T>)
    ensures |Unique(s)| <= |s|
    ensures |Unique(s)| == |s| <==> NoDuplicates(s)
  {
    if s != [] {
      var n := |s| - 1;
      UniqueLength(s[..n]);
      if s[n] in s[..n] {
        var i :| 0 <= i < n && s[i] == s[n];
      } else {
        assert forall i :: 0 <= i < n ==> s[..n][i] == s[i];
        assert NoDuplicates(s) <==> NoDuplicates(s[..n]);
      }
    }
  }

  function PopulationOf(role: Role, grouping: Grouping, period: string): Population {
    Population(PopulationId(role, grouping, period), role, grouping, period)
  }

  function PeriodPair(grouping: Grouping, baseline: string, comparison: string): seq<Population> {
    [PopulationOf(Baseline, grouping, baseline), PopulationOf(Comparison, grouping, comparison)]
  }

  /** The three governed groupings, each with its baseline and comparison population. */
  function Populations(baseline: string, comparison: string): seq<Population> {
    PeriodPair(Whole, baseline, comparison) + PeriodPair(ByProduct, baseline, comparison)
      + PeriodPair(ByCategory, baseline, comparison)
  }

  function PopulationRefs(definition: Definition, populations: seq<Population>, role: Option<Role>,
                          grouping: Grouping): seq<PopulationId> {
    if populations == [] then []
    else
      var p := populations[0];
      var rest := PopulationRefs(definition, populations[1..], role, grouping);
      if p.grouping == grouping && (definition.period == SinglePeriod && role.Some? ==> p.role == role.value)
      then [p.id] + rest else rest
  }

  function PeriodRefs(populations: seq<Population>, refs: seq<PopulationId>): seq<string> {
    if populations == [] then []
    else
      var rest := PeriodRefs(populations[1..], refs);
      if populations[0].id in refs then [populations[0].period] + rest else rest
  }

  function DependencyRoles(dependency: Dependency, parent: Option<Role>): Result<seq<Option<Role>>, PlanningError> {
    match dependency.role
    case SameAsParent => if parent.None? then Err(SamePeriodNeedsParent) else Ok([parent])
    case AtBaseline => Ok([Some(Baseline)])
    case AtComparison => Ok([Some(Comparison)])
    case AtBoth => Ok([Some(Baseline), Some(Comparison)])
    case NoPeriod => Ok([None])
  }

  function DependencyGrouping(dependency: Dependency, registry: Registry): Result<Grouping, PlanningError>
    requires dependency.metric in registry.definitions
  {
    if dependency.grouping.Some? then Ok(dependency.grouping.value)
    else
      match registry.definitions[dependency.metric].groupingRequirement
      case None => Err(GroupingMustBeExplicit)
      case Some(g) => Ok(g)
  }

  function EffectiveGrouping(definition: Definition, requested: Grouping): Result<Grouping, PlanningError> {
    if definition.supportedGroupings != [] then
      if requested in definition.supportedGroupings then Ok(requested) else Err(GroupingNotSupported)
    else
      match definition.groupingRequirement
      case None => Err(GroupingMustBeExplicit)
      case Some(g) => Ok(g)
  }

  function GroupingError(definition: Definition, grouping: Grouping): Option<PlanningError> {
    if definition.supportedGroupings != [] then
      if grouping in definition.supportedGroupings then None else Some(GroupingNotSupported)
    else
      match definition.groupingRequirement
      case None => Some(GroupingMustBeExplicit)
      case Some(g) => if grouping == g then None else Some(GroupingNotSupported)
  }

  function EffectiveDependencies(dependencies: seq<Dependency>, grouping: Grouping): (r: seq<Dependency>)
    ensures forall d :: d in r ==> d in dependencies
  {
    if dependencies == [] then []
    else
      var d := dependencies[0];
      var rest := EffectiveDependencies(dependencies[1..], grouping);
      if d.appliesTo == [] || grouping in d.appliesTo then [d] + rest else rest
  }

  function MetricsOf(ids: seq<NodeId>): seq<MetricId> {
    seq(|ids|, i requires 0 <= i < |ids| => ids[i].metric)
  }

  /** A new node, before authorization; its identity is its whole payload. */
  function NodeFor(definition: Definition, populations: seq<Population>, key: Key, deps: seq<NodeId>): PlanNode {
    var populationRefs := PopulationRefs(definition, populations, key.role, key.grouping);
    var periodRefs := PeriodRefs(populations, populationRefs);
    var id := NodeId(key.metric, definition.version, key.role, periodRefs, populationRefs, key.grouping, deps);
    PlanNode(id, key.metric, definition.version, Unique(MetricsOf(deps)),
             deps, periodRefs, populationRefs, key.grouping, Executable, [], [])
  }

  function KeyOf(id: NodeId): Key {
    Key(id.metric, id.role, id.grouping)
  }

  /** Registries with no dependency cycle and no unknown prerequisite, witnessed by a rank. */
  ghost predicate Ranked(registry: Registry, rank: MetricId -> nat) {
    forall m, d | m in registry.definitions && d in registry.definitions[m].dependencies ::
      d.metric in registry.definitions && rank(d.metric) < rank(m)
  }
}
