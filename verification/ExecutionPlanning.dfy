/** The planner end to end, and what every plan it returns satisfies. */
module ExecutionPlanning {
  import opened Common
  import opened PlanModel
  import opened PlanBuilder
  import opened PlanAuthorization
  import opened PlanCompilation

  function RequestedIds(metrics: seq<MetricReference>): (r: seq<MetricId>) {
    seq(|metrics|, i requires 0 <= i < |metrics| => metrics[i].metric)
  }

  function Draft(node: PlanNode): PlanNode {
    node.(state := Executable, authorized := [], failures := [])
  }

  ghost function Drafts(nodes: seq<PlanNode>): seq<PlanNode> {
    seq(|nodes|, i requires 0 <= i < |nodes| => Draft(nodes[i]))
  }

  ghost function NodeKeys(nodes: seq<PlanNode>): seq<Key> {
    seq(|nodes|, i requires 0 <= i < |nodes| => KeyOf(nodes[i].id))
  }

  /** Some entry of the sufficiency result marks m eligible. */
  predicate Eligible(sufficiency: SufficiencyResult, m: MetricId) {
    exists e :: e in EntriesFor(sufficiency.eligibility, m) && e.eligible
  }

  /** The requested metrics are governed, at the governed versions, with one eligibility entry each. */
  ghost predicate Admissible(registry: Registry, request: AnalysisRequest, sufficiency: SufficiencyResult) {
    && request.registryVersion == registry.version
    && sufficiency.requestId == request.id
    && (forall r :: r in request.metrics ==>
         r.metric in registry.definitions && r.version == registry.definitions[r.metric].version)
    && (forall m :: m in RequestedIds(request.metrics) ==> |EntriesFor(sufficiency.eligibility, m)| == 1)
    && DatasetsAgree(request, sufficiency)
  }

  /** Populations can be defined: there is a canonical dataset, of the dataset the request names. */
  predicate DatasetsAgree(request: AnalysisRequest, sufficiency: SufficiencyResult) {
    sufficiency.canonicalDataset.Some? && request.datasetRef == sufficiency.datasetRef
  }

  /** build_population_definitions for the three governed groupings; the request references already match. */
  method DefinePopulations(request: AnalysisRequest, sufficiency: SufficiencyResult)
    returns (r: Result<seq<Population>, PlanningError>)
    requires request.id == sufficiency.requestId
    ensures r == if sufficiency.canonicalDataset.None? then Err(CanonicalDatasetMissing)
                 else if request.datasetRef != sufficiency.datasetRef then Err(DatasetMismatch)
                 else Ok(Populations(request.baselinePeriod, request.comparisonPeriod))
  {
    if sufficiency.canonicalDataset.None? {
      return Err(CanonicalDatasetMissing);
    }
    if request.datasetRef != sufficiency.datasetRef {
      return Err(DatasetMismatch);
    }
    var populations: seq<Population> := [];
    var groupings := [Whole, ByProduct, ByCategory];
    for i := 0 to |groupings|
      invariant populations == PopulationsOf(groupings[..i], request.baselinePeriod, request.comparisonPeriod)
    {
      assert groupings[..i + 1][..i] == groupings[..i];
      populations := populations + PeriodPair(groupings[i], request.baselinePeriod, request.comparisonPeriod);
    }
    assert groupings[..|groupings|] == groupings;
    GovernedPopulations(request.baselinePeriod, request.comparisonPeriod);
    return Ok(populations);
  }

  function PopulationsOf(groupings: seq<Grouping>, baseline: string, comparison: string): seq<Population> {
    if groupings == [] then []
    else
      var n := |groupings| - 1;
      PopulationsOf(groupings[..n], baseline, comparison) + PeriodPair(groupings[n], baseline, comparison)
  }

  lemma GovernedPopulations(baseline: string, comparison: string)
    ensures PopulationsOf([Whole, ByProduct, ByCategory], baseline, comparison) == Populations(baseline, comparison)
  {
    hide PeriodPair;
    var g := [Whole, ByProduct, ByCategory];
    assert g[..2] == [Whole, ByProduct] && [Whole, ByProduct][..1] == [Whole] && [Whole][..0] == [];
    assert PopulationsOf([], baseline, comparison) == [];
    assert PopulationsOf([Whole], baseline, comparison) == [] + PeriodPair(Whole, baseline, comparison)
      == PeriodPair(Whole, baseline, comparison);
  }

  ghost predicate Constructible(registry: Registry, rank: MetricId -> nat, request: AnalysisRequest)
    requires Ranked(registry, rank) && forall m :: m in RequestedIds(request.metrics) ==> m in registry.definitions
  {
    forall m :: m in RequestedIds(request.metrics) ==>
      RootsCompile(registry, rank, Populations(request.baselinePeriod, request.comparisonPeriod), m, request.grouping)
  }

  /** Construction stops: the request is not admissible, or some root does not compile. */
  ghost predicate Refused(registry: Registry, rank: MetricId -> nat, request: AnalysisRequest,
                          sufficiency: SufficiencyResult)
    requires Ranked(registry, rank)
  {
    || !Admissible(registry, request, sufficiency)
    || ((forall m :: m in RequestedIds(request.metrics) ==> m in registry.definitions)
         && !Constructible(registry, rank, request))
  }

  /** m was requested, is eligible, and one of its roots reaches the node. */
  ghost predicate Entitles(registry: Registry, rank: MetricId -> nat, request: AnalysisRequest,
                           sufficiency: SufficiencyResult, m: MetricId, id: NodeId)
    requires Ranked(registry, rank)
  {
    && m in RequestedIds(request.metrics) && m in registry.definitions && Eligible(sufficiency, m)
    && exists root ::
         IsRoot(registry, rank, Populations(request.baselinePeriod, request.comparisonPeriod), m,
                request.grouping, root)
                      && id in Reach(root)
  }

  /** Node states follow authorization; blocked nodes, and only they, say why. */
  ghost predicate StatesAgree(nodes: seq<PlanNode>) {
    forall n :: n in nodes ==>
      && (n.state == Executable <==> n.authorized != [])
      && (n.state == Executable <==> n.failures == [])
  }

  ghost predicate AuthorizationExact(registry: Registry, rank: MetricId -> nat, request: AnalysisRequest,
                                     sufficiency: SufficiencyResult, nodes: seq<PlanNode>)
    requires Ranked(registry, rank)
  {
    forall n, m :: n in nodes ==> (m in n.authorized <==> Entitles(registry, rank, request, sufficiency, m, n.id))
  }

  /** The identity is a root of a requested metric whose one eligibility entry is e, and e is not eligible. */
  ghost predicate Withheld(registry: Registry, rank: MetricId -> nat, request: AnalysisRequest,
                           sufficiency: SufficiencyResult, id: NodeId, m: MetricId, e: MetricEligibility)
    requires Ranked(registry, rank)
  {
    && m in RequestedIds(request.metrics) && m in registry.definitions
    && IsRoot(registry, rank, Populations(request.baselinePeriod, request.comparisonPeriod), m, request.grouping, id)
    && EntriesFor(sufficiency.eligibility, m) == [e] && !e.eligible
  }

  /**
   * What a blocked node says: why its own metrics are withheld, that it serves none, and which dependencies are
   * blocked.
   */
  ghost predicate Explained(registry: Registry, rank: MetricId -> nat, request: AnalysisRequest,
                            sufficiency: SufficiencyResult, nodes: seq<PlanNode>, n: PlanNode)
    requires Ranked(registry, rank)
  {
    && (forall s :: Sufficiency(s) in n.failures <==>
         exists m, e :: Withheld(registry, rank, request, sufficiency, n.id, m, e) && s in e.failures)
    && (forall m :: MarkedIneligible(m) in n.failures <==>
         exists e :: Withheld(registry, rank, request, sufficiency, n.id, m, e) && e.failures == [])
    && (forall x :: NoEligibleChain(x) in n.failures <==>
         x == n.id && forall m, e :: !Withheld(registry, rank, request, sufficiency, n.id, m, e))
    && (forall d :: DependencyBlocked(d) in n.failures <==> d in n.dependencyIds && IsBlockedNode(nodes, d))
  }

  ghost predicate IsBlockedNode(nodes: seq<PlanNode>, id: NodeId) {
    exists x :: x in nodes && x.id == id && x.state == Blocked
  }

  ghost predicate BlockedExplained(registry: Registry, rank: MetricId -> nat, request: AnalysisRequest,
                                   sufficiency: SufficiencyResult, nodes: seq<PlanNode>)
    requires Ranked(registry, rank)
  {
    forall n :: n in nodes && n.state == Blocked ==> Explained(registry, rank, request, sufficiency, nodes, n)
  }

  /** The node list is the memoised compilation of exactly the keys the request reaches. */
  ghost predicate Compiled(registry: Registry, rank: MetricId -> nat, request: AnalysisRequest, nodes: seq<PlanNode>)
    requires Ranked(registry, rank) && forall m :: m in RequestedIds(request.metrics) ==> m in registry.definitions
  {
    && Coherent(registry, rank, Populations(request.baselinePeriod, request.comparisonPeriod), Drafts(nodes),
                NodeKeys(nodes))
    && Elements(NodeKeys(nodes)) == RequestedClosure(registry, rank, RequestedIds(request.metrics), request.grouping)
  }

  /** Each node lists the metrics it serves in the order of the request. */
  ghost predicate InRequestOrder(nodes: seq<PlanNode>, requested: seq<MetricId>) {
    forall n :: n in nodes ==> KeepsOrder(n.authorized, requested)
  }

  function EligibleIds(requested: seq<MetricId>, sufficiency: SufficiencyResult): (r: seq<MetricId>)
    ensures forall m :: m in r <==> m in requested && Eligible(sufficiency, m)
  {
    if requested == [] then []
    else (if Eligible(sufficiency, requested[0]) then [requested[0]] else []) + EligibleIds(requested[1..], sufficiency)
  }

  function BlockedMetrics(nodes: seq<PlanNode>): (r: seq<MetricId>)
    ensures forall m :: m in r <==> exists n :: n in nodes && n.state == Blocked && n.metric == m
  {
    if nodes == [] then []
    else
      assert nodes == [nodes[0]] + nodes[1..];
      (if nodes[0].state == Blocked then [nodes[0].metric] else []) + BlockedMetrics(nodes[1..])
  }

  function PopulationIds(populations: seq<Population>): seq<PopulationId> {
    seq(|populations|, i requires 0 <= i < |populations| => populations[i].id)
  }

  /** Everything construction establishes before the closing self-check. */
  ghost predicate Built(registry: Registry, rank: MetricId -> nat, request: AnalysisRequest,
                        sufficiency: SufficiencyResult, plan: Plan)
    requires Ranked(registry, rank)
  {
    && Admissible(registry, request, sufficiency)
    && (forall m :: m in RequestedIds(request.metrics) ==> m in registry.definitions)
    && Constructible(registry, rank, request)
    && plan.populations == Populations(request.baselinePeriod, request.comparisonPeriod)
    && plan.populationRefs == PopulationIds(plan.populations)
    && plan.requested == RequestedIds(request.metrics)
    && plan.eligible == EligibleIds(plan.requested, sufficiency)
    && plan.blocked == Unique(BlockedMetrics(plan.nodes))
    && Compiled(registry, rank, request, plan.nodes)
    && Walked(registry, rank, plan.populations, plan.requested, request.grouping, IdsOf(plan.nodes))
    && AuthorizationExact(registry, rank, request, sufficiency, plan.nodes)
    && StatesAgree(plan.nodes) && InRequestOrder(plan.nodes, plan.requested)
    && BlockedExplained(registry, rank, request, sufficiency, plan.nodes)
  }

  // ---- From the memo table to the planner's obligations ----

  lemma CoherentTopological(registry: Registry, rank: MetricId -> nat, populations: seq<Population>,
                            nodes: seq<PlanNode>, keys: seq<Key>)
    requires Coherent(registry, rank, populations, nodes, keys)
    ensures Topological(nodes)
  {
    IdsDistinct(registry, rank, populations, nodes, keys);
    forall i | 0 <= i < |nodes| ensures nodes[i].dependencyIds == nodes[i].id.deps {
      assert Entry(registry, rank, populations, nodes, keys, i);
    }
    forall i, d | 0 <= i < |nodes| && d in nodes[i].dependencyIds ensures exists j :: 0 <= j < i && nodes[j].id == d {
      DependenciesEarlier(registry, rank, populations, nodes, keys, i, d);
    }
  }

  lemma {:induction false} ReachAllMembers(roots: seq<NodeId>, id: NodeId)
    ensures id in ReachAll(roots) <==> exists root :: root in roots && id in Reach(root)
  {
    if roots != [] {
      var n := |roots| - 1;
      ReachAllMembers(roots[..n], id);
      assert forall root :: root in roots <==> root in roots[..n] || root == roots[n];
      if id in ReachAll(roots[..n]) {
        var root :| root in roots[..n] && id in Reach(root);
        assert root in roots;
      } else if id in Reach(roots[n]) {
        assert roots[n] in roots;
      }
    }
  }

  /** Every root is a node: its key is in the requested closure. */
  lemma RootIsNode(registry: Registry, rank: MetricId -> nat, populations: seq<Population>, nodes: seq<PlanNode>,
                   keys: seq<Key>,
                   requested: seq<MetricId>, grouping: Grouping, m: MetricId, id: NodeId)
    requires Coherent(registry, rank, populations, nodes, keys)
    requires forall x :: x in requested ==> x in registry.definitions
    requires Elements(keys) == RequestedClosure(registry, rank, requested, grouping)
    requires m in requested && IsRoot(registry, rank, populations, m, grouping, id)
    ensures exists i :: 0 <= i < |nodes| && nodes[i].id == id && nodes[i].metric == m
  {
    var k :| k in RootKeys(registry, m, grouping).value && Compile(registry, rank, populations, k) == Ok(id);
    RequestedHasRoot(registry, rank, requested, grouping, m, k);
    var i :| 0 <= i < |keys| && keys[i] == k;
    assert Entry(registry, rank, populations, nodes, keys, i);
  }

  lemma {:induction false} ClosureOfHas(registry: Registry, rank: MetricId -> nat, keys: seq<Key>, k: Key)
    requires Ranked(registry, rank) && forall x :: x in keys ==> x.metric in registry.definitions
    requires k in keys
    ensures k in ClosureOf(registry, rank, keys)
  {
    var n := |keys| - 1;
    if k != keys[n] { ClosureOfHas(registry, rank, keys[..n], k); }
  }

  lemma {:induction false} RequestedHasRoot(registry: Registry, rank: MetricId -> nat, requested: seq<MetricId>,
                                            grouping: Grouping, m: MetricId, k: Key)
    requires Ranked(registry, rank) && forall x :: x in requested ==> x in registry.definitions
    requires m in requested && RootKeys(registry, m, grouping).Ok? && k in RootKeys(registry, m, grouping).value
    ensures k in RequestedClosure(registry, rank, requested, grouping)
  {
    var n := |requested| - 1;
    if m == requested[n] {
      ClosureOfHas(registry, rank, RootKeys(registry, m, grouping).value, k);
    } else {
      RequestedHasRoot(registry, rank, requested[..n], grouping, m, k);
    }
  }

  // ---- The planner ----

  function MetricError(registry: Registry, m: MetricReference): Option<PlanningError> {
    if m.metric !in registry.definitions then Some(UnsupportedMetric)
    else if m.version != registry.definitions[m.metric].version then Some(DefinitionVersionMismatch)
    else None
  }

  /** The error of the first metric that has one. */
  function FirstMetricError(registry: Registry, metrics: seq<MetricReference>): Option<PlanningError> {
    if metrics == [] then None
    else
      var n := |metrics| - 1;
      var before := FirstMetricError(registry, metrics[..n]);
      if before.Some? then before else MetricError(registry, metrics[n])
  }

  lemma {:induction false} FirstErrorStays(registry: Registry, metrics: seq<MetricReference>, i: nat)
    requires i <= |metrics| && FirstMetricError(registry, metrics[..i]).Some?
    ensures FirstMetricError(registry, metrics) == FirstMetricError(registry, metrics[..i])
    decreases |metrics|
  {
    var n := |metrics| - 1;
    if i <= n {
      assert metrics[..n][..i] == metrics[..i];
      FirstErrorStays(registry, metrics[..n], i);
    } else {
      assert metrics[..i] == metrics;
    }
  }

  lemma {:induction false} NoMetricError(registry: Registry, metrics: seq<MetricReference>)
    ensures FirstMetricError(registry, metrics).None? <==>
      forall m :: m in metrics ==>
        m.metric in registry.definitions && m.version == registry.definitions[m.metric].version
  {
    if metrics != [] {
      var n := |metrics| - 1;
      NoMetricError(registry, metrics[..n]);
      assert forall m :: m in metrics <==> m in metrics[..n] || m == metrics[n];
    }
  }

  method CheckMetrics(registry: Registry, metrics: seq<MetricReference>) returns (r: Result<(), PlanningError>)
    ensures r.Ok? <==>
      forall m :: m in metrics ==>
      m.metric in registry.definitions && m.version == registry.definitions[m.metric].version
    ensures FirstMetricError(registry, metrics) == if r.Err? then Some(r.error) else None
  {
    for i := 0 to |metrics|
      invariant FirstMetricError(registry, metrics[..i]).None?
    {
      assert metrics[..i + 1][..i] == metrics[..i];
      var error := MetricError(registry, metrics[i]);
      if error.Some? {
        FirstErrorStays(registry, metrics, i + 1);
        NoMetricError(registry, metrics);
        return Err(error.value);
      }
    }
    assert metrics[..|metrics|] == metrics;
    NoMetricError(registry, metrics);
    return Ok(());
  }

  /** The first reason, in the order of the tests, for which a request is refused before construction. */
  function Admission(registry: Registry, request: AnalysisRequest,
                     sufficiency: SufficiencyResult): Option<PlanningError> {
    var requested := RequestedIds(request.metrics);
    var metrics := FirstMetricError(registry, request.metrics);
    if request.registryVersion != registry.version then Some(RegistryVersionMismatch)
    else if sufficiency.requestId != request.id then Some(RequestMismatch)
    else if metrics.Some? then metrics
    else if SomeMissing(requested, sufficiency.eligibility) then Some(EligibilityMissing)
    else if SomeDuplicated(requested, sufficiency.eligibility) then Some(EligibilityDuplicate)
    else if sufficiency.canonicalDataset.None? then Some(CanonicalDatasetMissing)
    else if request.datasetRef != sufficiency.datasetRef then Some(DatasetMismatch)
    else None
  }

  /** A request is refused before construction exactly when it is not admissible. */
  lemma AdmissionExactly(registry: Registry, request: AnalysisRequest, sufficiency: SufficiencyResult)
    ensures Admission(registry, request, sufficiency).None? <==> Admissible(registry, request, sufficiency)
  {
    NoMetricError(registry, request.metrics);
    hide EntriesFor;
  }

  /** The tests before construction, with what they gather: one eligibility entry per metric, and the populations. */
  method Admit(registry: Registry, request: AnalysisRequest, sufficiency: SufficiencyResult)
    returns (r: Result<(map<MetricId, MetricEligibility>, seq<Population>), PlanningError>)
    ensures r.Err? ==> Admission(registry, request, sufficiency) == Some(r.error)
    ensures r.Ok? ==>
      && Admission(registry, request, sufficiency).None?
      && r.value.1 == Populations(request.baselinePeriod, request.comparisonPeriod)
      && (forall m :: m in r.value.0 <==> m in RequestedIds(request.metrics))
      && (forall m :: m in RequestedIds(request.metrics) ==> EntriesFor(sufficiency.eligibility, m) == [r.value.0[m]])
  {
    hide EntriesFor, RequestedIds, Populations, SomeMissing, SomeDuplicated;
    if request.registryVersion != registry.version {
      return Err(RegistryVersionMismatch);
    }
    if sufficiency.requestId != request.id {
      return Err(RequestMismatch);
    }
    var requested := RequestedIds(request.metrics);
    var governed := CheckMetrics(registry, request.metrics);
    if governed.Err? {
      return Err(governed.error);
    }
    var entries := EligibilityByMetric(requested, sufficiency.eligibility);
    if entries.Err? {
      return Err(entries.error);
    }
    var defined := DefinePopulations(request, sufficiency);
    if defined.Err? {
      return Err(defined.error);
    }
    return Ok((entries.value, defined.value));
  }

  lemma RequestedGoverned(registry: Registry, request: AnalysisRequest, sufficiency: SufficiencyResult)
    requires Admissible(registry, request, sufficiency)
    ensures forall m :: m in RequestedIds(request.metrics) ==> m in registry.definitions
  {
    hide EntriesFor;
    var requested := RequestedIds(request.metrics);
    forall m | m in requested ensures m in registry.definitions {
      var i :| 0 <= i < |requested| && requested[i] == m;
      assert request.metrics[i] in request.metrics;
    }
  }

  /** Construction: everything before the self-check. */
  method Construct(registry: Registry, ghost rank: MetricId -> nat, request: AnalysisRequest,
                   sufficiency: SufficiencyResult)
    returns (r: Result<Plan, PlanningError>)
    requires Ranked(registry, rank)
    ensures r.Ok? ==> Built(registry, rank, request, sufficiency, r.value)
    ensures r.Err? ==> Refused(registry, rank, request, sufficiency)
    ensures r.Err? && !Admissible(registry, request, sufficiency) ==>
      Admission(registry, request, sufficiency) == Some(r.error)
  {
    hide EntriesFor, Admission, Admissible, Walked, IdsOf;
    AdmissionExactly(registry, request, sufficiency);
    var admitted := Admit(registry, request, sufficiency);
    if admitted.Err? {
      return Err(admitted.error);
    }
    RequestedGoverned(registry, request, sufficiency);
    var (entries, populations) := admitted.value;
    var requested := RequestedIds(request.metrics);
    var builder := new Builder(registry, populations, rank);
    var roots := AddRoots(builder, requested, request.grouping);
    if roots.Err? {
      return Err(roots.error);
    }
    var finals := Authorize(registry, rank, request, sufficiency, builder.nodes, builder.keys, roots.value, entries);
    return Ok(Plan(finals, populations, PopulationIds(populations), requested, EligibleIds(requested, sufficiency),
                   Unique(BlockedMetrics(finals))));
  }

  lemma EntryEligible(sufficiency: SufficiencyResult, m: MetricId, entry: MetricEligibility)
    requires EntriesFor(sufficiency.eligibility, m) == [entry]
    ensures Eligible(sufficiency, m) <==> entry.eligible
  {
    assert entry in EntriesFor(sufficiency.eligibility, m);
  }

  /** _apply_chain_authorization. */
  method Authorize(registry: Registry, ghost rank: MetricId -> nat, request: AnalysisRequest,
                   sufficiency: SufficiencyResult,
                   nodes: seq<PlanNode>, ghost keys: seq<Key>, roots: map<MetricId, seq<NodeId>>,
                   entries: map<MetricId, MetricEligibility>)
    returns (finals: seq<PlanNode>)
    requires Ranked(registry, rank)
    requires forall m :: m in RequestedIds(request.metrics) ==> m in registry.definitions
    requires Coherent(registry, rank, Populations(request.baselinePeriod, request.comparisonPeriod), nodes, keys)
    requires Elements(keys) == RequestedClosure(registry, rank, RequestedIds(request.metrics), request.grouping)
    requires RootsOf(registry, rank, Populations(request.baselinePeriod, request.comparisonPeriod),
                     RequestedIds(request.metrics), request.grouping, roots)
    requires forall m :: m in RequestedIds(request.metrics) ==>
      m in entries && EntriesFor(sufficiency.eligibility, m) == [entries[m]]
    ensures Compiled(registry, rank, request, finals)
    ensures AuthorizationExact(registry, rank, request, sufficiency, finals)
    ensures StatesAgree(finals) && InRequestOrder(finals, RequestedIds(request.metrics))
    ensures IdsOf(finals) == IdsOf(nodes)
    ensures BlockedExplained(registry, rank, request, sufficiency, finals)
  {
    hide FinalNode, Reach, ReachAll, Carrying, WhyBlocked, BlockedExplained, InRequestOrder, IdsOf;
    var requested := RequestedIds(request.metrics);
    ghost var populations := Populations(request.baselinePeriod, request.comparisonPeriod);
    CoherentTopological(registry, rank, populations, nodes, keys);
    TopologicalClosed(nodes);
    forall m, root | m in roots && root in roots[m] ensures root in Ids(nodes) {
      RootIsNode(registry, rank, populations, nodes, keys, requested, request.grouping, m, root);
    }
    var eligible := map m | m in entries :: entries[m].eligible;
    var authorized := AuthorizeAll(nodes, requested, roots, eligible);
    finals := Finalize(nodes, requested, roots, entries, authorized);
    DraftsRestored(registry, rank, populations, nodes, keys, finals, requested, authorized);
    BlockedAre(registry, rank, request, sufficiency, nodes, roots, entries, finals, authorized);
    forall n, m | n in finals ensures m in n.authorized <==> Entitles(registry, rank, request, sufficiency, m, n.id) {
      var i :| 0 <= i < |finals| && finals[i] == n;
      CarriesAuthorized(nodes[i], n, requested, authorized, m);
      if m in requested {
        EntryEligible(sufficiency, m, entries[m]);
        CarriedEntitles(registry, rank, request, sufficiency, roots, m, n.id);
      }
    }
  }

  lemma BlockedAre(registry: Registry, rank: MetricId -> nat, request: AnalysisRequest,
                   sufficiency: SufficiencyResult, nodes: seq<PlanNode>, roots: map<MetricId, seq<NodeId>>,
                   entries: map<MetricId, MetricEligibility>, finals: seq<PlanNode>,
                   authorized: map<NodeId, set<MetricId>>)
    requires Ranked(registry, rank) && Topological(nodes) && |finals| == |nodes|
    requires forall m :: m in RequestedIds(request.metrics) ==> m in registry.definitions
    requires RootsOf(registry, rank, Populations(request.baselinePeriod, request.comparisonPeriod),
                     RequestedIds(request.metrics), request.grouping, roots)
    requires forall m :: m in RequestedIds(request.metrics) ==>
      m in entries && EntriesFor(sufficiency.eligibility, m) == [entries[m]]
    requires authorized.Keys == Ids(nodes) && DependencyClosed(authorized.Keys)
    requires forall i :: 0 <= i < |nodes| ==>
      nodes[i] in nodes && FinalNode(nodes[i], finals[i], RequestedIds(request.metrics), authorized)
    requires forall n :: n in finals ==> WhyBlocked(n, RequestedIds(request.metrics), roots, entries)
    ensures BlockedExplained(registry, rank, request, sufficiency, finals)
  {
    RootsListed(registry, rank, Populations(request.baselinePeriod, request.comparisonPeriod),
                RequestedIds(request.metrics), request.grouping, roots);
    hide FinalNode, WhyBlocked, RootsOf, Withheld, EntriesFor, Populations, DependencyClosed, Topological;
    forall i | 0 <= i < |finals| && finals[i].state == Blocked
      ensures Explained(registry, rank, request, sufficiency, finals, finals[i])
    {
      assert finals[i] in finals;
      WithheldExplains(registry, rank, request, sufficiency, roots, entries, finals[i]);
      DependenciesBlocked(nodes, finals, RequestedIds(request.metrics), authorized, i);
    }
  }

  lemma RootsListed(registry: Registry, rank: MetricId -> nat, populations: seq<Population>,
                    requested: seq<MetricId>, grouping: Grouping, roots: map<MetricId, seq<NodeId>>)
    requires Ranked(registry, rank) && forall m :: m in requested ==> m in registry.definitions
    requires RootsOf(registry, rank, populations, requested, grouping, roots)
    ensures forall m :: m in requested ==> m in roots
  {
    hide IsRoot, RootsCompile;
  }

  lemma RootsAre(registry: Registry, rank: MetricId -> nat, request: AnalysisRequest, sufficiency: SufficiencyResult,
                 roots: map<MetricId, seq<NodeId>>, entries: map<MetricId, MetricEligibility>, id: NodeId, m: MetricId,
                 e: MetricEligibility)
    requires Ranked(registry, rank)
    requires forall x :: x in RequestedIds(request.metrics) ==> x in registry.definitions
    requires RootsOf(registry, rank, Populations(request.baselinePeriod, request.comparisonPeriod),
                     RequestedIds(request.metrics), request.grouping, roots)
    requires forall x :: x in RequestedIds(request.metrics) ==>
      x in entries && EntriesFor(sufficiency.eligibility, x) == [entries[x]]
    requires forall x :: x in RequestedIds(request.metrics) ==> x in roots
    ensures Withheld(registry, rank, request, sufficiency, id, m, e) <==>
      RootOfIneligible(m, id, RequestedIds(request.metrics), roots, entries) && e == entries[m]
  {
    hide IsRoot, RootsCompile, EntriesFor;
  }

  lemma WithheldExplains(registry: Registry, rank: MetricId -> nat, request: AnalysisRequest,
                         sufficiency: SufficiencyResult, roots: map<MetricId, seq<NodeId>>,
                         entries: map<MetricId, MetricEligibility>, n: PlanNode)
    requires Ranked(registry, rank) && n.state == Blocked
    requires forall x :: x in RequestedIds(request.metrics) ==> x in registry.definitions
    requires RootsOf(registry, rank, Populations(request.baselinePeriod, request.comparisonPeriod),
                     RequestedIds(request.metrics), request.grouping, roots)
    requires forall x :: x in RequestedIds(request.metrics) ==>
      x in roots && x in entries && EntriesFor(sufficiency.eligibility, x) == [entries[x]]
    requires WhyBlocked(n, RequestedIds(request.metrics), roots, entries)
    ensures forall s :: Sufficiency(s) in n.failures <==>
      exists m, e :: Withheld(registry, rank, request, sufficiency, n.id, m, e) && s in e.failures
    ensures forall m :: MarkedIneligible(m) in n.failures <==>
      exists e :: Withheld(registry, rank, request, sufficiency, n.id, m, e) && e.failures == []
    ensures forall x :: NoEligibleChain(x) in n.failures <==>
      x == n.id && forall m, e :: !Withheld(registry, rank, request, sufficiency, n.id, m, e)
  {
    forall m, e
      ensures Withheld(registry, rank, request, sufficiency, n.id, m, e) <==>
        RootOfIneligible(m, n.id, RequestedIds(request.metrics), roots, entries) && e == entries[m]
    {
      RootsAre(registry, rank, request, sufficiency, roots, entries, n.id, m, e);
    }
    hide Withheld, RootsOf, EntriesFor, IsRoot, RootOfIneligible, RequestedIds;
    forall m | RootOfIneligible(m, n.id, RequestedIds(request.metrics), roots, entries)
      ensures Withheld(registry, rank, request, sufficiency, n.id, m, entries[m])
    {
      RootRequested(m, n.id, RequestedIds(request.metrics), roots, entries);
    }
  }

  lemma RootRequested(m: MetricId, id: NodeId, requested: seq<MetricId>, roots: map<MetricId, seq<NodeId>>,
                      entries: map<MetricId, MetricEligibility>)
    requires forall m :: m in requested ==> m in roots && m in entries
    requires RootOfIneligible(m, id, requested, roots, entries)
    ensures m in roots && m in entries
  {}

  lemma DependenciesBlocked(nodes: seq<PlanNode>, finals: seq<PlanNode>, requested: seq<MetricId>,
                            authorized: map<NodeId, set<MetricId>>, i: nat)
    requires Topological(nodes) && |finals| == |nodes| && i < |nodes| && finals[i].state == Blocked
    requires authorized.Keys == Ids(nodes) && DependencyClosed(authorized.Keys)
    requires forall k :: 0 <= k < |nodes| ==> nodes[k] in nodes && FinalNode(nodes[k], finals[k], requested, authorized)
    ensures forall d :: DependencyBlocked(d) in finals[i].failures <==>
      d in finals[i].dependencyIds && IsBlockedNode(finals, d)
  {
    hide AuthorizedRefs;
    assert FinalNode(nodes[i], finals[i], requested, authorized);
    forall d | d in nodes[i].dependencyIds ensures IsBlocked(d, requested, authorized) <==> IsBlockedNode(finals, d) {
      var j :| 0 <= j < i && nodes[j].id == d;
      assert FinalNode(nodes[j], finals[j], requested, authorized) && finals[j] in finals;
      if x :| x in finals && x.id == d && x.state == Blocked {
        var k :| 0 <= k < |finals| && finals[k] == x;
        assert FinalNode(nodes[k], finals[k], requested, authorized) && nodes[k].id == d;
      }
    }
  }

  lemma CarriesAuthorized(draft: PlanNode, final: PlanNode, requested: seq<MetricId>,
                          authorized: map<NodeId, set<MetricId>>, m: MetricId)
    requires draft.id in authorized && forall d :: d in draft.dependencyIds ==> d in authorized
    requires FinalNode(draft, final, requested, authorized)
    ensures final.id == draft.id && (m in final.authorized <==> m in requested && final.id in Carrying(authorized, m))
  {}

  lemma CarriedEntitles(registry: Registry, rank: MetricId -> nat, request: AnalysisRequest,
                        sufficiency: SufficiencyResult,
                        roots: map<MetricId, seq<NodeId>>, m: MetricId, id: NodeId)
    requires Ranked(registry, rank) && m in RequestedIds(request.metrics)
    requires forall x :: x in RequestedIds(request.metrics) ==> x in registry.definitions
    requires RootsOf(registry, rank, Populations(request.baselinePeriod, request.comparisonPeriod),
                     RequestedIds(request.metrics), request.grouping, roots)
    ensures Entitles(registry, rank, request, sufficiency, m, id) <==>
      Eligible(sufficiency, m) && id in ReachAll(roots[m])
  {
    hide IsRoot, RootsCompile, Reach, ReachAll, Eligible, Populations;
    ReachAllMembers(roots[m], id);
  }

  lemma DraftsRestored(registry: Registry, rank: MetricId -> nat, populations: seq<Population>, nodes: seq<PlanNode>,
                       keys: seq<Key>,
                       finals: seq<PlanNode>, requested: seq<MetricId>, authorized: map<NodeId, set<MetricId>>)
    requires Coherent(registry, rank, populations, nodes, keys) && Topological(nodes)
    requires authorized.Keys == Ids(nodes) && DependencyClosed(authorized.Keys)
    requires |finals| == |nodes|
    requires forall i :: 0 <= i < |nodes| ==> nodes[i] in nodes && FinalNode(nodes[i], finals[i], requested, authorized)
    ensures Drafts(finals) == nodes && NodeKeys(finals) == keys
    ensures StatesAgree(finals) && InRequestOrder(finals, requested)
    ensures IdsOf(finals) == IdsOf(nodes)
  {
    forall i | 0 <= i < |nodes| ensures KeepsOrder(finals[i].authorized, requested) {
      AuthorizedInOrder(requested, authorized[nodes[i].id]);
    }
    hide KeepsOrder;
    IdsDistinct(registry, rank, populations, nodes, keys);
    forall i | 0 <= i < |nodes| ensures Draft(finals[i]) == nodes[i] {
      assert Entry(registry, rank, populations, nodes, keys, i);
      assert FinalNode(nodes[i], finals[i], requested, authorized);
    }
    assert forall i :: 0 <= i < |nodes| ==> finals[i].id == Drafts(finals)[i].id;
  }
}
