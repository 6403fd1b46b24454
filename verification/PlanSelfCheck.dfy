/** Why the planner's closing self-check passes: builder output against the separate validator. */
module PlanSelfCheck {
  import opened Common
  import opened PlanModel
  import opened PlanBuilder
  import opened PlanAuthorization
  import opened PlanValidation
  import opened PlanCompilation
  import opened ExecutionPlanning

  // ---- Population references in closed form ----

  function RefsAt(single: bool, role: Option<Role>, grouping: Grouping, baseline: string,
                  comparison: string): seq<PopulationId> {
    if grouping == ByProductAndCategory then []
    else if single && role == Some(Baseline) then [PopulationId(Baseline, grouping, baseline)]
    else if single && role == Some(Comparison) then [PopulationId(Comparison, grouping, comparison)]
    else [PopulationId(Baseline, grouping, baseline), PopulationId(Comparison, grouping, comparison)]
  }

  lemma {:induction false} PopulationRefsConcat(definition: Definition, a: seq<Population>, b: seq<Population>,
                                                role: Option<Role>, grouping: Grouping)
    ensures PopulationRefs(definition, a + b, role, grouping)
            == PopulationRefs(definition, a, role, grouping) + PopulationRefs(definition, b, role, grouping)
  {
    if a == [] {
      assert a + b == b;
    } else {
      assert (a + b)[1..] == a[1..] + b;
      PopulationRefsConcat(definition, a[1..], b, role, grouping);
    }
  }

  lemma PopulationRefsPair(definition: Definition, pair: Grouping, role: Option<Role>, grouping: Grouping,
                           baseline: string, comparison: string)
    ensures PopulationRefs(definition, PeriodPair(pair, baseline, comparison), role, grouping)
            == if pair == grouping
              then RefsAt(definition.period == SinglePeriod, role, pair, baseline, comparison) else []
    requires pair != ByProductAndCategory
  {
    var p := PeriodPair(pair, baseline, comparison);
    assert p[1..] == [p[1]] && [p[1]][1..] == [];
    assert PopulationRefs(definition, [], role, grouping) == [];
    assert PopulationRefs(definition, [p[1]], role, grouping) ==
      if pair == grouping && (definition.period == SinglePeriod && role.Some? ==> role.value == Comparison)
        then [p[1].id] else [];
  }

  lemma PopulationRefsClosed(definition: Definition, role: Option<Role>, grouping: Grouping, baseline: string,
                             comparison: string)
    ensures PopulationRefs(definition, Populations(baseline, comparison), role, grouping)
            == RefsAt(definition.period == SinglePeriod, role, grouping, baseline, comparison)
  {
    var a, b, c :=
      PeriodPair(Whole, baseline, comparison), PeriodPair(ByProduct, baseline, comparison),
      PeriodPair(ByCategory, baseline, comparison);
    PopulationRefsConcat(definition, a + b, c, role, grouping);
    PopulationRefsConcat(definition, a, b, role, grouping);
    PopulationRefsPair(definition, Whole, role, grouping, baseline, comparison);
    PopulationRefsPair(definition, ByProduct, role, grouping, baseline, comparison);
    PopulationRefsPair(definition, ByCategory, role, grouping, baseline, comparison);
  }

  lemma {:induction false} PeriodRefsConcat(a: seq<Population>, b: seq<Population>, refs: seq<PopulationId>)
    ensures PeriodRefs(a + b, refs) == PeriodRefs(a, refs) + PeriodRefs(b, refs)
  {
    if a == [] {
      assert a + b == b;
    } else {
      assert (a + b)[1..] == a[1..] + b;
      PeriodRefsConcat(a[1..], b, refs);
    }
  }

  function Periods(refs: seq<PopulationId>): seq<string> {
    seq(|refs|, i requires 0 <= i < |refs| => refs[i].period)
  }

  lemma PeriodRefsPair(pair: Grouping, single: bool, role: Option<Role>, grouping: Grouping, baseline: string,
                       comparison: string)
    requires pair != ByProductAndCategory
    ensures var refs := RefsAt(single, role, grouping, baseline, comparison);
            PeriodRefs(PeriodPair(pair, baseline, comparison), refs) == if pair == grouping then Periods(refs) else []
  {
    var p := PeriodPair(pair, baseline, comparison);
    var refs := RefsAt(single, role, grouping, baseline, comparison);
    assert p[1..] == [p[1]] && [p[1]][1..] == [];
    assert PeriodRefs([], refs) == [];
    assert PeriodRefs([p[1]], refs) == if p[1].id in refs then [comparison] else [];
  }

  lemma PeriodRefsClosed(single: bool, role: Option<Role>, grouping: Grouping, baseline: string, comparison: string)
    ensures var refs := RefsAt(single, role, grouping, baseline, comparison);
            PeriodRefs(Populations(baseline, comparison), refs) == Periods(refs)
  {
    var a, b, c :=
      PeriodPair(Whole, baseline, comparison), PeriodPair(ByProduct, baseline, comparison),
      PeriodPair(ByCategory, baseline, comparison);
    var refs := RefsAt(single, role, grouping, baseline, comparison);
    PeriodRefsConcat(a + b, c, refs);
    PeriodRefsConcat(a, b, refs);
    PeriodRefsPair(Whole, single, role, grouping, baseline, comparison);
    PeriodRefsPair(ByProduct, single, role, grouping, baseline, comparison);
    PeriodRefsPair(ByCategory, single, role, grouping, baseline, comparison);
  }

  lemma {:induction false} PopulationByIdFinds(p: seq<Population>)
    ensures forall i :: 0 <= i < |p| ==> p[i].id in PopulationById(p)
    ensures forall id :: id in PopulationById(p) ==>
      PopulationById(p)[id].id == id && exists i :: 0 <= i < |p| && p[i] == PopulationById(p)[id]
  {
    if p != [] {
      var n := |p| - 1;
      PopulationByIdFinds(p[..n]);
      assert forall i :: 0 <= i < n ==> p[..n][i] == p[i];
    }
  }

  /** Looking a governed population up returns its own role, grouping and period. */
  lemma PopulationLookup(baseline: string, comparison: string)
    ensures forall i :: 0 <= i < 6 ==>
      Populations(baseline, comparison)[i].id in PopulationById(Populations(baseline, comparison))
    ensures forall id :: id in PopulationById(Populations(baseline, comparison)) ==>
      PopulationById(Populations(baseline, comparison))[id] == Population(id, id.role, id.grouping, id.period)
  {
    PopulationByIdFinds(Populations(baseline, comparison));
  }

  lemma RefsKnown(single: bool, role: Option<Role>, grouping: Grouping, baseline: string, comparison: string)
    ensures forall r :: r in RefsAt(single, role, grouping, baseline, comparison) ==>
      r.grouping == grouping && r in PopulationById(Populations(baseline, comparison))
  {
    var p := Populations(baseline, comparison);
    PopulationLookup(baseline, comparison);
    assert p[0].id == PopulationId(Baseline, Whole, baseline) && p[1].id == PopulationId(Comparison, Whole, comparison);
    assert p[2].id == PopulationId(Baseline, ByProduct, baseline)
      && p[3].id == PopulationId(Comparison, ByProduct, comparison);
    assert p[4].id == PopulationId(Baseline, ByCategory, baseline)
      && p[5].id == PopulationId(Comparison, ByCategory, comparison);
  }

  // ---- What a registry must promise about the two metrics with special checks ----

  /** AOV reads one or more single-period metrics of its own period at one grouping. */
  ghost predicate AovGoverned(registry: Registry)
    requires forall m, d | m in registry.definitions && d in registry.definitions[m].dependencies ::
      d.metric in registry.definitions
  {
    Aov in registry.definitions ==>
      var deps := registry.definitions[Aov].dependencies;
      deps != [] && forall d :: d in deps ==>
        && d.role == SameAsParent && d.appliesTo == []
        && registry.definitions[d.metric].period == SinglePeriod
        && DependencyGrouping(d, registry) == DependencyGrouping(deps[0], registry)
  }

  /** Revenue Change compares ungrouped Revenue at the two periods. */
  ghost predicate RevenueChangeGoverned(registry: Registry)
    requires forall m, d | m in registry.definitions && d in registry.definitions[m].dependencies ::
      d.metric in registry.definitions
  {
    RevenueChange in registry.definitions ==>
      var change := registry.definitions[RevenueChange];
      && change.period == BaselineAndComparison && change.supportedGroupings == []
           && change.groupingRequirement == Some(Whole)
      && |change.dependencies| == 2
      && {change.dependencies[0].role, change.dependencies[1].role} == {AtBaseline, AtComparison}
      && forall d :: d in change.dependencies ==>
        && d.metric == Revenue && d.appliesTo == [] && DependencyGrouping(d, registry) == Ok(Whole)
        && registry.definitions[d.metric].period == SinglePeriod
  }

  ghost predicate Governed(registry: Registry, rank: MetricId -> nat) {
    Ranked(registry, rank) && AovGoverned(registry) && RevenueChangeGoverned(registry)
  }

  // ---- One node at a time ----

  /** What the memo table says about one final node. */
  ghost predicate NodeFacts(registry: Registry, node: PlanNode, baseline: string, comparison: string) {
    && node.metric in registry.definitions
    && var definition := registry.definitions[node.metric];
       var refs := RefsAt(definition.period == SinglePeriod, node.id.role, node.grouping, baseline, comparison);
       && node.version == definition.version
       && node.dependencyIds == node.id.deps
       && node.id.metric == node.metric && node.id.grouping == node.grouping
       && node.id.populationRefs == node.populationRefs == refs
       && node.id.periodRefs == node.periodRefs == Periods(refs)
       && GroupingError(definition, node.grouping).None?
  }

  /** The dependency identities of a compiled node are the compiled children of its key. */
  ghost predicate DependencyFacts(registry: Registry, rank: MetricId -> nat, populations: seq<Population>, id: NodeId)
    requires Ranked(registry, rank)
  {
    && id.metric in registry.definitions
    && var children := Children(registry, rank, KeyOf(id));
       && |id.deps| == |children|
       && forall i :: 0 <= i < |children| ==> children[i].Ok? && KeyOf(id.deps[i]) == children[i].value
  }

  lemma NodeFactsHold(registry: Registry, rank: MetricId -> nat, request: AnalysisRequest,
                      sufficiency: SufficiencyResult, plan: Plan, i: nat)
    requires Ranked(registry, rank) && Built(registry, rank, request, sufficiency, plan) && i < |plan.nodes|
    ensures NodeFacts(registry, plan.nodes[i], request.baselinePeriod, request.comparisonPeriod)
    ensures DependencyFacts(registry, rank, plan.populations, plan.nodes[i].id)
  {
    var node := plan.nodes[i];
    var keys := NodeKeys(plan.nodes);
    var key := keys[i];
    assert Entry(registry, rank, plan.populations, Drafts(plan.nodes), keys, i);
    var definition := registry.definitions[key.metric];
    PopulationRefsClosed(definition, key.role, key.grouping, request.baselinePeriod, request.comparisonPeriod);
    PeriodRefsClosed(definition.period == SinglePeriod, key.role, key.grouping, request.baselinePeriod,
                     request.comparisonPeriod);
    var children := Children(registry, rank, key);
    CompileAllOk(registry, rank, plan.populations, children, rank(key.metric));
    forall c | 0 <= c < |children| ensures KeyOf(node.id.deps[c]) == children[c].value {
      assert children[c] in children;
      CompiledKey(registry, rank, plan.populations, children[c].value);
    }
  }

  lemma CompiledKey(registry: Registry, rank: MetricId -> nat, populations: seq<Population>, key: Key)
    requires Ranked(registry, rank) && key.metric in registry.definitions
    requires Compile(registry, rank, populations, key).Ok?
    ensures KeyOf(Compile(registry, rank, populations, key).value) == key
  {}

  lemma BuiltTopological(registry: Registry, rank: MetricId -> nat, request: AnalysisRequest,
                         sufficiency: SufficiencyResult, plan: Plan)
    requires Ranked(registry, rank) && Built(registry, rank, request, sufficiency, plan)
    ensures Topological(plan.nodes)
  {
    var drafts := Drafts(plan.nodes);
    CoherentTopological(registry, rank, plan.populations, drafts, NodeKeys(plan.nodes));
    forall i | 0 <= i < |plan.nodes|
      ensures plan.nodes[i].id == drafts[i].id && plan.nodes[i].dependencyIds == drafts[i].dependencyIds {}
    forall i, d | 0 <= i < |plan.nodes| && d in plan.nodes[i].dependencyIds
      ensures exists j :: 0 <= j < i && plan.nodes[j].id == d
    {
      var j :| 0 <= j < i && drafts[j].id == d;
      assert plan.nodes[j].id == d;
    }
  }

  lemma DependencyIsNode(nodes: seq<PlanNode>, i: nat, d: NodeId) returns (j: nat)
    requires Topological(nodes) && i < |nodes| && d in nodes[i].dependencyIds
    ensures j < i && nodes[j].id == d && d in NodeById(nodes) && NodeById(nodes)[d] == nodes[j]
  {
    j :| 0 <= j < i && nodes[j].id == d;
    NodeByIdAt(nodes, j);
  }

  /** Authorization travels down dependencies, so an executable node never meets a blocked dependency. */
  lemma StateHolds(registry: Registry, rank: MetricId -> nat, request: AnalysisRequest, sufficiency: SufficiencyResult,
                   plan: Plan, i: nat)
    requires Ranked(registry, rank) && Built(registry, rank, request, sufficiency, plan) && i < |plan.nodes|
    ensures forall d :: d in plan.nodes[i].dependencyIds ==> d in NodeById(plan.nodes)
    ensures StateAccepted(plan.nodes[i], NodeById(plan.nodes), plan.eligible)
  {
    BuiltTopological(registry, rank, request, sufficiency, plan);
    var node := plan.nodes[i];
    assert node in plan.nodes;
    forall d | d in node.dependencyIds
      ensures d in NodeById(plan.nodes)
      ensures forall m :: m in node.authorized ==> m in NodeById(plan.nodes)[d].authorized
    {
      var j := DependencyIsNode(plan.nodes, i, d);
      assert plan.nodes[j] in plan.nodes;
      forall m | m in node.authorized ensures m in plan.nodes[j].authorized {
        var root :| IsRoot(registry, rank, plan.populations, m, request.grouping, root) && node.id in Reach(root);
        ReachClosed(root);
        assert d in Reach(root);
      }
    }
    if node.authorized != [] {
      var m := node.authorized[0];
      forall d | d in node.dependencyIds ensures NodeById(plan.nodes)[d].state == Executable {
        var j := DependencyIsNode(plan.nodes, i, d);
        assert plan.nodes[j] in plan.nodes && m in plan.nodes[j].authorized;
      }
    }
  }

  lemma PopulationsHold(registry: Registry, node: PlanNode, baseline: string, comparison: string)
    requires NodeFacts(registry, node, baseline, comparison)
    ensures var populations := PopulationById(Populations(baseline, comparison));
      && (forall p :: p in node.populationRefs ==> p in populations && populations[p].grouping == node.grouping)
      && |node.periodRefs| == |node.populationRefs|
      && (forall i :: 0 <= i < |node.periodRefs| ==> populations[node.populationRefs[i]].period == node.periodRefs[i])
  {
    PopulationLookup(baseline, comparison);
    RefsKnown(registry.definitions[node.metric].period == SinglePeriod, node.id.role, node.grouping, baseline,
              comparison);
  }

  lemma {:induction false} UnfilteredDependencies(dependencies: seq<Dependency>, grouping: Grouping)
    requires forall d :: d in dependencies ==> d.appliesTo == []
    ensures EffectiveDependencies(dependencies, grouping) == dependencies
  {
    if dependencies != [] { UnfilteredDependencies(dependencies[1..], grouping); }
  }

  /** Same-period dependencies at one grouping all land on the parent's role and that grouping. */
  lemma {:induction false} SamePeriodChildren(registry: Registry, dependencies: seq<Dependency>, parent: Option<Role>,
                                              grouping: Result<Grouping, PlanningError>)
    requires forall d :: d in dependencies ==>
      d.metric in registry.definitions && d.role == SameAsParent && DependencyGrouping(d, registry) == grouping
    ensures var children := ChildrenOf(registry, dependencies, parent);
      |children| == |dependencies|
      && forall k :: 0 <= k < |children| && children[k].Ok? ==>
        parent.Some? && grouping.Ok? && children[k].value == Key(dependencies[k].metric, parent, grouping.value)
  {
    if dependencies != [] {
      SamePeriodChildren(registry, dependencies[1..], parent, grouping);
      var d := dependencies[0];
      assert d in dependencies;
      if parent.Some? {
        assert [parent][1..] == [];
        assert |KeysOf(d.metric, [parent], grouping)| == 1;
      }
      forall k | 1 <= k < |dependencies| ensures dependencies[1..][k - 1] == dependencies[k] {}
    }
  }

  lemma SingletonImage<T>(s: set<T>, x: T)
    requires x in s && forall y :: y in s ==> y == x
    ensures |s| == 1
  {
    assert s == {x};
  }

  lemma AovHolds(registry: Registry, rank: MetricId -> nat, request: AnalysisRequest, sufficiency: SufficiencyResult,
                 plan: Plan, i: nat)
    requires Governed(registry, rank) && Built(registry, rank, request, sufficiency, plan) && i < |plan.nodes|
    requires plan.nodes[i].metric == Aov
    requires forall d :: d in plan.nodes[i].dependencyIds ==> d in NodeById(plan.nodes)
    ensures AovAccepted(plan.nodes[i], NodeById(plan.nodes))
  {
    BuiltTopological(registry, rank, request, sufficiency, plan);
    NodeFactsHold(registry, rank, request, sufficiency, plan, i);
    hide Walked;
    var node, nodes := plan.nodes[i], NodeById(plan.nodes);
    var deps := registry.definitions[Aov].dependencies;
    var grouping := DependencyGrouping(deps[0], registry);
    UnfilteredDependencies(deps, node.grouping);
    SamePeriodChildren(registry, deps, node.id.role, grouping);
    var children := Children(registry, rank, KeyOf(node.id));
    assert children[0] in children;
    var refs := RefsAt(true, node.id.role, grouping.value, request.baselinePeriod, request.comparisonPeriod);
    var periods := Periods(refs);
    forall d | d in node.dependencyIds ensures nodes[d].populationRefs == refs && nodes[d].periodRefs == periods {
      var c :| 0 <= c < |children| && node.id.deps[c] == d;
      assert children[c] in children && deps[c] in deps;
      var j := DependencyIsNode(plan.nodes, i, d);
      NodeFactsHold(registry, rank, request, sufficiency, plan, j);
    }
    assert node.dependencyIds[0] in node.dependencyIds;
    SingletonImage(set d | d in node.dependencyIds :: nodes[d].populationRefs, refs);
    SingletonImage(set d | d in node.dependencyIds :: nodes[d].periodRefs, periods);
  }

  function RoleOf(role: DependencyRole): Role {
    if role == AtComparison then Comparison else Baseline
  }

  lemma {:induction false} OneKey(metric: MetricId, role: Option<Role>, grouping: Grouping)
    ensures KeysOf(metric, [role], Ok(grouping)) == [Ok(Key(metric, role, grouping))]
  {
    assert [role][1..] == [];
    assert KeysOf(metric, [], Ok(grouping)) == [];
  }

  lemma {:induction false} OneChild(registry: Registry, dependencies: seq<Dependency>, parent: Option<Role>)
    requires dependencies != [] && forall d :: d in dependencies ==> d.metric in registry.definitions
    requires dependencies[0].role in {AtBaseline, AtComparison}
    requires DependencyGrouping(dependencies[0], registry) == Ok(Whole)
    ensures ChildrenOf(registry, dependencies, parent)
            == [Ok(Key(dependencies[0].metric, Some(RoleOf(dependencies[0].role)), Whole))]
              + ChildrenOf(registry, dependencies[1..], parent)
  {
    OneKey(dependencies[0].metric, Some(RoleOf(dependencies[0].role)), Whole);
    assert DependencyRoles(dependencies[0], parent) == Ok([Some(RoleOf(dependencies[0].role))]);
  }

  lemma {:induction false} TwoChildren(registry: Registry, dependencies: seq<Dependency>, parent: Option<Role>)
    requires |dependencies| == 2
    requires forall d :: d in dependencies ==>
      && d.metric in registry.definitions && d.metric == Revenue
      && d.role in {AtBaseline, AtComparison} && DependencyGrouping(d, registry) == Ok(Whole)
    ensures ChildrenOf(registry, dependencies, parent)
            == [Ok(Key(Revenue, Some(RoleOf(dependencies[0].role)), Whole)),
                Ok(Key(Revenue, Some(RoleOf(dependencies[1].role)), Whole))]
  {
    assert dependencies[0] in dependencies && dependencies[1] in dependencies;
    OneChild(registry, dependencies, parent);
    OneChild(registry, dependencies[1..], parent);
    assert dependencies[1..][1..] == [];
  }

  lemma RevenueRolesOfTwo(deps: seq<NodeId>, nodes: map<NodeId, PlanNode>, populations: map<PopulationId, Population>,
                          parents: map<Role, PopulationId>)
    requires |deps| == 2 && deps[0] in nodes && deps[1] in nodes
    requires forall k :: 0 <= k < 2 ==>
      && nodes[deps[k]].metric == Revenue && nodes[deps[k]].grouping == Whole
      && |nodes[deps[k]].populationRefs| == 1 && nodes[deps[k]].populationRefs[0] in populations
      && var p := populations[nodes[deps[k]].populationRefs[0]];
         nodes[deps[k]].periodRefs == [p.period] && p.role in parents
           && nodes[deps[k]].populationRefs[0] == parents[p.role]
    requires populations[nodes[deps[0]].populationRefs[0]].role != populations[nodes[deps[1]].populationRefs[0]].role
    ensures RevenueRoles(deps, {}, nodes, populations, parents) == Some({Baseline, Comparison})
  {
    assert deps[1..][0] == deps[1] && deps[1..][1..] == [];
    var r0, r1 :=
      populations[nodes[deps[0]].populationRefs[0]].role, populations[nodes[deps[1]].populationRefs[0]].role;
    assert {} + {r0} + {r1} == {Baseline, Comparison};
    assert RevenueRoles(deps[1..][1..], {} + {r0} + {r1}, nodes, populations, parents) == Some({} + {r0} + {r1});
    assert RevenueRoles(deps[1..], {} + {r0}, nodes, populations, parents) == Some({} + {r0} + {r1});
  }

  lemma {:induction false} RevenueChangeChildren(registry: Registry, rank: MetricId -> nat, key: Key)
    requires Governed(registry, rank) && key.metric == RevenueChange && key.metric in registry.definitions
    ensures |registry.definitions[RevenueChange].dependencies| == 2
    ensures var deps := registry.definitions[RevenueChange].dependencies;
            Children(registry, rank, key)
            == [Ok(Key(Revenue, Some(RoleOf(deps[0].role)), Whole)),
                Ok(Key(Revenue, Some(RoleOf(deps[1].role)), Whole))]
  {
    var deps := registry.definitions[RevenueChange].dependencies;
    UnfilteredDependencies(deps, key.grouping);
    assert forall d :: d in deps ==> d == deps[0] || d == deps[1];
    assert deps[0].role in {deps[0].role, deps[1].role} && deps[1].role in {deps[0].role, deps[1].role};
    TwoChildren(registry, deps, key.role);
  }

  /** d names a node of ungrouped Revenue at one period. */
  ghost predicate RevenueAt(nodes: map<NodeId, PlanNode>, d: NodeId, role: Role, baseline: string, comparison: string) {
    && d in nodes
    && nodes[d].metric == Revenue && nodes[d].grouping == Whole
    && nodes[d].populationRefs == RefsAt(true, Some(role), Whole, baseline, comparison)
    && nodes[d].periodRefs == Periods(nodes[d].populationRefs)
  }

  lemma {:induction false} RevenueChangeDependency(registry: Registry, rank: MetricId -> nat, request: AnalysisRequest,
                                                   sufficiency: SufficiencyResult, plan: Plan, i: nat, k: nat)
    requires Governed(registry, rank) && Built(registry, rank, request, sufficiency, plan) && i < |plan.nodes|
    requires plan.nodes[i].metric == RevenueChange && k < 2
    ensures RevenueChange in registry.definitions && |registry.definitions[RevenueChange].dependencies| == 2
    ensures |plan.nodes[i].dependencyIds| == 2
    ensures RevenueAt(NodeById(plan.nodes), plan.nodes[i].dependencyIds[k],
                      RoleOf(registry.definitions[RevenueChange].dependencies[k].role),
                      request.baselinePeriod, request.comparisonPeriod)
  {
    NodeFactsHold(registry, rank, request, sufficiency, plan, i);
    RevenueChangeChildren(registry, rank, KeyOf(plan.nodes[i].id));
    BuiltTopological(registry, rank, request, sufficiency, plan);
    var j := DependencyIsNode(plan.nodes, i, plan.nodes[i].dependencyIds[k]);
    NodeFactsHold(registry, rank, request, sufficiency, plan, j);
    var dependency := registry.definitions[RevenueChange].dependencies[k];
    assert dependency in registry.definitions[RevenueChange].dependencies;
  }

  lemma RevenueChangeFromFacts(node: PlanNode, nodes: map<NodeId, PlanNode>, roles: seq<Role>, baseline: string,
                               comparison: string)
    requires node.populationRefs
      == [PopulationId(Baseline, Whole, baseline), PopulationId(Comparison, Whole, comparison)]
    requires |roles| == 2 && |node.dependencyIds| == 2 && roles[0] != roles[1]
    requires forall k :: 0 <= k < 2 ==> RevenueAt(nodes, node.dependencyIds[k], roles[k], baseline, comparison)
    ensures forall p :: p in node.populationRefs ==> p in PopulationById(Populations(baseline, comparison))
    ensures RevenueChangeAccepted(node, nodes, PopulationById(Populations(baseline, comparison)))
  {
    PopulationLookup(baseline, comparison);
    RefsKnown(false, None, Whole, baseline, comparison);
    var populations := PopulationById(Populations(baseline, comparison));
    assert forall p :: p in node.populationRefs ==> p in RefsAt(false, None, Whole, baseline, comparison);
    assert node.populationRefs[0] in node.populationRefs && node.populationRefs[1] in node.populationRefs;
    var parents := map[Baseline := node.populationRefs[0], Comparison := node.populationRefs[1]];
    RevenueRolesOfTwo(node.dependencyIds, nodes, populations, parents);
  }

  lemma BuiltPopulations(registry: Registry, rank: MetricId -> nat, request: AnalysisRequest,
                         sufficiency: SufficiencyResult, plan: Plan)
    requires Ranked(registry, rank) && Built(registry, rank, request, sufficiency, plan)
    ensures plan.populations == Populations(request.baselinePeriod, request.comparisonPeriod)
  {}

  /** A Revenue Change node reads both ungrouped populations. */
  lemma RevenueChangeDraft(registry: Registry, rank: MetricId -> nat, request: AnalysisRequest,
                           sufficiency: SufficiencyResult, plan: Plan, i: nat)
    requires Governed(registry, rank) && Built(registry, rank, request, sufficiency, plan) && i < |plan.nodes|
    requires plan.nodes[i].metric == RevenueChange
    ensures plan.nodes[i].populationRefs
         == [PopulationId(Baseline, Whole, request.baselinePeriod),
             PopulationId(Comparison, Whole, request.comparisonPeriod)]
  {
    hide Built, DependencyFacts;
    NodeFactsHold(registry, rank, request, sufficiency, plan, i);
  }

  lemma RevenueChangeRoles(registry: Registry, rank: MetricId -> nat)
    requires Governed(registry, rank) && RevenueChange in registry.definitions
    ensures var deps := registry.definitions[RevenueChange].dependencies;
      |deps| == 2 && RoleOf(deps[0].role) != RoleOf(deps[1].role)
  {
    var deps := registry.definitions[RevenueChange].dependencies;
    assert AtBaseline in {deps[0].role, deps[1].role} && AtComparison in {deps[0].role, deps[1].role};
  }

  lemma RevenueChangeHolds(registry: Registry, rank: MetricId -> nat, request: AnalysisRequest,
                           sufficiency: SufficiencyResult, plan: Plan, i: nat)
    requires Governed(registry, rank) && Built(registry, rank, request, sufficiency, plan) && i < |plan.nodes|
    requires plan.nodes[i].metric == RevenueChange
    ensures forall p :: p in plan.nodes[i].populationRefs ==> p in PopulationById(plan.populations)
    ensures RevenueChangeAccepted(plan.nodes[i], NodeById(plan.nodes), PopulationById(plan.populations))
  {
    BuiltPopulations(registry, rank, request, sufficiency, plan);
    hide Built, Governed, RevenueChangeAccepted, RevenueAt, NodeById, PopulationById, Populations, RoleOf;
    RevenueChangeDependency(registry, rank, request, sufficiency, plan, i, 0);
    RevenueChangeDependency(registry, rank, request, sufficiency, plan, i, 1);
    RevenueChangeDraft(registry, rank, request, sufficiency, plan, i);
    RevenueChangeRoles(registry, rank);
    var deps := registry.definitions[RevenueChange].dependencies;
    var roles := [RoleOf(deps[0].role), RoleOf(deps[1].role)];
    RevenueChangeFromFacts(plan.nodes[i], NodeById(plan.nodes), roles, request.baselinePeriod,
                           request.comparisonPeriod);
  }

  lemma {:induction false} EligibleIdsDistinct(requested: seq<MetricId>, sufficiency: SufficiencyResult)
    requires NoDuplicates(requested)
    ensures NoDuplicates(EligibleIds(requested, sufficiency))
  {
    if requested != [] {
      EligibleIdsDistinct(requested[1..], sufficiency);
      assert requested[0] !in requested[1..];
      assert forall m :: m in EligibleIds(requested[1..], sufficiency) ==> m in requested[1..];
    }
  }

  lemma {:induction false} RefsMatch(populations: seq<Population>)
    ensures (set p | p in PopulationIds(populations)) == PopulationById(populations).Keys
  {
    var refs := PopulationIds(populations);
    PopulationByIdFinds(populations);
    forall id | id in refs ensures id in PopulationById(populations) {
      var i :| 0 <= i < |refs| && refs[i] == id;
      assert populations[i].id == id;
    }
    forall id | id in PopulationById(populations) ensures id in refs {
      var i :| 0 <= i < |populations| && populations[i] == PopulationById(populations)[id];
      assert refs[i] == id;
    }
  }

  lemma HeaderHolds(registry: Registry, rank: MetricId -> nat, request: AnalysisRequest, sufficiency: SufficiencyResult,
                    plan: Plan)
    requires Ranked(registry, rank) && Built(registry, rank, request, sufficiency, plan)
    ensures HeaderAccepted(plan, registry) <==> NoDuplicates(plan.requested)
  {
    UniqueLength(plan.requested);
    UniqueLength(plan.eligible);
    if NoDuplicates(plan.requested) { EligibleIdsDistinct(plan.requested, sufficiency); }
    RefsMatch(plan.populations);
  }

  lemma RootHolds(registry: Registry, rank: MetricId -> nat, request: AnalysisRequest, sufficiency: SufficiencyResult,
                  plan: Plan, m: MetricId)
    requires Ranked(registry, rank) && Built(registry, rank, request, sufficiency, plan) && m in plan.eligible
    ensures RootPresent(plan.nodes, m)
  {
    hide Walked;
    var keys := RootKeys(registry, m, request.grouping).value;
    assert keys[0] in keys;
    var root := Compile(registry, rank, plan.populations, keys[0]).value;
    assert IsRoot(registry, rank, plan.populations, m, request.grouping, root);
    RootIsNode(registry, rank, plan.populations, Drafts(plan.nodes), NodeKeys(plan.nodes), plan.requested,
               request.grouping, m, root);
    var i :| 0 <= i < |plan.nodes| && Drafts(plan.nodes)[i].id == root && Drafts(plan.nodes)[i].metric == m;
    assert plan.nodes[i] in plan.nodes && root in Reach(root);
    assert m in plan.nodes[i].authorized;
  }

  /**
   * Any plan whose construction reaches the end passes the validator exactly when the requested metrics are distinct.
   */
  lemma BuilderSatisfiesValidator(registry: Registry, rank: MetricId -> nat, request: AnalysisRequest,
                                  sufficiency: SufficiencyResult, plan: Plan)
    requires Governed(registry, rank) && Built(registry, rank, request, sufficiency, plan)
    ensures Accepts(plan, registry) <==> NoDuplicates(RequestedIds(request.metrics))
  {
    hide Built, HeaderAccepted, NodeAccepted, RootPresent, NodeById, PopulationById;
    BuiltRequested(registry, rank, request, sufficiency, plan);
    HeaderHolds(registry, rank, request, sufficiency, plan);
    forall m | m in plan.eligible ensures RootPresent(plan.nodes, m) {
      RootHolds(registry, rank, request, sufficiency, plan, m);
    }
    forall n | n in plan.nodes
      ensures NodeAccepted(n, NodeById(plan.nodes), PopulationById(plan.populations), plan.eligible, registry)
    {
      var i :| 0 <= i < |plan.nodes| && plan.nodes[i] == n;
      NodeHolds(registry, rank, request, sufficiency, plan, i);
    }
  }

  lemma BuiltRequested(registry: Registry, rank: MetricId -> nat, request: AnalysisRequest,
                       sufficiency: SufficiencyResult, plan: Plan)
    requires Ranked(registry, rank) && Built(registry, rank, request, sufficiency, plan)
    ensures plan.requested == RequestedIds(request.metrics)
  {}

  lemma NodeDefined(registry: Registry, n: PlanNode, request: AnalysisRequest)
    requires NodeFacts(registry, n, request.baselinePeriod, request.comparisonPeriod)
    ensures n.metric in registry.definitions && n.version == registry.definitions[n.metric].version
    ensures GroupingError(registry.definitions[n.metric], n.grouping).None?
  {}

  /** Every node of a built plan passes the checks of the validator. */
  lemma NodeHolds(registry: Registry, rank: MetricId -> nat, request: AnalysisRequest, sufficiency: SufficiencyResult,
                  plan: Plan, i: nat)
    requires Governed(registry, rank) && Built(registry, rank, request, sufficiency, plan) && i < |plan.nodes|
    ensures NodeAccepted(plan.nodes[i], NodeById(plan.nodes), PopulationById(plan.populations), plan.eligible, registry)
  {
    var n := plan.nodes[i];
    BuiltPopulations(registry, rank, request, sufficiency, plan);
    hide Built, NodeAccepted, StateAccepted, AovAccepted, RevenueChangeAccepted, NodeFacts, DependencyFacts, Governed,
         GroupingError, Populations, PopulationById, NodeById;
    NodeFactsHold(registry, rank, request, sufficiency, plan, i);
    NodeDefined(registry, n, request);
    StateHolds(registry, rank, request, sufficiency, plan, i);
    PopulationsHold(registry, n, request.baselinePeriod, request.comparisonPeriod);
    if n.metric == Aov { AovHolds(registry, rank, request, sufficiency, plan, i); }
    if n.metric == RevenueChange { RevenueChangeHolds(registry, rank, request, sufficiency, plan, i); }
    AcceptedFrom(n, NodeById(plan.nodes), PopulationById(plan.populations), plan.eligible, registry);
  }

  lemma AcceptedFrom(n: PlanNode, nodes: map<NodeId, PlanNode>, populations: map<PopulationId, Population>,
                     eligible: seq<MetricId>, registry: Registry)
    requires n.metric in registry.definitions && n.version == registry.definitions[n.metric].version
    requires GroupingError(registry.definitions[n.metric], n.grouping).None?
    requires (forall d :: d in n.dependencyIds ==> d in nodes) && StateAccepted(n, nodes, eligible)
    requires forall p :: p in n.populationRefs ==> p in populations && populations[p].grouping == n.grouping
    requires |n.periodRefs| == |n.populationRefs|
    requires forall i :: 0 <= i < |n.periodRefs| ==> populations[n.populationRefs[i]].period == n.periodRefs[i]
    requires n.metric == Aov ==> AovAccepted(n, nodes)
    requires n.metric == RevenueChange ==> RevenueChangeAccepted(n, nodes, populations)
    ensures NodeAccepted(n, nodes, populations, eligible, registry)
  {
    hide StateAccepted, AovAccepted, RevenueChangeAccepted, GroupingError;
  }

  /** build_execution_plan: construct, then validate. With distinct requested metrics the self-check never raises. */
  method BuildExecutionPlan(registry: Registry, ghost rank: MetricId -> nat, request: AnalysisRequest,
                            sufficiency: SufficiencyResult)
    returns (r: Result<Plan, PlanningError>)
    requires Ranked(registry, rank)
    ensures r.Ok? ==> Built(registry, rank, request, sufficiency, r.value) && Sound(r.value, registry)
    ensures r.Err? && !Admissible(registry, request, sufficiency) ==>
      Admission(registry, request, sufficiency) == Some(r.error)
    ensures r.Err? && !Refused(registry, rank, request, sufficiency) ==> r.error == SelfCheckFailed
    ensures Governed(registry, rank) ==>
      (r.Ok? <==> !Refused(registry, rank, request, sufficiency) && NoDuplicates(RequestedIds(request.metrics)))
  {
    r := Construct(registry, rank, request, sufficiency);
    if r.Ok? {
      if Governed(registry, rank) {
        BuilderSatisfiesValidator(registry, rank, request, sufficiency, r.value);
      }
      var accepted := Validate(r.value, registry);
      if !accepted {
        r := Err(SelfCheckFailed);
      }
    }
  }
}
