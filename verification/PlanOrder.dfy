/** In which order a built plan lists its metrics, populations, dependencies and blocked metrics. */
module PlanOrder {
  import opened Common
  import opened PlanModel
  import opened PlanBuilder
  import opened PlanCompilation
  import opened ExecutionPlanning
  import opened PlanSelfCheck
  import opened PlanContents

  // ---- The description ----

  /**
   * The k-th dependency identity is called for by entry from[k]: entry by entry, the baseline before the comparison.
   */
  ghost predicate ListedBy(registry: Registry, dependencies: seq<Dependency>, n: PlanNode, from: seq<nat>) {
    && |from| == |n.dependencyIds|
    && (forall k :: 0 <= k < |from| ==>
         from[k] < |dependencies| && Applies(dependencies[from[k]], n.grouping)
         && CalledFor(registry, dependencies[from[k]], n.id.role, n.dependencyIds[k]))
    && forall k, l :: 0 <= k < l < |from| ==>
         from[k] < from[l]
         || (from[k] == from[l] && n.dependencyIds[k].role == Some(Baseline)
             && n.dependencyIds[l].role == Some(Comparison))
  }

  /** The three groupings in turn, each at the baseline and then at the comparison period. */
  ghost predicate PairedInOrder(populations: seq<Population>) {
    && |populations| == 6
    && forall i :: 0 <= i < 6 ==>
         && populations[i].role == (if i % 2 == 0 then Baseline else Comparison)
         && populations[i].grouping == if i < 2 then Whole else if i < 4 then ByProduct else ByCategory
  }

  /** Some blocked node of metric x comes before all those of metric y. */
  ghost predicate BlockedBefore(nodes: seq<PlanNode>, x: MetricId, y: MetricId) {
    exists k :: BlockedAt(nodes, k, x) && forall l :: BlockedAt(nodes, l, y) ==> k < l
  }

  ghost predicate BlockedAt(nodes: seq<PlanNode>, k: int, m: MetricId) {
    0 <= k < |nodes| && nodes[k].state == Blocked && nodes[k].metric == m
  }

  ghost predicate NodeInOrder(registry: Registry, requested: seq<MetricId>, n: PlanNode) {
    && n.metric in registry.definitions
    && (exists from :: ListedBy(registry, registry.definitions[n.metric].dependencies, n, from))
    && KeepsOrder(n.authorized, requested)
    && FirstsOf(n.dependencyMetrics, MetricsOf(n.dependencyIds))
    && forall i, j :: 0 <= i < j < |n.populationRefs| ==>
         n.populationRefs[i].role == Baseline && n.populationRefs[j].role == Comparison
  }

  /**
   * The identities of the nodes that stand for the request: metric by metric, the baseline before the comparison where
   * both are planned.
   */
  ghost predicate RootsInOrder(registry: Registry, requested: Grouping, metrics: seq<MetricReference>,
                               roots: seq<NodeId>) {
    if metrics == [] then roots == []
    else
      var n := |metrics| - 1;
      && metrics[n].metric in registry.definitions
      && var definition := registry.definitions[metrics[n].metric];
         var k := if definition.period == SinglePeriod then 2 else 1;
         && |roots| >= k && RootsInOrder(registry, requested, metrics[..n], roots[..|roots| - k])
         && (forall i :: |roots| - k <= i < |roots| ==>
              roots[i].metric == metrics[n].metric && PlannedAt(definition, requested, roots[i].grouping))
         && roots[|roots| - 1].role == (if k == 2 then Some(Comparison) else None)
         && (k == 2 ==> roots[|roots| - 2].role == Some(Baseline))
  }

  /** The nodes are met on a walk through the root trees, dependencies first, and stand where they are first met. */
  ghost predicate WalkedInOrder(registry: Registry, request: AnalysisRequest, nodes: seq<PlanNode>) {
    exists roots :: RootsInOrder(registry, request.grouping, request.metrics, roots)
                    && FirstsOf(IdsOf(nodes), PostAll(roots))
  }

  ghost predicate InOrder(registry: Registry, request: AnalysisRequest, plan: Plan) {
    && |plan.requested| == |request.metrics|
    && (forall i :: 0 <= i < |plan.requested| ==> plan.requested[i] == request.metrics[i].metric)
    && KeepsOrder(plan.eligible, plan.requested)
    && PairedInOrder(plan.populations)
    && |plan.populationRefs| == 6 && (forall i :: 0 <= i < 6 ==> plan.populationRefs[i] == plan.populations[i].id)
    && WalkedInOrder(registry, request, plan.nodes)
    && (forall n :: n in plan.nodes ==> NodeInOrder(registry, plan.requested, n))
    && (forall m :: m in plan.blocked <==> exists k :: BlockedAt(plan.nodes, k, m))
    && forall i, j :: 0 <= i < j < |plan.blocked| ==> BlockedBefore(plan.nodes, plan.blocked[i], plan.blocked[j])
  }

  // ---- Dependencies ----

  /** The roles of one dependency, in order. */
  lemma RolesInOrder(d: Dependency, parent: Option<Role>)
    requires DependencyRoles(d, parent).Ok?
    ensures forall i, j :: 0 <= i < j < |DependencyRoles(d, parent).value| ==>
      DependencyRoles(d, parent).value[i] == Some(Baseline) && DependencyRoles(d, parent).value[j] == Some(Comparison)
  {}

  lemma {:induction false} KeysInOrder(metric: MetricId, roles: seq<Option<Role>>, g: Result<Grouping, PlanningError>)
    ensures var keys := KeysOf(metric, roles, g);
      && |keys| == |roles|
      && forall i :: 0 <= i < |keys| && keys[i].Ok? ==> keys[i].value.role == roles[i]
  {
    if roles != [] { KeysInOrder(metric, roles[1..], g); }
  }

  /** The children of one entry. */
  lemma EntryInOrder(registry: Registry, d: Dependency, parent: Option<Role>)
    requires d.metric in registry.definitions && NoneFails(KeysFor(registry, d, parent))
    ensures var keys := KeysFor(registry, d, parent);
      && (forall i :: 0 <= i < |keys| ==> Calls(registry, d, parent, keys[i].value))
      && forall i, j :: 0 <= i < j < |keys| ==>
           keys[i].value.role == Some(Baseline) && keys[j].value.role == Some(Comparison)
  {
    var keys := KeysFor(registry, d, parent);
    forall i | 0 <= i < |keys| ensures Calls(registry, d, parent, keys[i].value) {
      assert keys[i] in keys && keys[i] == Ok(keys[i].value);
      KeysForAre(registry, d, parent, keys[i].value);
    }
    assert keys != [] ==> keys[0] in keys && keys[0].Ok?;
    if DependencyRoles(d, parent).Ok? {
      RolesInOrder(d, parent);
      KeysInOrder(d.metric, DependencyRoles(d, parent).value, DependencyGrouping(d, registry));
    }
  }

  predicate Calls(registry: Registry, d: Dependency, parent: Option<Role>, k: Key) {
    k.metric == d.metric && RoleFits(d, parent, k.role) && GroupingFits(registry, d, k.grouping)
  }

  /** Which entry calls for which child. */
  ghost predicate Labels(registry: Registry, dependencies: seq<Dependency>, g: Grouping, parent: Option<Role>,
                         children: seq<Result<Key, PlanningError>>, from: seq<nat>) {
    && |from| == |children|
    && (forall k :: 0 <= k < |from| ==>
         from[k] < |dependencies| && Applies(dependencies[from[k]], g) && children[k].Ok?
         && Calls(registry, dependencies[from[k]], parent, children[k].value))
    && forall k, l :: 0 <= k < l < |from| ==>
         from[k] < from[l]
         || (from[k] == from[l] && children[k].value.role == Some(Baseline)
             && children[l].value.role == Some(Comparison))
  }

  /** The children the first entry adds. */
  function FirstKeys(registry: Registry, d: Dependency, g: Grouping,
                     parent: Option<Role>): seq<Result<Key, PlanningError>>
    requires d.metric in registry.definitions
  {
    if Applies(d, g) then KeysFor(registry, d, parent) else []
  }

  lemma FirstKeysInOrder(registry: Registry, d: Dependency, g: Grouping, parent: Option<Role>)
    requires d.metric in registry.definitions && NoneFails(FirstKeys(registry, d, g, parent))
    ensures CallsInOrder(registry, d, g, parent, FirstKeys(registry, d, g, parent))
  {
    hide KeysFor, Calls;
    if Applies(d, g) { EntryInOrder(registry, d, parent); }
  }

  /** The keys are what the entry, if it applies at all, calls for, the baseline before the comparison. */
  ghost predicate CallsInOrder(registry: Registry, d: Dependency, g: Grouping, parent: Option<Role>,
                               keys: seq<Result<Key, PlanningError>>) {
    && (keys != [] ==> Applies(d, g)) && NoneFails(keys)
    && (forall i :: 0 <= i < |keys| && keys[i].Ok? ==> Calls(registry, d, parent, keys[i].value))
    && forall i, j :: 0 <= i < j < |keys| && keys[i].Ok? && keys[j].Ok? ==>
         keys[i].value.role == Some(Baseline) && keys[j].value.role == Some(Comparison)
  }

  lemma FirstSplit(registry: Registry, dependencies: seq<Dependency>, g: Grouping, parent: Option<Role>)
    requires dependencies != [] && forall d :: d in dependencies ==> d.metric in registry.definitions
    ensures dependencies[0] in dependencies && forall d :: d in dependencies[1..] ==> d in dependencies
    ensures ChildrenOf(registry, EffectiveDependencies(dependencies, g), parent)
         == FirstKeys(registry, dependencies[0], g, parent)
            + ChildrenOf(registry, EffectiveDependencies(dependencies[1..], g), parent)
  {
    var effective := EffectiveDependencies(dependencies[1..], g);
    var later := ChildrenOf(registry, effective, parent);
    if Applies(dependencies[0], g) {
      var all := [dependencies[0]] + effective;
      assert all[1..] == effective && EffectiveDependencies(dependencies, g) == all;
      ChildrenSplit(registry, all, parent);
    } else {
      assert [] + later == later;
    }
  }

  lemma {:induction false} ChildrenLabelled(registry: Registry, dependencies: seq<Dependency>, g: Grouping,
                                            parent: Option<Role>) returns (from: seq<nat>)
    requires forall d :: d in dependencies ==> d.metric in registry.definitions
    requires NoneFails(ChildrenOf(registry, EffectiveDependencies(dependencies, g), parent))
    ensures Labels(registry, dependencies, g, parent,
                   ChildrenOf(registry, EffectiveDependencies(dependencies, g), parent), from)
  {
    if dependencies == [] {
      from := [];
    } else {
      hide ChildrenOf, EffectiveDependencies, FirstKeys, Calls, CallsInOrder, NoneFails, Labels, Applies;
      var d, rest := dependencies[0], dependencies[1..];
      FirstSplit(registry, dependencies, g, parent);
      var keys := FirstKeys(registry, d, g, parent);
      var later := ChildrenOf(registry, EffectiveDependencies(rest, g), parent);
      PartsFail(keys, later);
      var after := ChildrenLabelled(registry, rest, g, parent);
      FirstKeysInOrder(registry, d, g, parent);
      from := FirstLabels(registry, dependencies, g, parent, keys, later, after);
    }
  }

  lemma PartsFail(a: seq<Result<Key, PlanningError>>, b: seq<Result<Key, PlanningError>>)
    requires NoneFails(a + b)
    ensures NoneFails(a) && NoneFails(b)
  {
    forall c | c in a ensures c.Ok? { assert c in a + b; }
    forall c | c in b ensures c.Ok? { assert c in a + b; }
  }

  /** The children of the first entry get label 0, and the others one more than among the rest. */
  lemma FirstLabels(registry: Registry, dependencies: seq<Dependency>, g: Grouping, parent: Option<Role>,
                    keys: seq<Result<Key, PlanningError>>, later: seq<Result<Key, PlanningError>>, after: seq<nat>)
    returns (from: seq<nat>)
    requires dependencies != [] && CallsInOrder(registry, dependencies[0], g, parent, keys)
    requires Labels(registry, dependencies[1..], g, parent, later, after)
    ensures Labels(registry, dependencies, g, parent, keys + later, from)
  {
    hide Calls, Applies;
    var n := |keys|;
    var all := keys + later;
    from := seq(n, i requires 0 <= i < n => 0) + seq(|after|, i requires 0 <= i < |after| => after[i] + 1);
    forall k | 0 <= k < |from|
      ensures from[k] < |dependencies| && Applies(dependencies[from[k]], g) && all[k].Ok?
      ensures Calls(registry, dependencies[from[k]], parent, all[k].value)
    {
      if k < n {
        assert all[k] == keys[k] && keys[k] in keys;
      } else {
        assert all[k] == later[k - n] && dependencies[1..][after[k - n]] == dependencies[from[k]];
      }
    }
    forall k, l | 0 <= k < l < |from|
      ensures from[k] < from[l]
        || (from[k] == from[l] && all[k].value.role == Some(Baseline) && all[l].value.role == Some(Comparison))
    {
      if k >= n { assert all[k] == later[k - n] && all[l] == later[l - n]; }
    }
  }

  // ---- Nodes ----

  lemma DependenciesListed(registry: Registry, rank: MetricId -> nat, populations: seq<Population>, n: PlanNode)
    requires Ranked(registry, rank) && DependencyFacts(registry, rank, populations, n.id)
    requires n.metric in registry.definitions && n.dependencyIds == n.id.deps
    requires n.id.metric == n.metric && n.id.grouping == n.grouping
    ensures exists from :: ListedBy(registry, registry.definitions[n.metric].dependencies, n, from)
  {
    var children := Children(registry, rank, KeyOf(n.id));
    var dependencies := registry.definitions[n.metric].dependencies;
    assert children == ChildrenOf(registry, EffectiveDependencies(dependencies, n.grouping), n.id.role);
    hide Children, ChildrenOf, EffectiveDependencies, RoleFits, GroupingFits, Labels, ListedBy;
    assert NoneFails(children) by {
      forall c | c in children ensures c.Ok? { var i :| 0 <= i < |children| && children[i] == c; }
    }
    var from := ChildrenLabelled(registry, dependencies, n.grouping, n.id.role);
    LabelsList(registry, dependencies, n, children, from);
  }

  lemma LabelsList(registry: Registry, dependencies: seq<Dependency>, n: PlanNode,
                   children: seq<Result<Key, PlanningError>>, from: seq<nat>)
    requires Labels(registry, dependencies, n.grouping, n.id.role, children, from)
    requires |n.dependencyIds| == |children|
    requires forall k :: 0 <= k < |children| ==> children[k].Ok? && KeyOf(n.dependencyIds[k]) == children[k].value
    ensures ListedBy(registry, dependencies, n, from)
  {
    hide RoleFits, GroupingFits, Applies;
  }

  lemma NodesInOrder(registry: Registry, rank: MetricId -> nat, request: AnalysisRequest,
                     sufficiency: SufficiencyResult, plan: Plan, i: nat)
    requires Ranked(registry, rank) && Built(registry, rank, request, sufficiency, plan) && i < |plan.nodes|
    ensures NodeInOrder(registry, plan.requested, plan.nodes[i])
  {
    var n := plan.nodes[i];
    hide Built, KeepsOrder, FirstsOf, Unique, MetricsOf, DependencyFacts, NodeFacts, ListedBy;
    NodeFactsHold(registry, rank, request, sufficiency, plan, i);
    NodeFactsBasics(registry, n, request);
    RefsInOrder(registry, n, request);
    DraftMetrics(registry, rank, request, sufficiency, plan, i);
    UniqueFirsts(MetricsOf(n.dependencyIds));
    ServesInOrder(registry, rank, request, sufficiency, plan, i);
    DependenciesListed(registry, rank, plan.populations, n);
  }

  lemma RefsInOrder(registry: Registry, n: PlanNode, request: AnalysisRequest)
    requires NodeFacts(registry, n, request.baselinePeriod, request.comparisonPeriod)
    ensures forall i, j :: 0 <= i < j < |n.populationRefs| ==>
      n.populationRefs[i].role == Baseline && n.populationRefs[j].role == Comparison
  {}

  lemma ServesInOrder(registry: Registry, rank: MetricId -> nat, request: AnalysisRequest,
                      sufficiency: SufficiencyResult, plan: Plan, i: nat)
    requires Ranked(registry, rank) && Built(registry, rank, request, sufficiency, plan) && i < |plan.nodes|
    ensures KeepsOrder(plan.nodes[i].authorized, plan.requested)
  {
    hide Compiled, Constructible, Admissible, AuthorizationExact, BlockedExplained, StatesAgree, KeepsOrder, Walked;
  }

  lemma DraftMetrics(registry: Registry, rank: MetricId -> nat, request: AnalysisRequest,
                     sufficiency: SufficiencyResult, plan: Plan, i: nat)
    requires Ranked(registry, rank) && Built(registry, rank, request, sufficiency, plan) && i < |plan.nodes|
    ensures plan.nodes[i].dependencyMetrics == Unique(MetricsOf(plan.nodes[i].dependencyIds))
  {
    hide RequestedClosure, Closure, Compile, Admissible, Constructible, BlockedExplained, PopulationRefs, PeriodRefs,
         Unique, MetricsOf, Walked;
    assert Entry(registry, rank, plan.populations, Drafts(plan.nodes), NodeKeys(plan.nodes), i);
  }

  // ---- The order of the nodes ----

  lemma {:induction false} ExtendIsUnique(more: seq<NodeId>)
    ensures Extend([], more) == Unique(more)
  {
    if more != [] {
      var n := |more| - 1;
      ExtendIsUnique(more[..n]);
      assert more == more[..n] + [more[n]];
      assert [] + Unique(more[..n]) == Unique(more[..n]);
    }
  }

  /** The identities of one requested metric. */
  ghost predicate RootsOfOne(registry: Registry, requested: Grouping, m: MetricId, roots: seq<NodeId>)
    requires m in registry.definitions
  {
    var definition := registry.definitions[m];
    && |roots| == (if definition.period == SinglePeriod then 2 else 1)
    && (forall i :: 0 <= i < |roots| ==> roots[i].metric == m && PlannedAt(definition, requested, roots[i].grouping))
    && roots[|roots| - 1].role == (if |roots| == 2 then Some(Comparison) else None)
    && (|roots| == 2 ==> roots[0].role == Some(Baseline))
  }

  lemma ListedRoots(registry: Registry, rank: MetricId -> nat, populations: seq<Population>, m: MetricId,
                    requested: Grouping, ids: seq<NodeId>)
    requires Ranked(registry, rank) && m in registry.definitions && RootKeys(registry, m, requested).Ok?
    requires Listed(registry, rank, populations, RootKeys(registry, m, requested).value, ids)
    ensures RootsOfOne(registry, requested, m, ids)
  {
    hide Compile, PlannedAt;
    var keys := RootKeys(registry, m, requested).value;
    forall i | 0 <= i < |keys| ensures KeyOf(ids[i]) == keys[i] {
      CompiledKey(registry, rank, populations, keys[i]);
    }
    forall k | k in keys ensures PlannedAt(registry.definitions[m], requested, k.grouping) {
      RootKeysAre(registry, m, requested, k);
    }
  }

  lemma LastRoots(registry: Registry, requested: Grouping, metrics: seq<MetricReference>, n: nat, before: seq<NodeId>,
                  last: seq<NodeId>)
    requires |metrics| == n + 1 && metrics[n].metric in registry.definitions
    requires RootsInOrder(registry, requested, metrics[..n], before)
    requires RootsOfOne(registry, requested, metrics[n].metric, last)
    ensures RootsInOrder(registry, requested, metrics, before + last)
  {
    hide PlannedAt;
    assert |last| > 0;
    var roots := before + last;
    assert roots[..|roots| - |last|] == before;
    assert forall i :: |before| <= i < |roots| ==> roots[i] == last[i - |before|];
  }

  lemma RequestedLast(metrics: seq<MetricReference>, n: nat)
    requires |metrics| == n + 1
    ensures var ids := RequestedIds(metrics);
      |ids| == n + 1 && ids[..n] == RequestedIds(metrics[..n]) && ids[n] == metrics[n].metric && ids[n] in ids
    ensures forall m :: m in RequestedIds(metrics[..n]) ==> m in RequestedIds(metrics)
  {}

  lemma FlatLast(registry: Registry, rank: MetricId -> nat, populations: seq<Population>, requested: seq<MetricId>,
                 n: nat, grouping: Grouping, flat: seq<NodeId>) returns (from: nat)
    requires Ranked(registry, rank) && forall m :: m in requested ==> m in registry.definitions
    requires |requested| == n + 1 && FlatRoots(registry, rank, populations, requested, grouping, flat)
    ensures requested[n] in registry.definitions && forall m :: m in requested[..n] ==> m in registry.definitions
    ensures from <= |flat| && FlatRoots(registry, rank, populations, requested[..n], grouping, flat[..from])
    ensures RootKeys(registry, requested[n], grouping).Ok?
    ensures Listed(registry, rank, populations, RootKeys(registry, requested[n], grouping).value, flat[from..])
  {
    hide RootKeys, Listed;
    from := |flat| - |RootKeys(registry, requested[n], grouping).value|;
  }

  lemma {:induction false} FlatInOrder(registry: Registry, rank: MetricId -> nat, populations: seq<Population>,
                                       metrics: seq<MetricReference>, requested: Grouping, flat: seq<NodeId>)
    requires Ranked(registry, rank) && forall m :: m in RequestedIds(metrics) ==> m in registry.definitions
    requires FlatRoots(registry, rank, populations, RequestedIds(metrics), requested, flat)
    ensures RootsInOrder(registry, requested, metrics, flat)
  {
    if metrics != [] {
      hide RootsOfOne, Listed, RootsInOrder, RootKeys, RequestedIds, FlatRoots;
      var n := |metrics| - 1;
      var m := metrics[n].metric;
      RequestedLast(metrics, n);
      var from := FlatLast(registry, rank, populations, RequestedIds(metrics), n, requested, flat);
      FlatInOrder(registry, rank, populations, metrics[..n], requested, flat[..from]);
      ListedRoots(registry, rank, populations, m, requested, flat[from..]);
      LastRoots(registry, requested, metrics, n, flat[..from], flat[from..]);
      assert flat[..from] + flat[from..] == flat;
    }
  }

  lemma NodesWalked(registry: Registry, rank: MetricId -> nat, request: AnalysisRequest,
                    sufficiency: SufficiencyResult, plan: Plan)
    requires Ranked(registry, rank) && Built(registry, rank, request, sufficiency, plan)
    ensures WalkedInOrder(registry, request, plan.nodes)
  {
    hide Compiled, Constructible, Admissible, AuthorizationExact, BlockedExplained, StatesAgree, RequestedIds, FirstsOf,
         FlatRoots, RootsInOrder, IdsOf;
    var flat :| FlatRoots(registry, rank, plan.populations, plan.requested, request.grouping, flat)
                && IdsOf(plan.nodes) == Extend([], PostAll(flat));
    FlatInOrder(registry, rank, plan.populations, request.metrics, request.grouping, flat);
    ExtendIsUnique(PostAll(flat));
    UniqueFirsts(PostAll(flat));
  }

  // ---- The lists of the plan ----

  lemma {:induction false} EligibleInOrder(requested: seq<MetricId>, sufficiency: SufficiencyResult)
    ensures KeepsOrder(EligibleIds(requested, sufficiency), requested)
  {
    if requested != [] {
      hide Eligible;
      EligibleInOrder(requested[1..], sufficiency);
      KeepsOrderStep(EligibleIds(requested[1..], sufficiency), requested);
      assert [] + EligibleIds(requested[1..], sufficiency) == EligibleIds(requested[1..], sufficiency);
    }
  }

  /** The blocked metrics follow their nodes. */
  lemma {:induction false} BlockedFollow(nodes: seq<PlanNode>, x: MetricId, y: MetricId)
    requires FoundFirst(BlockedMetrics(nodes), x, y)
    ensures BlockedBefore(nodes, x, y)
  {
    if nodes != [] {
      var rest := BlockedMetrics(nodes[1..]);
      assert BlockedMetrics(nodes) == if nodes[0].state == Blocked then [nodes[0].metric] + rest else rest by {
        assert [] + rest == rest;
      }
      hide BlockedMetrics;
      if nodes[0].state == Blocked { FirstInRest(nodes[0].metric, rest, x, y); }
      if nodes[0].state == Blocked && nodes[0].metric == x {
        assert BlockedAt(nodes, 0, x);
      } else {
        BlockedFollow(nodes[1..], x, y);
        BeforeInRest(nodes, x, y);
      }
    }
  }

  lemma FirstInRest(m: MetricId, rest: seq<MetricId>, x: MetricId, y: MetricId)
    requires FoundFirst([m] + rest, x, y)
    ensures m != y && (m != x ==> FoundFirst(rest, x, y))
  {
    var s := [m] + rest;
    var k :| 0 <= k < |s| && s[k] == x && forall l :: 0 <= l <= k ==> s[l] != y;
    assert s[0] == m;
    if m != x {
      assert rest[k - 1] == x && forall l :: 0 <= l <= k - 1 ==> rest[l] == s[l + 1];
    }
  }

  lemma BeforeInRest(nodes: seq<PlanNode>, x: MetricId, y: MetricId)
    requires nodes != [] && BlockedBefore(nodes[1..], x, y) && !BlockedAt(nodes, 0, y)
    ensures BlockedBefore(nodes, x, y)
  {
    var rest := nodes[1..];
    var k :| BlockedAt(rest, k, x) && forall l :: BlockedAt(rest, l, y) ==> k < l;
    assert BlockedAt(nodes, k + 1, x);
    forall l | BlockedAt(nodes, l, y) ensures k + 1 < l { assert BlockedAt(rest, l - 1, y); }
  }

  lemma BlockedInOrder(nodes: seq<PlanNode>)
    ensures var blocked := Unique(BlockedMetrics(nodes));
      && (forall m :: m in blocked <==> exists k :: BlockedAt(nodes, k, m))
      && forall i, j :: 0 <= i < j < |blocked| ==> BlockedBefore(nodes, blocked[i], blocked[j])
  {
    var metrics, blocked := BlockedMetrics(nodes), Unique(BlockedMetrics(nodes));
    UniqueFirsts(metrics);
    hide BlockedMetrics, Unique, FoundFirst, BlockedBefore;
    forall m ensures m in blocked <==> exists k :: BlockedAt(nodes, k, m) {
      if n :| n in nodes && n.state == Blocked && n.metric == m {
        var k :| 0 <= k < |nodes| && nodes[k] == n;
        assert BlockedAt(nodes, k, m);
      }
      if k :| BlockedAt(nodes, k, m) { assert nodes[k] in nodes; }
    }
    forall i, j | 0 <= i < j < |blocked| ensures BlockedBefore(nodes, blocked[i], blocked[j]) {
      BlockedFollow(nodes, blocked[i], blocked[j]);
    }
  }

  lemma PopulationsPaired(request: AnalysisRequest)
    ensures PairedInOrder(Populations(request.baselinePeriod, request.comparisonPeriod))
    ensures |Populations(request.baselinePeriod, request.comparisonPeriod)| == 6
  {}

  lemma ListsInOrder(registry: Registry, rank: MetricId -> nat, request: AnalysisRequest,
                     sufficiency: SufficiencyResult, plan: Plan)
    requires Ranked(registry, rank) && Built(registry, rank, request, sufficiency, plan)
    ensures plan.requested == RequestedIds(request.metrics)
    ensures plan.eligible == EligibleIds(plan.requested, sufficiency)
    ensures plan.blocked == Unique(BlockedMetrics(plan.nodes))
    ensures plan.populations == Populations(request.baselinePeriod, request.comparisonPeriod)
    ensures plan.populationRefs == PopulationIds(plan.populations)
  {}

  /** Every plan that construction ends with lists things in this order. */
  lemma BuiltInOrder(registry: Registry, rank: MetricId -> nat, request: AnalysisRequest,
                     sufficiency: SufficiencyResult, plan: Plan)
    requires Ranked(registry, rank) && Built(registry, rank, request, sufficiency, plan)
    ensures InOrder(registry, request, plan)
  {
    hide Built, WalkedInOrder, KeepsOrder, NodeInOrder, BlockedBefore, BlockedAt, Populations, PairedInOrder;
    ListsInOrder(registry, rank, request, sufficiency, plan);
    NodesWalked(registry, rank, request, sufficiency, plan);
    EligibleInOrder(plan.requested, sufficiency);
    PopulationsPaired(request);
    BlockedInOrder(plan.nodes);
    forall n | n in plan.nodes ensures NodeInOrder(registry, plan.requested, n) {
      var i :| 0 <= i < |plan.nodes| && plan.nodes[i] == n;
      NodesInOrder(registry, rank, request, sufficiency, plan, i);
    }
    assert forall i, j :: 0 <= i < j < |plan.blocked| ==> BlockedBefore(plan.nodes, plan.blocked[i], plan.blocked[j]);
  }
}
