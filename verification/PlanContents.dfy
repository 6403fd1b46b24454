/** What a built plan holds, said of its nodes alone: which nodes, what they depend on, and whom they serve. */
module PlanContents {
  import opened Common
  import opened PlanModel
  import opened PlanBuilder
  import opened PlanAuthorization
  import opened PlanCompilation
  import opened ExecutionPlanning
  import opened PlanSelfCheck

  // ---- The description ----

  /** A requested metric is planned at the requested grouping if it supports groupings, else at the one it requires. */
  predicate PlannedAt(definition: Definition, requested: Grouping, g: Grouping) {
    if definition.supportedGroupings != [] then g == requested && requested in definition.supportedGroupings
    else definition.groupingRequirement == Some(g)
  }

  ghost predicate HasNode(nodes: seq<PlanNode>, m: MetricId, role: Option<Role>, g: Grouping) {
    exists n :: n in nodes && n.metric == m && n.id.role == role && n.grouping == g
  }

  /** Single-period metrics are planned for both periods, and the others once. */
  ghost predicate HasRoots(nodes: seq<PlanNode>, m: MetricId, definition: Definition, g: Grouping) {
    if definition.period == SinglePeriod
    then HasNode(nodes, m, Some(Baseline), g) && HasNode(nodes, m, Some(Comparison), g)
    else HasNode(nodes, m, None, g)
  }

  ghost predicate Asked(request: AnalysisRequest, m: MetricId) {
    exists r :: r in request.metrics && r.metric == m
  }

  /** The node stands for a request of m. */
  ghost predicate RootNode(registry: Registry, request: AnalysisRequest, n: PlanNode, m: MetricId) {
    && n.metric == m && Asked(request, m)
    && m in registry.definitions && PlannedAt(registry.definitions[m], request.grouping, n.grouping)
    && (registry.definitions[m].period == SinglePeriod <==> n.id.role.Some?)
  }

  ghost predicate Sufficient(sufficiency: SufficiencyResult, m: MetricId) {
    exists e :: e in sufficiency.eligibility && e.metric == m && e.eligible
  }

  ghost predicate Parent(nodes: seq<PlanNode>, parent: PlanNode, n: PlanNode) {
    parent in nodes && n.id in parent.dependencyIds
  }

  predicate Applies(d: Dependency, g: Grouping) {
    d.appliesTo == [] || g in d.appliesTo
  }

  /** The role at which a dependency of a node with some role is compiled. */
  predicate RoleFits(d: Dependency, parent: Option<Role>, role: Option<Role>) {
    match d.role
    case SameAsParent => role == parent && parent.Some?
    case AtBaseline => role == Some(Baseline)
    case AtComparison => role == Some(Comparison)
    case AtBoth => role.Some?
    case NoPeriod => role.None?
  }

  predicate GroupingFits(registry: Registry, d: Dependency, g: Grouping) {
    if d.grouping.Some? then g == d.grouping.value
    else d.metric in registry.definitions && registry.definitions[d.metric].groupingRequirement == Some(g)
  }

  /** id is what dependency d of a node calls for. */
  predicate CalledFor(registry: Registry, d: Dependency, parent: Option<Role>, id: NodeId) {
    id.metric == d.metric && RoleFits(d, parent, id.role) && GroupingFits(registry, d, id.grouping)
  }

  /** A node's dependencies are exactly those that its definition calls for at its grouping, and they are nodes. */
  ghost predicate DependenciesAre(registry: Registry, nodes: seq<PlanNode>, n: PlanNode)
    requires n.metric in registry.definitions
  {
    var dependencies := registry.definitions[n.metric].dependencies;
    && (forall id :: id in n.dependencyIds ==>
         (exists d :: d in dependencies && Applies(d, n.grouping) && CalledFor(registry, d, n.id.role, id))
         && exists x :: x in nodes && x.id == id)
    && (forall d, role :: d in dependencies && Applies(d, n.grouping) && RoleFits(d, n.id.role, role) ==>
         exists id :: id in n.dependencyIds && id.role == role && CalledFor(registry, d, n.id.role, id))
  }

  /** No two nodes stand for one metric, role and grouping. */
  ghost predicate OneEach(nodes: seq<PlanNode>) {
    forall i, j :: 0 <= i < j < |nodes| ==>
      nodes[i].metric != nodes[j].metric || nodes[i].id.role != nodes[j].id.role
      || nodes[i].grouping != nodes[j].grouping
  }

  /** The node carries exactly the eligible metrics that it, or a node that depends on it, was requested for. */
  ghost predicate CarriesExactly(registry: Registry, request: AnalysisRequest, sufficiency: SufficiencyResult,
                                 nodes: seq<PlanNode>, n: PlanNode) {
    forall m :: m in n.authorized <==>
      && Sufficient(sufficiency, m)
      && (RootNode(registry, request, n, m) || exists p :: Parent(nodes, p, n) && m in p.authorized)
  }

  /** A governed grouping at the period of a role. */
  predicate IsPopulation(request: AnalysisRequest, p: Population) {
    && p.grouping != ByProductAndCategory && p.id == PopulationId(p.role, p.grouping, p.period)
    && p.period == if p.role == Baseline then request.baselinePeriod else request.comparisonPeriod
  }

  /** The six populations: each governed grouping at the period of each role. */
  ghost predicate PopulationsAre(request: AnalysisRequest, populations: seq<Population>) {
    && |populations| == 6
    && forall p :: p in populations <==> IsPopulation(request, p)
  }

  /** A node covers the populations of its grouping: that of its role if its metric is of a single period, else both. */
  ghost predicate Covers(definition: Definition, populations: seq<Population>, n: PlanNode, id: PopulationId) {
    exists p :: p in populations && p.id == id && p.grouping == n.grouping
                && (definition.period == SinglePeriod && n.id.role.Some? ==> p.role == n.id.role.value)
  }

  ghost predicate FieldsAre(registry: Registry, populations: seq<Population>, n: PlanNode)
    requires n.metric in registry.definitions
  {
    var definition := registry.definitions[n.metric];
    && n.version == definition.version
    && n.id == NodeId(n.metric, n.version, n.id.role, n.periodRefs, n.populationRefs, n.grouping, n.dependencyIds)
    && (forall id :: id in n.populationRefs <==> Covers(definition, populations, n, id))
    && |n.periodRefs| == |n.populationRefs|
    && (forall i :: 0 <= i < |n.periodRefs| ==> n.periodRefs[i] == n.populationRefs[i].period)
    && (forall m :: m in n.dependencyMetrics <==> exists d :: d in n.dependencyIds && d.metric == m)
  }

  /** The node stands for a request of m, and e is why m may not run. */
  ghost predicate Denied(registry: Registry, request: AnalysisRequest, sufficiency: SufficiencyResult, n: PlanNode,
                         m: MetricId, e: MetricEligibility) {
    RootNode(registry, request, n, m) && e in sufficiency.eligibility && e.metric == m && !e.eligible
  }

  /** A blocked node says why each request it stands for is denied, or that it serves none, and what it waits for. */
  ghost predicate SaysWhy(registry: Registry, request: AnalysisRequest, sufficiency: SufficiencyResult,
                          nodes: seq<PlanNode>, n: PlanNode) {
    && (forall s :: Sufficiency(s) in n.failures <==>
         exists m, e :: Denied(registry, request, sufficiency, n, m, e) && s in e.failures)
    && (forall m :: MarkedIneligible(m) in n.failures <==>
         exists e :: Denied(registry, request, sufficiency, n, m, e) && e.failures == [])
    && (forall x :: NoEligibleChain(x) in n.failures <==>
         x == n.id && forall m, e :: !Denied(registry, request, sufficiency, n, m, e))
    && (forall d :: DependencyBlocked(d) in n.failures <==> d in n.dependencyIds && IsBlockedNode(nodes, d))
  }

  ghost predicate AsRequested(registry: Registry, request: AnalysisRequest, sufficiency: SufficiencyResult,
                              plan: Plan) {
    && (forall m :: Asked(request, m) ==>
         m in registry.definitions && exists g :: PlannedAt(registry.definitions[m], request.grouping, g)
                                                  && HasRoots(plan.nodes, m, registry.definitions[m], g))
    && OneEach(plan.nodes) && PopulationsAre(request, plan.populations)
    && (forall m :: m in plan.eligible <==> Asked(request, m) && Sufficient(sufficiency, m))
    && (forall n :: n in plan.nodes ==>
         && n.metric in registry.definitions && DependenciesAre(registry, plan.nodes, n)
         && CarriesExactly(registry, request, sufficiency, plan.nodes, n)
         && FieldsAre(registry, plan.populations, n)
         && (n.state == Executable <==> n.authorized != [])
         && (n.state == Blocked ==> SaysWhy(registry, request, sufficiency, plan.nodes, n))
         && ((exists m :: RootNode(registry, request, n, m)) || exists p :: Parent(plan.nodes, p, n)))
  }

  // ---- Roots ----

  /** The root keys of a metric, in full. */
  lemma RootKeysAre(registry: Registry, m: MetricId, requested: Grouping, k: Key)
    requires m in registry.definitions && RootKeys(registry, m, requested).Ok?
    ensures k in RootKeys(registry, m, requested).value <==>
      && k.metric == m && PlannedAt(registry.definitions[m], requested, k.grouping)
      && (registry.definitions[m].period == SinglePeriod <==> k.role.Some?)
    ensures exists g :: PlannedAt(registry.definitions[m], requested, g)
  {
    var g := EffectiveGrouping(registry.definitions[m], requested).value;
    assert PlannedAt(registry.definitions[m], requested, g);
    if k.role.Some? { assert k.role.value == Baseline || k.role.value == Comparison; }
  }

  lemma RequestedAsked(request: AnalysisRequest, m: MetricId)
    ensures m in RequestedIds(request.metrics) <==> Asked(request, m)
  {
    var ids := RequestedIds(request.metrics);
    if m in ids {
      var i :| 0 <= i < |ids| && ids[i] == m;
      assert request.metrics[i] in request.metrics;
    }
    if r :| r in request.metrics && r.metric == m {
      var i :| 0 <= i < |request.metrics| && request.metrics[i] == r;
      assert ids[i] == m;
    }
  }

  /** The node of a key of the memo table. */
  lemma NodeOfKey(registry: Registry, rank: MetricId -> nat, request: AnalysisRequest, sufficiency: SufficiencyResult,
                  plan: Plan, k: Key) returns (i: nat)
    requires Ranked(registry, rank) && Built(registry, rank, request, sufficiency, plan)
    requires k in RequestedClosure(registry, rank, RequestedIds(request.metrics), request.grouping)
    ensures i < |plan.nodes| && KeyOf(plan.nodes[i].id) == k && plan.nodes[i].metric == k.metric
    ensures plan.nodes[i].grouping == k.grouping && k.metric in registry.definitions
    ensures Compile(registry, rank, plan.populations, k) == Ok(plan.nodes[i].id)
  {
    hide RequestedClosure, Compile, Closure;
    var keys := NodeKeys(plan.nodes);
    i :| 0 <= i < |keys| && keys[i] == k;
    assert Entry(registry, rank, plan.populations, Drafts(plan.nodes), keys, i);
  }

  lemma RootsPlanned(registry: Registry, rank: MetricId -> nat, request: AnalysisRequest,
                     sufficiency: SufficiencyResult, plan: Plan, m: MetricId)
    requires Ranked(registry, rank) && Built(registry, rank, request, sufficiency, plan) && Asked(request, m)
    ensures m in registry.definitions
    ensures exists g :: PlannedAt(registry.definitions[m], request.grouping, g)
                        && HasRoots(plan.nodes, m, registry.definitions[m], g)
  {
    hide RequestedClosure, Compile, Closure, RootKeys;
    RequestedAsked(request, m);
    RootKeysAre(registry, m, request.grouping, Key(m, None, request.grouping));
    var g :| PlannedAt(registry.definitions[m], request.grouping, g);
    var roles: seq<Option<Role>> :=
      if registry.definitions[m].period == SinglePeriod then [Some(Baseline), Some(Comparison)] else [None];
    forall role | role in roles ensures HasNode(plan.nodes, m, role, g) {
      var k := Key(m, role, g);
      RootKeysAre(registry, m, request.grouping, k);
      RequestedHasRoot(registry, rank, RequestedIds(request.metrics), request.grouping, m, k);
      var i := NodeOfKey(registry, rank, request, sufficiency, plan, k);
      assert plan.nodes[i] in plan.nodes;
    }
  }

  /** Being a root is standing for a request. */
  lemma RootsStand(registry: Registry, rank: MetricId -> nat, request: AnalysisRequest,
                   sufficiency: SufficiencyResult, plan: Plan, i: nat, m: MetricId)
    requires Ranked(registry, rank) && Built(registry, rank, request, sufficiency, plan) && i < |plan.nodes|
    ensures RootNode(registry, request, plan.nodes[i], m) <==>
      && m in RequestedIds(request.metrics)
      && IsRoot(registry, rank, plan.populations, m, request.grouping, plan.nodes[i].id)
  {
    hide RequestedClosure, Closure, RootKeys;
    var n, key := plan.nodes[i], KeyOf(plan.nodes[i].id);
    assert Entry(registry, rank, plan.populations, Drafts(plan.nodes), NodeKeys(plan.nodes), i);
    RequestedAsked(request, m);
    if m in RequestedIds(request.metrics) {
      RootKeysAre(registry, m, request.grouping, key);
      forall k | k in RootKeys(registry, m, request.grouping).value
                 && Compile(registry, rank, plan.populations, k) == Ok(n.id) ensures k == key {
        CompiledKey(registry, rank, plan.populations, k);
      }
    }
  }

  // ---- Authorization ----

  lemma {:induction false} ReachedFrom(root: NodeId, id: NodeId)
    requires id in Reach(root) && id != root
    ensures exists p :: p in Reach(root) && id in p.deps
    decreases root, 1
  {
    ReachedFromAll(root.deps, id);
    if id !in root.deps {
      var p :| p in ReachAll(root.deps) && id in p.deps;
      assert p in Reach(root);
    }
  }

  lemma {:induction false} ReachedFromAll(roots: seq<NodeId>, id: NodeId)
    requires id in ReachAll(roots)
    ensures id in roots || exists p :: p in ReachAll(roots) && id in p.deps
    decreases roots, 0
  {
    var n := |roots| - 1;
    if id in ReachAll(roots[..n]) {
      ReachedFromAll(roots[..n], id);
      if p :| p in ReachAll(roots[..n]) && id in p.deps { assert p in ReachAll(roots); }
    } else if id != roots[n] {
      ReachedFrom(roots[n], id);
      var p :| p in Reach(roots[n]) && id in p.deps;
      assert p in ReachAll(roots);
    }
  }

  /** Whoever reaches a node other than itself reaches one that depends on it. */
  lemma ReachedThrough(root: NodeId, id: NodeId)
    ensures id in Reach(root) <==> id == root || exists p :: p in Reach(root) && id in p.deps
  {
    if id in Reach(root) && id != root { ReachedFrom(root, id); }
    ReachClosed(root);
  }

  lemma EntrySufficient(sufficiency: SufficiencyResult, m: MetricId)
    ensures Eligible(sufficiency, m) <==> Sufficient(sufficiency, m)
  {
    forall e ensures e in EntriesFor(sufficiency.eligibility, m) <==> e in sufficiency.eligibility && e.metric == m {
      EntriesAre(sufficiency.eligibility, m, e);
    }
    hide EntriesFor;
  }

  lemma {:induction false} EntriesAre(eligibility: seq<MetricEligibility>, m: MetricId, e: MetricEligibility)
    ensures e in EntriesFor(eligibility, m) <==> e in eligibility && e.metric == m
  {
    if eligibility != [] {
      var n := |eligibility| - 1;
      EntriesAre(eligibility[..n], m, e);
      assert e in eligibility <==> e in eligibility[..n] || e == eligibility[n];
    }
  }

  /** Whatever an identity of the plan reaches is an identity of the plan. */
  lemma ReachedAreNodes(nodes: seq<PlanNode>, root: NodeId, id: NodeId)
    requires Topological(nodes) && root in Ids(nodes) && id in Reach(root)
    ensures exists n :: n in nodes && n.id == id && n.dependencyIds == id.deps
  {
    TopologicalClosed(nodes);
    ReachInside(root, Ids(nodes));
    var n :| n in nodes && n.id == id;
    var i :| 0 <= i < |nodes| && nodes[i] == n;
  }

  lemma RootInPlan(registry: Registry, rank: MetricId -> nat, request: AnalysisRequest,
                   sufficiency: SufficiencyResult, plan: Plan, m: MetricId, root: NodeId)
    requires Ranked(registry, rank) && Built(registry, rank, request, sufficiency, plan)
    requires m in RequestedIds(request.metrics)
    requires IsRoot(registry, rank, plan.populations, m, request.grouping, root)
    ensures root in Ids(plan.nodes)
  {
    hide RequestedClosure, Compile, Closure, RootKeys, IsRoot;
    RootIsNode(registry, rank, plan.populations, Drafts(plan.nodes), NodeKeys(plan.nodes),
               RequestedIds(request.metrics), request.grouping, m, root);
    var i :| 0 <= i < |plan.nodes| && Drafts(plan.nodes)[i].id == root;
    assert plan.nodes[i] in plan.nodes;
  }

  /** What authorization says of one node and metric. */
  ghost predicate Serves(registry: Registry, rank: MetricId -> nat, request: AnalysisRequest, plan: Plan, id: NodeId,
                         m: MetricId, root: NodeId)
    requires Ranked(registry, rank)
  {
    && m in RequestedIds(request.metrics) && m in registry.definitions
    && IsRoot(registry, rank, plan.populations, m, request.grouping, root) && id in Reach(root)
  }

  lemma AuthorizedServes(registry: Registry, rank: MetricId -> nat, request: AnalysisRequest,
                         sufficiency: SufficiencyResult, plan: Plan, n: PlanNode, m: MetricId)
    requires Ranked(registry, rank) && Built(registry, rank, request, sufficiency, plan) && n in plan.nodes
    ensures m in n.authorized <==>
      Sufficient(sufficiency, m) && exists root :: Serves(registry, rank, request, plan, n.id, m, root)
  {
    EntrySufficient(sufficiency, m);
    hide Walked, Compiled, Constructible, Admissible, IsRoot, Reach, Eligible, Sufficient, BlockedExplained;
    if Entitles(registry, rank, request, sufficiency, m, n.id) {
      var root :| IsRoot(registry, rank, plan.populations, m, request.grouping, root) && n.id in Reach(root);
      assert Serves(registry, rank, request, plan, n.id, m, root);
    }
  }

  lemma CarriedExactly(registry: Registry, rank: MetricId -> nat, request: AnalysisRequest,
                       sufficiency: SufficiencyResult, plan: Plan, i: nat)
    requires Ranked(registry, rank) && Built(registry, rank, request, sufficiency, plan) && i < |plan.nodes|
    ensures CarriesExactly(registry, request, sufficiency, plan.nodes, plan.nodes[i])
  {
    BuiltTopological(registry, rank, request, sufficiency, plan);
    var n := plan.nodes[i];
    assert n in plan.nodes;
    hide Built, IsRoot, Reach, RootNode, Sufficient, RequestedIds, Topological;
    forall m
      ensures m in n.authorized <==>
        && Sufficient(sufficiency, m)
        && (RootNode(registry, request, n, m) || exists p :: Parent(plan.nodes, p, n) && m in p.authorized)
    {
      RootsStand(registry, rank, request, sufficiency, plan, i, m);
      AuthorizedServes(registry, rank, request, sufficiency, plan, n, m);
      if m in n.authorized {
        var root :| Serves(registry, rank, request, plan, n.id, m, root);
        CarriedBecause(registry, rank, request, sufficiency, plan, n, m, root);
      }
      if RootNode(registry, request, n, m) && Sufficient(sufficiency, m) {
        ReachedThrough(n.id, n.id);
        assert Serves(registry, rank, request, plan, n.id, m, n.id) by { RootDefined(registry, request, n, m); }
      }
      if p :| Parent(plan.nodes, p, n) && m in p.authorized {
        AuthorizedServes(registry, rank, request, sufficiency, plan, p, m);
        var root :| Serves(registry, rank, request, plan, p.id, m, root);
        DependencyReached(plan.nodes, p, n, root);
        assert Serves(registry, rank, request, plan, n.id, m, root);
      }
    }
  }

  lemma RootDefined(registry: Registry, request: AnalysisRequest, n: PlanNode, m: MetricId)
    requires RootNode(registry, request, n, m)
    ensures m in registry.definitions
  {}

  lemma DependencyReached(nodes: seq<PlanNode>, p: PlanNode, n: PlanNode, root: NodeId)
    requires Topological(nodes) && Parent(nodes, p, n) && p.id in Reach(root)
    ensures n.id in Reach(root)
  {
    ReachedThrough(root, n.id);
    var j :| 0 <= j < |nodes| && nodes[j] == p;
    assert p.dependencyIds == p.id.deps;
    hide Reach;
  }

  /** A node that a root reaches is that root, or a node that serves the same metric depends on it. */
  lemma CarriedBecause(registry: Registry, rank: MetricId -> nat, request: AnalysisRequest,
                       sufficiency: SufficiencyResult, plan: Plan, n: PlanNode, m: MetricId, root: NodeId)
    requires Ranked(registry, rank) && Built(registry, rank, request, sufficiency, plan) && Topological(plan.nodes)
    requires n in plan.nodes && Serves(registry, rank, request, plan, n.id, m, root) && Sufficient(sufficiency, m)
    ensures root == n.id || exists p :: Parent(plan.nodes, p, n) && m in p.authorized
  {
    hide Built, IsRoot, Reach, Sufficient, RequestedIds, Topological;
    if root != n.id {
      ReachedThrough(root, n.id);
      var p :| p in Reach(root) && n.id in p.deps;
      RootInPlan(registry, rank, request, sufficiency, plan, m, root);
      ReachedAreNodes(plan.nodes, root, p);
      var x :| x in plan.nodes && x.id == p && x.dependencyIds == p.deps;
      assert Serves(registry, rank, request, plan, x.id, m, root);
      AuthorizedServes(registry, rank, request, sufficiency, plan, x, m);
      assert Parent(plan.nodes, x, n) && m in x.authorized;
    }
  }

  // ---- Dependencies ----

  lemma {:induction false} EffectiveAre(dependencies: seq<Dependency>, g: Grouping, d: Dependency)
    ensures d in EffectiveDependencies(dependencies, g) <==> d in dependencies && Applies(d, g)
  {
    if dependencies != [] {
      EffectiveAre(dependencies[1..], g, d);
      assert d in dependencies <==> d == dependencies[0] || d in dependencies[1..];
    }
  }

  lemma {:induction false} KeysOfAre(metric: MetricId, roles: seq<Option<Role>>, g: Grouping, k: Key)
    ensures Ok(k) in KeysOf(metric, roles, Ok(g)) <==> k.metric == metric && k.grouping == g && k.role in roles
  {
    if roles != [] {
      KeysOfAre(metric, roles[1..], g, k);
      assert k.role in roles <==> k.role == roles[0] || k.role in roles[1..];
    }
  }

  lemma {:induction false} KeysOfFail(metric: MetricId, roles: seq<Option<Role>>, e: PlanningError)
    requires roles != []
    ensures Err(e) in KeysOf(metric, roles, Err(e))
  {}

  /** The roles at which one dependency is compiled. */
  lemma RolesAre(d: Dependency, parent: Option<Role>, role: Option<Role>)
    requires DependencyRoles(d, parent).Ok?
    ensures role in DependencyRoles(d, parent).value <==> RoleFits(d, parent, role)
    ensures DependencyRoles(d, parent).value != []
  {
    if role.Some? { assert role.value == Baseline || role.value == Comparison; }
  }

  ghost predicate NoneFails(children: seq<Result<Key, PlanningError>>) {
    forall c :: c in children ==> c.Ok?
  }

  /** The child keys of one dependency. */
  function KeysFor(registry: Registry, d: Dependency, parent: Option<Role>): seq<Result<Key, PlanningError>>
    requires d.metric in registry.definitions
  {
    match DependencyRoles(d, parent)
    case Err(e) => [Err(e)]
    case Ok(roles) => KeysOf(d.metric, roles, DependencyGrouping(d, registry))
  }

  lemma KeysForAre(registry: Registry, d: Dependency, parent: Option<Role>, k: Key)
    requires d.metric in registry.definitions && NoneFails(KeysFor(registry, d, parent))
    ensures Ok(k) in KeysFor(registry, d, parent) <==>
      k.metric == d.metric && RoleFits(d, parent, k.role) && GroupingFits(registry, d, k.grouping)
    ensures exists g :: GroupingFits(registry, d, g)
  {
    hide KeysOf, DependencyRoles, RoleFits;
    var children := KeysFor(registry, d, parent);
    assert children != [] ==> children[0] in children && children[0].Ok?;
    if DependencyRoles(d, parent).Ok? {
      RolesAre(d, parent, k.role);
      var grouping, roles := DependencyGrouping(d, registry), DependencyRoles(d, parent).value;
      if grouping.Err? {
        KeysOfFail(d.metric, roles, grouping.error);
      } else {
        KeysOfAre(d.metric, roles, grouping.value, k);
        assert GroupingFits(registry, d, grouping.value);
      }
    }
  }

  lemma ChildrenSplit(registry: Registry, dependencies: seq<Dependency>, parent: Option<Role>)
    requires dependencies != [] && forall d :: d in dependencies ==> d.metric in registry.definitions
    ensures dependencies[0] in dependencies && forall d :: d in dependencies[1..] ==> d in dependencies
    ensures ChildrenOf(registry, dependencies, parent)
         == KeysFor(registry, dependencies[0], parent) + ChildrenOf(registry, dependencies[1..], parent)
  {}

  /** The children of a key, when none fails, are what its dependencies call for. */
  lemma {:induction false} ChildrenAre(registry: Registry, dependencies: seq<Dependency>, parent: Option<Role>, k: Key)
    requires forall d :: d in dependencies ==> d.metric in registry.definitions
    requires NoneFails(ChildrenOf(registry, dependencies, parent))
    ensures Ok(k) in ChildrenOf(registry, dependencies, parent) <==>
      exists d :: d in dependencies && k.metric == d.metric && RoleFits(d, parent, k.role)
                  && GroupingFits(registry, d, k.grouping)
    ensures forall d :: d in dependencies ==> exists g :: GroupingFits(registry, d, g)
  {
    if dependencies != [] {
      hide RoleFits, GroupingFits, KeysFor;
      var d, rest := dependencies[0], dependencies[1..];
      ChildrenSplit(registry, dependencies, parent);
      hide ChildrenOf;
      ChildrenAre(registry, rest, parent, k);
      KeysForAre(registry, d, parent, k);
      assert forall x :: x in dependencies <==> x == d || x in rest;
    }
  }

  /** A compiled identity's dependencies are the identities of its children. */
  lemma DependenciesHold(registry: Registry, rank: MetricId -> nat, request: AnalysisRequest,
                         sufficiency: SufficiencyResult, plan: Plan, i: nat)
    requires Ranked(registry, rank) && Built(registry, rank, request, sufficiency, plan) && i < |plan.nodes|
    ensures plan.nodes[i].metric in registry.definitions
    ensures DependenciesAre(registry, plan.nodes, plan.nodes[i])
  {
    hide Built, Topological, NodeFacts, DependencyFacts, Applies, CalledFor, RoleFits;
    NodeFactsHold(registry, rank, request, sufficiency, plan, i);
    BuiltTopological(registry, rank, request, sufficiency, plan);
    var n := plan.nodes[i];
    assert n.metric in registry.definitions && n.dependencyIds == n.id.deps by {
      NodeFactsBasics(registry, n, request);
    }
    DependenciesFrom(registry, rank, plan.populations, plan.nodes, n);
    forall id | id in n.dependencyIds ensures exists x :: x in plan.nodes && x.id == id {
      var j := DependencyIsNode(plan.nodes, i, id);
      assert plan.nodes[j] in plan.nodes;
    }
  }

  lemma NodeFactsBasics(registry: Registry, n: PlanNode, request: AnalysisRequest)
    requires NodeFacts(registry, n, request.baselinePeriod, request.comparisonPeriod)
    ensures n.metric in registry.definitions && n.dependencyIds == n.id.deps
    ensures n.id.metric == n.metric && n.id.grouping == n.grouping
  {}

  lemma DependenciesFrom(registry: Registry, rank: MetricId -> nat, populations: seq<Population>,
                         nodes: seq<PlanNode>, n: PlanNode)
    requires Ranked(registry, rank) && DependencyFacts(registry, rank, populations, n.id)
    requires n.metric in registry.definitions && n.dependencyIds == n.id.deps
    requires n.id.metric == n.metric && n.id.grouping == n.grouping
    ensures forall id :: id in n.dependencyIds ==>
      exists d :: d in registry.definitions[n.metric].dependencies && Applies(d, n.grouping)
                  && CalledFor(registry, d, n.id.role, id)
    ensures forall d, role ::
      d in registry.definitions[n.metric].dependencies && Applies(d, n.grouping) && RoleFits(d, n.id.role, role) ==>
        exists id :: id in n.dependencyIds && id.role == role && CalledFor(registry, d, n.id.role, id)
  {
    var children := Children(registry, rank, KeyOf(n.id));
    var dependencies := registry.definitions[n.metric].dependencies;
    var effective := EffectiveDependencies(dependencies, n.grouping);
    assert children == ChildrenOf(registry, effective, n.id.role);
    forall d ensures d in effective <==> d in dependencies && Applies(d, n.grouping) {
      EffectiveAre(dependencies, n.grouping, d);
    }
    hide ChildrenOf, EffectiveDependencies, Applies, RoleFits, GroupingFits;
    forall id | id in n.dependencyIds
      ensures exists d :: d in dependencies && Applies(d, n.grouping) && CalledFor(registry, d, n.id.role, id)
    {
      var c :| 0 <= c < |n.id.deps| && n.id.deps[c] == id;
      assert children[c] in children && children[c] == Ok(KeyOf(id));
      ChildrenAre(registry, effective, n.id.role, KeyOf(id));
    }
    forall d, role | d in dependencies && Applies(d, n.grouping) && RoleFits(d, n.id.role, role)
      ensures exists id :: id in n.dependencyIds && id.role == role && CalledFor(registry, d, n.id.role, id)
    {
      ChildrenAre(registry, effective, n.id.role, Key(d.metric, role, Whole));
      var g :| GroupingFits(registry, d, g);
      var k := Key(d.metric, role, g);
      ChildrenAre(registry, effective, n.id.role, k);
      var c :| 0 <= c < |children| && children[c] == Ok(k);
      assert n.id.deps[c] in n.dependencyIds && KeyOf(n.id.deps[c]) == k;
    }
  }

  // ---- Nothing else ----

  /** A key reachable from another is a child of a reachable one. */
  lemma {:induction false} ClosureThrough(registry: Registry, rank: MetricId -> nat, key: Key, k: Key)
    requires Ranked(registry, rank) && key.metric in registry.definitions
    requires k in Closure(registry, rank, key) && k != key
    ensures exists p :: p in Closure(registry, rank, key) && p.metric in registry.definitions
                        && Ok(k) in Children(registry, rank, p)
    decreases rank(key.metric), 1, 0
  {
    ClosureAllThrough(registry, rank, Children(registry, rank, key), rank(key.metric), k);
    if Ok(k) !in Children(registry, rank, key) {
      var p :| p in ClosureAll(registry, rank, Children(registry, rank, key), rank(key.metric))
               && p.metric in registry.definitions && Ok(k) in Children(registry, rank, p);
      assert p in Closure(registry, rank, key);
    }
  }

  lemma {:induction false} ClosureAllThrough(registry: Registry, rank: MetricId -> nat,
                                             children: seq<Result<Key, PlanningError>>, bound: nat, k: Key)
    requires Ranked(registry, rank) && Below(children, registry, rank, bound)
    requires k in ClosureAll(registry, rank, children, bound)
    ensures Ok(k) in children
         || exists p :: p in ClosureAll(registry, rank, children, bound) && p.metric in registry.definitions
                        && Ok(k) in Children(registry, rank, p)
    decreases bound, 0, |children|
  {
    var n := |children| - 1;
    if k in ClosureAll(registry, rank, children[..n], bound) {
      ClosureAllThrough(registry, rank, children[..n], bound, k);
      if p :| p in ClosureAll(registry, rank, children[..n], bound) && p.metric in registry.definitions
              && Ok(k) in Children(registry, rank, p) {
        assert p in ClosureAll(registry, rank, children, bound);
      }
    } else if children[n] != Ok(k) {
      ClosureThrough(registry, rank, children[n].value, k);
      var p :| p in Closure(registry, rank, children[n].value) && p.metric in registry.definitions
               && Ok(k) in Children(registry, rank, p);
      assert p in ClosureAll(registry, rank, children, bound);
    }
  }

  ghost predicate RootKey(registry: Registry, requested: seq<MetricId>, grouping: Grouping, m: MetricId, k: Key)
    requires forall x :: x in requested ==> x in registry.definitions
  {
    m in requested && RootKeys(registry, m, grouping).Ok? && k in RootKeys(registry, m, grouping).value
  }

  lemma {:induction false} ListThrough(registry: Registry, rank: MetricId -> nat, keys: seq<Key>, k: Key)
    requires Ranked(registry, rank) && forall x :: x in keys ==> x.metric in registry.definitions
    requires k in ClosureOf(registry, rank, keys)
    ensures k in keys || exists p :: p in ClosureOf(registry, rank, keys) && p.metric in registry.definitions
                                     && Ok(k) in Children(registry, rank, p)
  {
    hide Closure;
    var n := |keys| - 1;
    if k in ClosureOf(registry, rank, keys[..n]) {
      ListThrough(registry, rank, keys[..n], k);
      if p :| p in ClosureOf(registry, rank, keys[..n]) && p.metric in registry.definitions
              && Ok(k) in Children(registry, rank, p) {
        assert p in ClosureOf(registry, rank, keys);
      }
    } else if k != keys[n] {
      ClosureThrough(registry, rank, keys[n], k);
      var p :| p in Closure(registry, rank, keys[n]) && p.metric in registry.definitions
               && Ok(k) in Children(registry, rank, p);
      assert p in ClosureOf(registry, rank, keys);
    }
  }

  /** Every key the request reaches is a root key or a child of a reached one. */
  lemma {:induction false} RequestedThrough(registry: Registry, rank: MetricId -> nat, requested: seq<MetricId>,
                                            grouping: Grouping, k: Key)
    requires Ranked(registry, rank) && forall x :: x in requested ==> x in registry.definitions
    requires k in RequestedClosure(registry, rank, requested, grouping)
    ensures (exists m :: RootKey(registry, requested, grouping, m, k))
         || exists p :: p in RequestedClosure(registry, rank, requested, grouping) && p.metric in registry.definitions
                        && Ok(k) in Children(registry, rank, p)
  {
    hide RootKeys, ClosureOf;
    var n := |requested| - 1;
    if k in RequestedClosure(registry, rank, requested[..n], grouping) {
      RequestedThrough(registry, rank, requested[..n], grouping, k);
      if m :| RootKey(registry, requested[..n], grouping, m, k) {
        assert RootKey(registry, requested, grouping, m, k);
      } else {
        var p :| p in RequestedClosure(registry, rank, requested[..n], grouping) && p.metric in registry.definitions
                 && Ok(k) in Children(registry, rank, p);
        assert p in RequestedClosure(registry, rank, requested, grouping);
      }
    } else {
      var roots := RootKeys(registry, requested[n], grouping).value;
      ListThrough(registry, rank, roots, k);
      if k in roots {
        assert RootKey(registry, requested, grouping, requested[n], k);
      } else {
        var p :| p in ClosureOf(registry, rank, roots) && p.metric in registry.definitions
                 && Ok(k) in Children(registry, rank, p);
        assert p in RequestedClosure(registry, rank, requested, grouping);
      }
    }
  }

  /** A node whose key is a child of another node's key is a dependency of that node. */
  lemma ChildDepends(registry: Registry, rank: MetricId -> nat, request: AnalysisRequest,
                     sufficiency: SufficiencyResult, plan: Plan, i: nat, p: Key)
    requires Ranked(registry, rank) && Built(registry, rank, request, sufficiency, plan) && i < |plan.nodes|
    requires p in RequestedClosure(registry, rank, RequestedIds(request.metrics), request.grouping)
    requires p.metric in registry.definitions && Ok(KeyOf(plan.nodes[i].id)) in Children(registry, rank, p)
    ensures exists x :: Parent(plan.nodes, x, plan.nodes[i])
  {
    var j := NodeOfKey(registry, rank, request, sufficiency, plan, p);
    NodeFactsHold(registry, rank, request, sufficiency, plan, j);
    BuiltTopological(registry, rank, request, sufficiency, plan);
    OnlyOneEach(registry, rank, request, sufficiency, plan);
    hide Built, RequestedClosure, Children, NodeFacts, Topological;
    NodeFactsBasics(registry, plan.nodes[j], request);
    var parent, children := plan.nodes[j], Children(registry, rank, p);
    var c :| 0 <= c < |children| && children[c] == Ok(KeyOf(plan.nodes[i].id));
    var d := parent.id.deps[c];
    assert KeyOf(d) == KeyOf(plan.nodes[i].id) && d in parent.dependencyIds;
    var l := DependencyIsNode(plan.nodes, j, d);
    NodeFactsHold(registry, rank, request, sufficiency, plan, i);
    NodeFactsHold(registry, rank, request, sufficiency, plan, l);
    NodeFactsBasics(registry, plan.nodes[i], request);
    NodeFactsBasics(registry, plan.nodes[l], request);
    assert l == i;
    assert parent in plan.nodes && Parent(plan.nodes, parent, plan.nodes[i]);
  }

  lemma NothingElse(registry: Registry, rank: MetricId -> nat, request: AnalysisRequest,
                    sufficiency: SufficiencyResult, plan: Plan, i: nat)
    requires Ranked(registry, rank) && Built(registry, rank, request, sufficiency, plan) && i < |plan.nodes|
    ensures (exists m :: RootNode(registry, request, plan.nodes[i], m))
         || exists p :: Parent(plan.nodes, p, plan.nodes[i])
  {
    hide RequestedClosure, Closure, Compile;
    var k := NodeKeys(plan.nodes)[i];
    assert k in Elements(NodeKeys(plan.nodes));
    var requested := RequestedIds(request.metrics);
    RequestedThrough(registry, rank, requested, request.grouping, k);
    if m :| RootKey(registry, requested, request.grouping, m, k) {
      assert Entry(registry, rank, plan.populations, Drafts(plan.nodes), NodeKeys(plan.nodes), i);
      RootsStand(registry, rank, request, sufficiency, plan, i, m);
      assert RootNode(registry, request, plan.nodes[i], m);
    } else {
      var p :| p in RequestedClosure(registry, rank, requested, request.grouping) && p.metric in registry.definitions
               && Ok(k) in Children(registry, rank, p);
      ChildDepends(registry, rank, request, sufficiency, plan, i, p);
    }
  }

  lemma OnlyOneEach(registry: Registry, rank: MetricId -> nat, request: AnalysisRequest,
                    sufficiency: SufficiencyResult, plan: Plan)
    requires Ranked(registry, rank) && Built(registry, rank, request, sufficiency, plan)
    ensures OneEach(plan.nodes)
  {
    hide RequestedClosure, Closure, Compile;
    var keys := NodeKeys(plan.nodes);
    forall i | 0 <= i < |keys|
      ensures keys[i] == Key(plan.nodes[i].metric, plan.nodes[i].id.role, plan.nodes[i].grouping)
    {
      assert Entry(registry, rank, plan.populations, Drafts(plan.nodes), keys, i);
    }
  }

  // ---- Fields ----

  lemma PopulationsListed(request: AnalysisRequest)
    ensures PopulationsAre(request, Populations(request.baselinePeriod, request.comparisonPeriod))
  {
    var all := Populations(request.baselinePeriod, request.comparisonPeriod);
    forall p: Population ensures p in all <==> IsPopulation(request, p) { PopulationListed(request, p); }
    assert |all| == 6;
    hide Populations;
  }

  lemma PopulationListed(request: AnalysisRequest, p: Population)
    ensures p in Populations(request.baselinePeriod, request.comparisonPeriod) <==> IsPopulation(request, p)
  {
    var all := Populations(request.baselinePeriod, request.comparisonPeriod);
    assert all[0] in all && all[1] in all && all[2] in all && all[3] in all && all[4] in all && all[5] in all;
    assert p.role == Baseline || p.role == Comparison;
  }

  lemma {:induction false} RefsCover(definition: Definition, populations: seq<Population>, role: Option<Role>,
                                     g: Grouping, id: PopulationId)
    ensures id in PopulationRefs(definition, populations, role, g) <==>
      exists p :: p in populations && p.id == id && p.grouping == g
                  && (definition.period == SinglePeriod && role.Some? ==> p.role == role.value)
  {
    if populations != [] {
      RefsCover(definition, populations[1..], role, g, id);
      assert forall p :: p in populations <==> p == populations[0] || p in populations[1..];
    }
  }

  lemma FieldsHold(registry: Registry, rank: MetricId -> nat, request: AnalysisRequest,
                   sufficiency: SufficiencyResult, plan: Plan, i: nat)
    requires Ranked(registry, rank) && Built(registry, rank, request, sufficiency, plan) && i < |plan.nodes|
    ensures plan.nodes[i].metric in registry.definitions
    ensures FieldsAre(registry, plan.populations, plan.nodes[i])
  {
    hide Built, DependencyFacts, GroupingError, PopulationRefs, Covers, RefsAt, Periods;
    NodeFactsHold(registry, rank, request, sufficiency, plan, i);
    NodeLists(registry, rank, request, sufficiency, plan, i);
    var n := plan.nodes[i];
    PeriodsListed(registry, n, request);
    var definition := registry.definitions[n.metric];
    forall id ensures id in n.populationRefs <==> Covers(definition, plan.populations, n, id) {
      CoversListed(definition, plan.populations, n, id);
    }
  }

  lemma PeriodsListed(registry: Registry, n: PlanNode, request: AnalysisRequest)
    requires NodeFacts(registry, n, request.baselinePeriod, request.comparisonPeriod)
    ensures |n.periodRefs| == |n.populationRefs|
    ensures forall i :: 0 <= i < |n.periodRefs| ==> n.periodRefs[i] == n.populationRefs[i].period
    ensures n.id.metric == n.metric && n.id.grouping == n.grouping && n.dependencyIds == n.id.deps
    ensures n.id.populationRefs == n.populationRefs && n.id.periodRefs == n.periodRefs
    ensures n.metric in registry.definitions && n.version == registry.definitions[n.metric].version
  {
    hide RefsAt;
  }

  lemma CoversListed(definition: Definition, populations: seq<Population>, n: PlanNode, id: PopulationId)
    ensures Covers(definition, populations, n, id) <==>
      id in PopulationRefs(definition, populations, n.id.role, n.grouping)
  {
    RefsCover(definition, populations, n.id.role, n.grouping, id);
  }

  lemma NodeLists(registry: Registry, rank: MetricId -> nat, request: AnalysisRequest,
                  sufficiency: SufficiencyResult, plan: Plan, i: nat)
    requires Ranked(registry, rank) && Built(registry, rank, request, sufficiency, plan) && i < |plan.nodes|
    ensures var n := plan.nodes[i];
      && n.metric in registry.definitions && n.id.version == n.version
      && n.populationRefs
         == PopulationRefs(registry.definitions[n.metric], plan.populations, n.id.role, n.grouping)
      && forall m :: m in n.dependencyMetrics <==> exists d :: d in n.dependencyIds && d.metric == m
  {
    hide Walked, RequestedClosure, Closure, Compile, Admissible, Constructible, BlockedExplained, PopulationRefs,
         PeriodRefs;
    var n, keys := plan.nodes[i], NodeKeys(plan.nodes);
    assert Entry(registry, rank, plan.populations, Drafts(plan.nodes), keys, i);
    DependencyMetricsAre(n.dependencyIds, MetricsOf(n.dependencyIds));
    hide MetricsOf, Unique;
  }

  lemma DependencyMetricsAre(deps: seq<NodeId>, metrics: seq<MetricId>)
    requires |metrics| == |deps| && forall i :: 0 <= i < |deps| ==> metrics[i] == deps[i].metric
    ensures forall m :: m in metrics <==> exists d :: d in deps && d.metric == m
  {
    forall m ensures m in metrics <==> exists d :: d in deps && d.metric == m {
      if m in metrics {
        var i :| 0 <= i < |metrics| && metrics[i] == m;
        assert deps[i] in deps;
      }
      if d :| d in deps && d.metric == m {
        var i :| 0 <= i < |deps| && deps[i] == d;
        assert metrics[i] == m;
      }
    }
  }

  // ---- Why nodes are blocked ----

  lemma DeniedIsWithheld(registry: Registry, rank: MetricId -> nat, request: AnalysisRequest,
                         sufficiency: SufficiencyResult, plan: Plan, i: nat, m: MetricId, e: MetricEligibility)
    requires Ranked(registry, rank) && Built(registry, rank, request, sufficiency, plan) && i < |plan.nodes|
    ensures Denied(registry, request, sufficiency, plan.nodes[i], m, e) <==>
      Withheld(registry, rank, request, sufficiency, plan.nodes[i].id, m, e)
  {
    RootsStand(registry, rank, request, sufficiency, plan, i, m);
    EntriesAre(sufficiency.eligibility, m, e);
    BuiltAdmissible(registry, rank, request, sufficiency, plan);
    hide Built, IsRoot, RootNode, EntriesFor, RequestedIds;
    if m in RequestedIds(request.metrics) {
      var entries := EntriesFor(sufficiency.eligibility, m);
      assert entries == [entries[0]];
      assert e in entries <==> e == entries[0];
    }
    if RootNode(registry, request, plan.nodes[i], m) { RootDefined(registry, request, plan.nodes[i], m); }
  }

  lemma BuiltAdmissible(registry: Registry, rank: MetricId -> nat, request: AnalysisRequest,
                        sufficiency: SufficiencyResult, plan: Plan)
    requires Ranked(registry, rank) && Built(registry, rank, request, sufficiency, plan)
    ensures plan.populations == Populations(request.baselinePeriod, request.comparisonPeriod)
    ensures forall m :: m in RequestedIds(request.metrics) ==> |EntriesFor(sufficiency.eligibility, m)| == 1
    ensures forall m :: m in plan.eligible <==> m in RequestedIds(request.metrics) && Eligible(sufficiency, m)
  {}

  lemma BuiltExplained(registry: Registry, rank: MetricId -> nat, request: AnalysisRequest,
                       sufficiency: SufficiencyResult, plan: Plan, n: PlanNode)
    requires Ranked(registry, rank) && Built(registry, rank, request, sufficiency, plan)
    requires n in plan.nodes && n.state == Blocked
    ensures Explained(registry, rank, request, sufficiency, plan.nodes, n)
  {
    hide Walked, Compiled, Constructible, Admissible, AuthorizationExact, Explained;
  }

  lemma WhyHolds(registry: Registry, rank: MetricId -> nat, request: AnalysisRequest,
                 sufficiency: SufficiencyResult, plan: Plan, i: nat)
    requires Ranked(registry, rank) && Built(registry, rank, request, sufficiency, plan) && i < |plan.nodes|
    requires plan.nodes[i].state == Blocked
    ensures SaysWhy(registry, request, sufficiency, plan.nodes, plan.nodes[i])
  {
    hide Built, Denied, Withheld, IsBlockedNode;
    var n := plan.nodes[i];
    BuiltExplained(registry, rank, request, sufficiency, plan, n);
    forall m, e ensures Denied(registry, request, sufficiency, n, m, e) <==>
      Withheld(registry, rank, request, sufficiency, n.id, m, e)
    {
      DeniedIsWithheld(registry, rank, request, sufficiency, plan, i, m, e);
    }
  }

  /** Every plan that construction ends with is as described. */
  lemma BuiltDescribed(registry: Registry, rank: MetricId -> nat, request: AnalysisRequest,
                       sufficiency: SufficiencyResult, plan: Plan)
    requires Ranked(registry, rank) && Built(registry, rank, request, sufficiency, plan)
    ensures AsRequested(registry, request, sufficiency, plan)
  {
    hide Built, DependenciesAre, CarriesExactly, RootNode, HasRoots, PlannedAt, FieldsAre, SaysWhy, OneEach;
    hide PopulationsAre, Populations, RequestedIds, Eligible, Sufficient;
    BuiltAdmissible(registry, rank, request, sufficiency, plan);
    PopulationsListed(request);
    forall m ensures m in plan.eligible <==> Asked(request, m) && Sufficient(sufficiency, m) {
      RequestedAsked(request, m);
      EntrySufficient(sufficiency, m);
    }
    forall m | Asked(request, m)
      ensures m in registry.definitions && exists g :: PlannedAt(registry.definitions[m], request.grouping, g)
                                                       && HasRoots(plan.nodes, m, registry.definitions[m], g)
    {
      RootsPlanned(registry, rank, request, sufficiency, plan, m);
    }
    OnlyOneEach(registry, rank, request, sufficiency, plan);
    forall n | n in plan.nodes
      ensures n.metric in registry.definitions && DependenciesAre(registry, plan.nodes, n)
      ensures CarriesExactly(registry, request, sufficiency, plan.nodes, n)
      ensures FieldsAre(registry, plan.populations, n)
      ensures n.state == Blocked ==> SaysWhy(registry, request, sufficiency, plan.nodes, n)
      ensures (exists m :: RootNode(registry, request, n, m)) || exists p :: Parent(plan.nodes, p, n)
    {
      var i :| 0 <= i < |plan.nodes| && plan.nodes[i] == n;
      DependenciesHold(registry, rank, request, sufficiency, plan, i);
      CarriedExactly(registry, rank, request, sufficiency, plan, i);
      NothingElse(registry, rank, request, sufficiency, plan, i);
      FieldsHold(registry, rank, request, sufficiency, plan, i);
      if n.state == Blocked { WhyHolds(registry, rank, request, sufficiency, plan, i); }
    }
    assert forall n :: n in plan.nodes ==> (n.state == Executable <==> n.authorized != []) by {
      BuiltStates(registry, rank, request, sufficiency, plan);
    }
  }

  lemma BuiltStates(registry: Registry, rank: MetricId -> nat, request: AnalysisRequest,
                    sufficiency: SufficiencyResult, plan: Plan)
    requires Ranked(registry, rank) && Built(registry, rank, request, sufficiency, plan)
    ensures forall n :: n in plan.nodes ==> (n.state == Executable <==> n.authorized != [])
  {}

  // ---- Why a request is refused before construction ----

  ghost predicate EntryAt(eligibility: seq<MetricEligibility>, i: int, m: MetricId) {
    0 <= i < |eligibility| && eligibility[i].metric == m
  }

  /** Some metric of the request has no entry. */
  ghost predicate Unanswered(request: AnalysisRequest, sufficiency: SufficiencyResult) {
    exists m :: Asked(request, m) && forall i :: !EntryAt(sufficiency.eligibility, i, m)
  }

  ghost predicate AnsweredTwice(request: AnalysisRequest, sufficiency: SufficiencyResult) {
    exists m, i, j :: Asked(request, m) && i < j && EntryAt(sufficiency.eligibility, i, m)
                      && EntryAt(sufficiency.eligibility, j, m)
  }

  predicate MetricFits(registry: Registry, r: MetricReference) {
    r.metric in registry.definitions && r.version == registry.definitions[r.metric].version
  }

  /** Metric k is the first that does not fit the registry. */
  ghost predicate MisfitAt(registry: Registry, metrics: seq<MetricReference>, k: int) {
    0 <= k < |metrics| && !MetricFits(registry, metrics[k])
    && forall j :: 0 <= j < k ==> MetricFits(registry, metrics[j])
  }

  /** The first metric that does not fit the registry is of this kind: not defined, or defined. */
  ghost predicate FirstMisfit(registry: Registry, metrics: seq<MetricReference>, defined: bool) {
    exists k :: MisfitAt(registry, metrics, k) && (metrics[k].metric in registry.definitions <==> defined)
  }

  /** The reason is the first of these that applies. */
  ghost predicate RefusedFor(registry: Registry, request: AnalysisRequest, sufficiency: SufficiencyResult,
                             e: PlanningError) {
    var fit := request.registryVersion == registry.version && sufficiency.requestId == request.id;
    var governed := fit && forall r :: r in request.metrics ==> MetricFits(registry, r);
    var answered := governed && !Unanswered(request, sufficiency) && !AnsweredTwice(request, sufficiency);
    match e
    case RegistryVersionMismatch => request.registryVersion != registry.version
    case RequestMismatch => request.registryVersion == registry.version && sufficiency.requestId != request.id
    case UnsupportedMetric => fit && FirstMisfit(registry, request.metrics, false)
    case DefinitionVersionMismatch => fit && FirstMisfit(registry, request.metrics, true)
    case EligibilityMissing => governed && Unanswered(request, sufficiency)
    case EligibilityDuplicate => governed && !Unanswered(request, sufficiency) && AnsweredTwice(request, sufficiency)
    case CanonicalDatasetMissing => answered && sufficiency.canonicalDataset.None?
    case DatasetMismatch =>
      answered && sufficiency.canonicalDataset.Some? && request.datasetRef != sufficiency.datasetRef
    case _ => false
  }

  lemma {:induction false} EntriesCount(eligibility: seq<MetricEligibility>, m: MetricId)
    ensures |EntriesFor(eligibility, m)| > 0 <==> exists i :: EntryAt(eligibility, i, m)
    ensures |EntriesFor(eligibility, m)| > 1 <==>
      exists i, j :: i < j && EntryAt(eligibility, i, m) && EntryAt(eligibility, j, m)
  {
    if eligibility != [] {
      var n := |eligibility| - 1;
      var before := eligibility[..n];
      EntriesCount(before, m);
      forall i ensures EntryAt(eligibility, i, m) <==>
        EntryAt(before, i, m) || (i == n && eligibility[n].metric == m) {}
      if eligibility[n].metric == m { assert EntryAt(eligibility, n, m); }
      if i :| EntryAt(before, i, m) { assert EntryAt(eligibility, i, m); }
      if i, j :| i < j && EntryAt(before, i, m) && EntryAt(before, j, m) {
        assert EntryAt(eligibility, i, m) && EntryAt(eligibility, j, m);
      }
      hide EntryAt;
    }
  }

  lemma Answers(request: AnalysisRequest, sufficiency: SufficiencyResult)
    ensures SomeMissing(RequestedIds(request.metrics), sufficiency.eligibility) <==> Unanswered(request, sufficiency)
    ensures SomeDuplicated(RequestedIds(request.metrics), sufficiency.eligibility)
      <==> AnsweredTwice(request, sufficiency)
  {
    forall m ensures m in RequestedIds(request.metrics) <==> Asked(request, m) { RequestedAsked(request, m); }
    forall m
      ensures |EntriesFor(sufficiency.eligibility, m)| == 0 <==> forall i :: !EntryAt(sufficiency.eligibility, i, m)
      ensures |EntriesFor(sufficiency.eligibility, m)| > 1 <==>
        exists i, j :: i < j && EntryAt(sufficiency.eligibility, i, m) && EntryAt(sufficiency.eligibility, j, m)
    {
      EntriesCount(sufficiency.eligibility, m);
    }
    hide EntriesFor, EntryAt, RequestedIds, Asked;
  }

  lemma {:induction false} MisfitFirst(registry: Registry, metrics: seq<MetricReference>)
    ensures var e := FirstMetricError(registry, metrics);
      && (e == None <==> forall r :: r in metrics ==> MetricFits(registry, r))
      && (e == Some(UnsupportedMetric) <==> FirstMisfit(registry, metrics, false))
      && (e == Some(DefinitionVersionMismatch) <==> FirstMisfit(registry, metrics, true))
      && e in {None, Some(UnsupportedMetric), Some(DefinitionVersionMismatch)}
  {
    if metrics != [] {
      var n := |metrics| - 1;
      MisfitFirst(registry, metrics[..n]);
      MisfitLater(registry, metrics, n);
      assert MetricError(registry, metrics[n]) == None <==> MetricFits(registry, metrics[n]);
      hide FirstMisfit, MetricFits;
    }
  }

  lemma MisfitLater(registry: Registry, metrics: seq<MetricReference>, n: nat)
    requires |metrics| == n + 1
    ensures (forall r :: r in metrics ==> MetricFits(registry, r)) <==>
      (forall r :: r in metrics[..n] ==> MetricFits(registry, r)) && MetricFits(registry, metrics[n])
    ensures forall defined :: FirstMisfit(registry, metrics, defined) <==>
      || FirstMisfit(registry, metrics[..n], defined)
      || ((forall r :: r in metrics[..n] ==> MetricFits(registry, r)) && !MetricFits(registry, metrics[n])
          && (metrics[n].metric in registry.definitions <==> defined))
  {
    hide MetricFits;
    var before := metrics[..n];
    assert metrics == before + [metrics[n]];
    assert (forall r :: r in before ==> MetricFits(registry, r))
      <==> forall k :: 0 <= k < n ==> MetricFits(registry, before[k]);
    assert forall k :: 0 <= k < n ==> before[k] == metrics[k];
    forall k ensures MisfitAt(registry, metrics, k) <==>
      || MisfitAt(registry, before, k)
      || (k == n && (forall j :: 0 <= j < n ==> MetricFits(registry, before[j])) && !MetricFits(registry, metrics[n]))
    {}
    hide MisfitAt;
    forall defined
      ensures FirstMisfit(registry, metrics, defined) <==>
        || FirstMisfit(registry, before, defined)
        || (MisfitAt(registry, metrics, n) && (metrics[n].metric in registry.definitions <==> defined))
    {
      if k :| MisfitAt(registry, before, k) && (before[k].metric in registry.definitions <==> defined) {
        assert MisfitAt(registry, metrics, k);
      }
    }
  }

  /** A request is refused before construction for exactly the first reason there is. */
  lemma AdmissionMeans(registry: Registry, request: AnalysisRequest, sufficiency: SufficiencyResult, e: PlanningError)
    ensures Admission(registry, request, sufficiency) == Some(e) <==> RefusedFor(registry, request, sufficiency, e)
  {
    Answers(request, sufficiency);
    MisfitFirst(registry, request.metrics);
    hide Unanswered, AnsweredTwice, SomeMissing, SomeDuplicated, FirstMisfit, FirstMetricError, MetricFits,
         RequestedIds;
  }
}
