/** The separate structural validator that re-checks every plan before execution. */
module PlanValidation {
  import opened Common
  import opened PlanModel

  /** The nodes by identity: a later duplicate wins. */
  function NodeById(nodes: seq<PlanNode>): map<NodeId, PlanNode> {
    if nodes == [] then map[] else NodeById(nodes[..|nodes| - 1])[nodes[|nodes| - 1].id := nodes[|nodes| - 1]]
  }

  function PopulationById(populations: seq<Population>): map<PopulationId, Population> {
    if populations == [] then map[]
    else PopulationById(populations[..|populations| - 1])[populations[|populations| - 1].id :=
      populations[|populations| - 1]]
  }

  lemma {:induction false} NodeByIdAt(nodes: seq<PlanNode>, i: nat)
    requires i < |nodes| && forall j :: i < j < |nodes| ==> nodes[i].id != nodes[j].id
    ensures nodes[i].id in NodeById(nodes) && NodeById(nodes)[nodes[i].id] == nodes[i]
    decreases |nodes|
  {
    var n := |nodes| - 1;
    if i < n {
      NodeByIdAt(nodes[..n], i);
      assert nodes[..n][i] == nodes[i];
    }
  }

  /** The roles of Revenue Change dependencies, accepted one by one; None when a check fails. */
  function RevenueRoles(dependencies: seq<NodeId>, seen: set<Role>, nodes: map<NodeId, PlanNode>,
                        populations: map<PopulationId, Population>,
                        parents: map<Role, PopulationId>): Option<set<Role>> {
    if dependencies == [] then Some(seen)
    else if dependencies[0] !in nodes then None
    else
      var node := nodes[dependencies[0]];
      if node.metric != Revenue || node.grouping != Whole || |node.populationRefs| != 1 then None
      else if node.populationRefs[0] !in populations then None
      else
        var population := populations[node.populationRefs[0]];
        if population.role in seen || node.periodRefs != [population.period] then None
        else if population.role !in parents || node.populationRefs != [parents[population.role]] then None
        else RevenueRoles(dependencies[1..], seen + {population.role}, nodes, populations, parents)
  }

  predicate RevenueChangeAccepted(node: PlanNode, nodes: map<NodeId, PlanNode>,
                                  populations: map<PopulationId, Population>)
    requires forall p :: p in node.populationRefs ==> p in populations
  {
    && |node.dependencyIds| == 2
    && |node.populationRefs| == 2
    && var first, second := populations[node.populationRefs[0]], populations[node.populationRefs[1]];
       {first.role, second.role} == {Baseline, Comparison}
       && RevenueRoles(node.dependencyIds, {}, nodes, populations,
                       map[first.role := first.id, second.role := second.id])
          == Some({Baseline, Comparison})
  }

  predicate AovAccepted(node: PlanNode, nodes: map<NodeId, PlanNode>)
    requires forall d :: d in node.dependencyIds ==> d in nodes
  {
    && |set d | d in node.dependencyIds :: nodes[d].populationRefs| == 1
    && |set d | d in node.dependencyIds :: nodes[d].periodRefs| == 1
  }

  predicate StateAccepted(node: PlanNode, nodes: map<NodeId, PlanNode>, eligible: seq<MetricId>)
    requires forall d :: d in node.dependencyIds ==> d in nodes
  {
    if node.state == Executable then
      && node.authorized != []
      && (forall m :: m in node.authorized ==> m in eligible)
      && (forall d :: d in node.dependencyIds ==>
            nodes[d].state == Executable && forall m :: m in node.authorized ==> m in nodes[d].authorized)
    else node.authorized == []
  }

  predicate NodeAccepted(node: PlanNode, nodes: map<NodeId, PlanNode>, populations: map<PopulationId, Population>,
                         eligible: seq<MetricId>, registry: Registry) {
    && node.metric in registry.definitions
    && node.version == registry.definitions[node.metric].version
    && GroupingError(registry.definitions[node.metric], node.grouping).None?
    && (forall d :: d in node.dependencyIds ==> d in nodes)
    && StateAccepted(node, nodes, eligible)
    && (forall p :: p in node.populationRefs ==> p in populations && populations[p].grouping == node.grouping)
    && (node.periodRefs != [] ==>
          |node.periodRefs| == |node.populationRefs|
          && forall i :: 0 <= i < |node.periodRefs| ==>
               populations[node.populationRefs[i]].period == node.periodRefs[i])
    && (node.metric == Aov ==> AovAccepted(node, nodes))
    && (node.metric == RevenueChange ==> RevenueChangeAccepted(node, nodes, populations))
  }

  predicate RootPresent(nodes: seq<PlanNode>, m: MetricId) {
    exists n :: n in nodes && n.metric == m && n.state == Executable && m in n.authorized
  }

  predicate HeaderAccepted(plan: Plan, registry: Registry) {
    && (set p | p in plan.populationRefs) == PopulationById(plan.populations).Keys
    && |Unique(plan.requested)| == |plan.requested|
    && |Unique(plan.eligible)| == |plan.eligible|
    && (forall m :: m in plan.eligible ==> m in plan.requested)
    && (forall m :: m in plan.requested ==> m in registry.definitions)
  }

  ghost predicate Accepts(plan: Plan, registry: Registry) {
    && HeaderAccepted(plan, registry)
    && (forall n :: n in plan.nodes ==>
         NodeAccepted(n, NodeById(plan.nodes), PopulationById(plan.populations), plan.eligible, registry))
    && (forall m :: m in plan.eligible ==> RootPresent(plan.nodes, m))
  }

  // ---- What acceptance means ----

  /** n is the node that an identity stands for: the last one that has it. */
  ghost predicate Names(nodes: seq<PlanNode>, id: NodeId, n: PlanNode) {
    exists i :: 0 <= i < |nodes| && nodes[i] == n && n.id == id && forall j :: i < j < |nodes| ==> nodes[j].id != id
  }

  ghost predicate Draws(populations: seq<Population>, id: PopulationId, p: Population) {
    exists i :: 0 <= i < |populations| && populations[i] == p && p.id == id
                && forall j :: i < j < |populations| ==> populations[j].id != id
  }

  /** The metric is governed, at the governed version and a grouping it supports or requires. */
  ghost predicate Defined(registry: Registry, n: PlanNode) {
    && n.metric in registry.definitions
    && var definition := registry.definitions[n.metric];
       n.version == definition.version
       && if definition.supportedGroupings != [] then n.grouping in definition.supportedGroupings
          else definition.groupingRequirement == Some(n.grouping)
  }

  /**
   * An executable node serves some eligible metrics, which all its dependencies serve too; a blocked one serves none.
   */
  ghost predicate Served(plan: Plan, n: PlanNode) {
    && (forall d :: d in n.dependencyIds ==> exists x :: Names(plan.nodes, d, x))
    && if n.state == Executable
       then
         && n.authorized != [] && (forall m :: m in n.authorized ==> m in plan.eligible)
         && forall d, x :: d in n.dependencyIds && Names(plan.nodes, d, x) ==>
              x.state == Executable && forall m :: m in n.authorized ==> m in x.authorized
       else n.authorized == []
  }

  /** The node's populations have its grouping, and its periods, if it names any, are theirs. */
  ghost predicate Populated(plan: Plan, n: PlanNode) {
    && (forall id :: id in n.populationRefs ==>
         exists p :: Draws(plan.populations, id, p) && p.grouping == n.grouping)
    && (n.periodRefs != [] ==>
         |n.periodRefs| == |n.populationRefs|
         && forall i, p :: 0 <= i < |n.periodRefs| && Draws(plan.populations, n.populationRefs[i], p) ==>
              p.period == n.periodRefs[i])
  }

  /** There are dependencies, and all cover the same populations and periods. */
  ghost predicate OneScope(plan: Plan, n: PlanNode) {
    n.dependencyIds != []
    && forall d, e, x, y ::
         d in n.dependencyIds && e in n.dependencyIds && Names(plan.nodes, d, x) && Names(plan.nodes, e, y) ==>
           x.populationRefs == y.populationRefs && x.periodRefs == y.periodRefs
  }

  predicate RevenueOf(n: PlanNode, p: Population) {
    n.metric == Revenue && n.grouping == Whole && n.populationRefs == [p.id] && n.periodRefs == [p.period]
  }

  /**
   * One dependency is the ungrouped Revenue of the baseline population, the other that of the comparison population.
   */
  ghost predicate ComparesRevenue(plan: Plan, n: PlanNode) {
    && |n.dependencyIds| == 2 && |n.populationRefs| == 2
    && exists p, q, x, y ::
         && Draws(plan.populations, n.populationRefs[0], p) && Draws(plan.populations, n.populationRefs[1], q)
         && p.role != q.role
         && Names(plan.nodes, n.dependencyIds[0], x) && Names(plan.nodes, n.dependencyIds[1], y)
         && ((RevenueOf(x, p) && RevenueOf(y, q)) || (RevenueOf(x, q) && RevenueOf(y, p)))
  }

  ghost predicate SoundNode(plan: Plan, registry: Registry, n: PlanNode) {
    && Defined(registry, n) && Served(plan, n) && Populated(plan, n)
    && (n.metric == Aov ==> OneScope(plan, n)) && (n.metric == RevenueChange ==> ComparesRevenue(plan, n))
  }

  /** What a plan has to be, said of its lists of nodes and populations. */
  ghost predicate Sound(plan: Plan, registry: Registry) {
    && (forall id :: id in plan.populationRefs <==> exists p :: p in plan.populations && p.id == id)
    && NoDuplicates(plan.requested) && NoDuplicates(plan.eligible)
    && (forall m :: m in plan.eligible ==> m in plan.requested)
    && (forall m :: m in plan.requested ==> m in registry.definitions)
    && (forall n :: n in plan.nodes ==> SoundNode(plan, registry, n))
    && (forall m :: m in plan.eligible ==>
         exists n :: n in plan.nodes && n.metric == m && n.state == Executable && m in n.authorized)
  }

  lemma {:induction false} NodeByIdNames(nodes: seq<PlanNode>, id: NodeId)
    ensures id in NodeById(nodes) ==> Names(nodes, id, NodeById(nodes)[id])
    ensures forall n :: Names(nodes, id, n) ==> id in NodeById(nodes) && NodeById(nodes)[id] == n
  {
    if nodes != [] {
      var k := |nodes| - 1;
      NodeByIdNames(nodes[..k], id);
      forall n ensures Names(nodes, id, n) <==> if nodes[k].id == id then n == nodes[k] else Names(nodes[..k], id, n) {
        LastNames(nodes, k, id, n);
      }
    }
  }

  lemma LastNames(nodes: seq<PlanNode>, k: nat, id: NodeId, n: PlanNode)
    requires |nodes| == k + 1
    ensures Names(nodes, id, n) <==> if nodes[k].id == id then n == nodes[k] else Names(nodes[..k], id, n)
  {
    if nodes[k].id != id && Names(nodes[..k], id, n) {
      var i :| 0 <= i < k && nodes[..k][i] == n && n.id == id && forall j :: i < j < k ==> nodes[..k][j].id != id;
      assert forall j :: i < j < k ==> nodes[..k][j] == nodes[j];
    }
    if Names(nodes, id, n) {
      var i :| 0 <= i < |nodes| && nodes[i] == n && n.id == id && forall j :: i < j < |nodes| ==> nodes[j].id != id;
      assert i < k ==> nodes[..k][i] == n;
    }
  }

  lemma {:induction false} PopulationByIdDraws(populations: seq<Population>, id: PopulationId)
    ensures id in PopulationById(populations) ==> Draws(populations, id, PopulationById(populations)[id])
    ensures forall p :: Draws(populations, id, p) ==>
      id in PopulationById(populations) && PopulationById(populations)[id] == p
    ensures id in PopulationById(populations) <==> exists p :: p in populations && p.id == id
  {
    if populations != [] {
      var k := |populations| - 1;
      PopulationByIdDraws(populations[..k], id);
      assert forall p :: p in populations <==> p in populations[..k] || p == populations[k];
      forall p
        ensures Draws(populations, id, p)
          <==> if populations[k].id == id then p == populations[k] else Draws(populations[..k], id, p)
      {
        LastDraws(populations, k, id, p);
      }
    }
  }

  lemma LastDraws(populations: seq<Population>, k: nat, id: PopulationId, p: Population)
    requires |populations| == k + 1
    ensures Draws(populations, id, p)
      <==> if populations[k].id == id then p == populations[k] else Draws(populations[..k], id, p)
  {
    var before := populations[..k];
    if populations[k].id != id && Draws(before, id, p) {
      var i :| 0 <= i < k && before[i] == p && p.id == id && forall j :: i < j < k ==> before[j].id != id;
      assert forall j :: i < j < k ==> before[j] == populations[j];
    }
    if Draws(populations, id, p) {
      var i :| 0 <= i < |populations| && populations[i] == p && p.id == id
               && forall j :: i < j < |populations| ==> populations[j].id != id;
      assert i < k ==> before[i] == p;
    }
  }

  /** The maps the checks look identities up in. */
  ghost predicate Lookups(plan: Plan, nodes: map<NodeId, PlanNode>, populations: map<PopulationId, Population>) {
    && (forall id, n :: Names(plan.nodes, id, n) <==> id in nodes && nodes[id] == n)
    && (forall id, p :: Draws(plan.populations, id, p) <==> id in populations && populations[id] == p)
    && (forall id :: id in populations ==> populations[id].id == id)
  }

  lemma PlanLookups(plan: Plan)
    ensures Lookups(plan, NodeById(plan.nodes), PopulationById(plan.populations))
  {
    hide Names, Draws;
    var nodes, populations := NodeById(plan.nodes), PopulationById(plan.populations);
    forall id, n ensures Names(plan.nodes, id, n) <==> id in nodes && nodes[id] == n { NodeByIdNames(plan.nodes, id); }
    forall id, p ensures Draws(plan.populations, id, p) <==> id in populations && populations[id] == p {
      PopulationByIdDraws(plan.populations, id);
    }
    forall id | id in populations ensures populations[id].id == id {
      PopulationByIdDraws(plan.populations, id);
      DrawnId(plan.populations, id, populations[id]);
    }
  }

  lemma DrawnId(populations: seq<Population>, id: PopulationId, p: Population)
    requires Draws(populations, id, p)
    ensures p.id == id
  {}

  /** OneScope, looked up. */
  ghost predicate SameScopes(n: PlanNode, nodes: map<NodeId, PlanNode>)
    requires forall d :: d in n.dependencyIds ==> d in nodes
  {
    n.dependencyIds != []
    && forall d, e :: d in n.dependencyIds && e in n.dependencyIds ==>
         nodes[d].populationRefs == nodes[e].populationRefs && nodes[d].periodRefs == nodes[e].periodRefs
  }

  lemma AovAcceptedIs(n: PlanNode, nodes: map<NodeId, PlanNode>)
    requires forall d :: d in n.dependencyIds ==> d in nodes
    ensures AovAccepted(n, nodes) <==> SameScopes(n, nodes)
  {
    var refs := map d | d in n.dependencyIds :: nodes[d].populationRefs;
    var periods := map d | d in n.dependencyIds :: nodes[d].periodRefs;
    OneImage(n.dependencyIds, refs);
    OneImage(n.dependencyIds, periods);
    assert (set d | d in n.dependencyIds :: refs[d]) == set d | d in n.dependencyIds :: nodes[d].populationRefs;
    assert (set d | d in n.dependencyIds :: periods[d]) == set d | d in n.dependencyIds :: nodes[d].periodRefs;
  }

  lemma OneImage<T>(ids: seq<NodeId>, f: map<NodeId, T>)
    requires forall d :: d in ids ==> d in f
    ensures |set d | d in ids :: f[d]| == 1 <==> ids != [] && forall d, e :: d in ids && e in ids ==> f[d] == f[e]
  {
    var image := set d | d in ids :: f[d];
    OneElement(image);
    if ids == [] {
      assert image == {};
    } else {
      assert f[ids[0]] in image && forall d :: d in ids ==> f[d] in image;
    }
  }

  lemma OneScopeAccepted(plan: Plan, n: PlanNode, nodes: map<NodeId, PlanNode>,
                         populations: map<PopulationId, Population>)
    requires Lookups(plan, nodes, populations) && forall d :: d in n.dependencyIds ==> d in nodes
    ensures AovAccepted(n, nodes) <==> OneScope(plan, n)
  {
    hide Names, Draws, AovAccepted;
    AovAcceptedIs(n, nodes);
    if OneScope(plan, n) {
      forall d, e | d in n.dependencyIds && e in n.dependencyIds
        ensures nodes[d].populationRefs == nodes[e].populationRefs && nodes[d].periodRefs == nodes[e].periodRefs
      {
        assert Names(plan.nodes, d, nodes[d]) && Names(plan.nodes, e, nodes[e]);
      }
    }
  }

  lemma OneElement<T>(s: set<T>)
    ensures |s| == 1 <==> s != {} && forall x, y :: x in s && y in s ==> x == y
  {
    if |s| == 1 {
      var x :| x in s;
      assert |s - {x}| == 0;
      assert forall y :: y in s ==> y == x by { assert s - {x} == {}; }
    } else if s != {} && forall x, y :: x in s && y in s ==> x == y {
      var x :| x in s;
      assert s == {x};
    }
  }

  lemma ComparesAccepted(plan: Plan, n: PlanNode, nodes: map<NodeId, PlanNode>,
                         populations: map<PopulationId, Population>)
    requires Lookups(plan, nodes, populations) && forall d :: d in n.dependencyIds ==> d in nodes
    requires forall p :: p in n.populationRefs ==> p in populations
    ensures RevenueChangeAccepted(n, nodes, populations) <==> ComparesRevenue(plan, n)
  {
    hide Names, Draws;
    if |n.dependencyIds| == 2 && |n.populationRefs| == 2 {
      var p, q := populations[n.populationRefs[0]], populations[n.populationRefs[1]];
      var x, y := nodes[n.dependencyIds[0]], nodes[n.dependencyIds[1]];
      assert Draws(plan.populations, n.populationRefs[0], p) && Draws(plan.populations, n.populationRefs[1], q);
      assert Names(plan.nodes, n.dependencyIds[0], x) && Names(plan.nodes, n.dependencyIds[1], y);
      RolesDiffer(p.role, q.role);
      if p.role != q.role { TwoRoles(n.dependencyIds, nodes, populations, p, q); }
    }
  }

  lemma RolesDiffer(a: Role, b: Role)
    ensures {a, b} == {Baseline, Comparison} <==> a != b
  {
    assert a == Baseline || a == Comparison;
    assert b == Baseline || b == Comparison;
    if a == b { assert {a, b} == {a}; assert Baseline !in {a} || Comparison !in {a}; }
  }

  lemma TwoRoles(deps: seq<NodeId>, nodes: map<NodeId, PlanNode>, populations: map<PopulationId, Population>,
                 p: Population, q: Population)
    requires |deps| == 2 && deps[0] in nodes && deps[1] in nodes && p.role != q.role
    requires p.id in populations && populations[p.id] == p && q.id in populations && populations[q.id] == q
    ensures var x, y := nodes[deps[0]], nodes[deps[1]];
      RevenueRoles(deps, {}, nodes, populations, map[p.role := p.id, q.role := q.id]) == Some({Baseline, Comparison})
      <==> (RevenueOf(x, p) && RevenueOf(y, q)) || (RevenueOf(x, q) && RevenueOf(y, p))
  {
    var parents := map[p.role := p.id, q.role := q.id];
    RoleStep(deps, {}, nodes, populations, p, q);
    var first := RoleTaken(nodes[deps[0]], {}, p, q);
    RolesDiffer(p.role, q.role);
    RolesDiffer(q.role, p.role);
    if first.Some? {
      var rest, seen := deps[1..], {} + {first.value};
      assert seen == {first.value};
      RoleStep(rest, seen, nodes, populations, p, q);
      var second := RoleTaken(nodes[rest[0]], seen, p, q);
      if second.Some? {
        assert RevenueRoles(rest[1..], seen + {second.value}, nodes, populations, parents)
          == Some(seen + {second.value});
        assert seen + {second.value} == {first.value, second.value};
      }
    }
  }

  /** The role a dependency fills, when it is the ungrouped Revenue of one of the two populations. */
  ghost function RoleTaken(x: PlanNode, seen: set<Role>, p: Population, q: Population): Option<Role> {
    if RevenueOf(x, p) && p.role !in seen then Some(p.role)
    else if RevenueOf(x, q) && q.role !in seen then Some(q.role)
    else None
  }

  lemma RoleStep(deps: seq<NodeId>, seen: set<Role>, nodes: map<NodeId, PlanNode>,
                 populations: map<PopulationId, Population>, p: Population, q: Population)
    requires deps != [] && deps[0] in nodes && p.role != q.role
    requires p.id in populations && populations[p.id] == p && q.id in populations && populations[q.id] == q
    ensures var parents := map[p.role := p.id, q.role := q.id];
      RevenueRoles(deps, seen, nodes, populations, parents) ==
        match RoleTaken(nodes[deps[0]], seen, p, q)
        case None => None
        case Some(r) => RevenueRoles(deps[1..], seen + {r}, nodes, populations, parents)
  {}

  lemma SoundNodeAccepted(plan: Plan, registry: Registry, n: PlanNode)
    ensures NodeAccepted(n, NodeById(plan.nodes), PopulationById(plan.populations), plan.eligible, registry)
      <==> SoundNode(plan, registry, n)
  {
    hide Names, Draws, NodeById, PopulationById, AovAccepted, RevenueChangeAccepted, OneScope, ComparesRevenue;
    PlanLookups(plan);
    var nodes, populations := NodeById(plan.nodes), PopulationById(plan.populations);
    if forall d :: d in n.dependencyIds ==> d in nodes {
      OneScopeAccepted(plan, n, nodes, populations);
      if forall p :: p in n.populationRefs ==> p in populations { ComparesAccepted(plan, n, nodes, populations); }
    }
    ServedAccepted(plan, n, nodes, populations);
    PopulatedAccepted(plan, n, nodes, populations);
    hide Lookups, Served, Populated;
  }

  lemma ServedAccepted(plan: Plan, n: PlanNode, nodes: map<NodeId, PlanNode>,
                       populations: map<PopulationId, Population>)
    requires Lookups(plan, nodes, populations)
    ensures (forall d :: d in n.dependencyIds ==> d in nodes) && StateAccepted(n, nodes, plan.eligible)
      <==> Served(plan, n)
  {
    hide Names, Draws;
    assert forall d :: d in nodes ==> Names(plan.nodes, d, nodes[d]);
  }

  ghost predicate ScopeAccepted(n: PlanNode, populations: map<PopulationId, Population>) {
    && (forall p :: p in n.populationRefs ==> p in populations && populations[p].grouping == n.grouping)
    && (n.periodRefs != [] ==>
          |n.periodRefs| == |n.populationRefs|
          && forall i :: 0 <= i < |n.periodRefs| ==> populations[n.populationRefs[i]].period == n.periodRefs[i])
  }

  lemma PopulatedAccepted(plan: Plan, n: PlanNode, nodes: map<NodeId, PlanNode>,
                          populations: map<PopulationId, Population>)
    requires Lookups(plan, nodes, populations)
    ensures ScopeAccepted(n, populations) <==> Populated(plan, n)
  {
    hide Names, Draws;
    assert forall p :: p in populations ==> Draws(plan.populations, p, populations[p]);
  }

  /** The checks accept exactly the plans that are as they have to be. */
  lemma AcceptsExactly(plan: Plan, registry: Registry)
    ensures Accepts(plan, registry) <==> Sound(plan, registry)
  {
    hide NodeAccepted, SoundNode, NodeById, PopulationById, Unique, NoDuplicates;
    UniqueLength(plan.requested);
    UniqueLength(plan.eligible);
    forall n ensures NodeAccepted(n, NodeById(plan.nodes), PopulationById(plan.populations), plan.eligible, registry)
      <==> SoundNode(plan, registry, n)
    {
      SoundNodeAccepted(plan, registry, n);
    }
    forall id ensures id in PopulationById(plan.populations) <==> exists p :: p in plan.populations && p.id == id {
      PopulationByIdDraws(plan.populations, id);
    }
    HeaderExactly(plan);
  }

  lemma HeaderExactly(plan: Plan)
    ensures (set p | p in plan.populationRefs) == PopulationById(plan.populations).Keys <==>
      forall id :: id in plan.populationRefs <==> id in PopulationById(plan.populations)
  {
    var refs := set p | p in plan.populationRefs;
    assert forall id :: id in refs <==> id in plan.populationRefs;
  }

  /** The validator: the header, then node by node, then one executable root for each eligible metric. */
  method Validate(plan: Plan, registry: Registry) returns (accepted: bool)
    ensures accepted <==> Accepts(plan, registry)
    ensures accepted <==> Sound(plan, registry)
  {
    hide Sound;
    AcceptsExactly(plan, registry);
    if !HeaderAccepted(plan, registry) {
      return false;
    }
    var nodes, populations := NodeById(plan.nodes), PopulationById(plan.populations);
    for i := 0 to |plan.nodes|
      invariant forall k :: 0 <= k < i ==> NodeAccepted(plan.nodes[k], nodes, populations, plan.eligible, registry)
    {
      if !NodeAccepted(plan.nodes[i], nodes, populations, plan.eligible, registry) {
        assert plan.nodes[i] in plan.nodes;
        return false;
      }
    }
    for i := 0 to |plan.eligible|
      invariant forall k :: 0 <= k < i ==> RootPresent(plan.nodes, plan.eligible[k])
    {
      if !RootPresent(plan.nodes, plan.eligible[i]) {
        assert plan.eligible[i] in plan.eligible;
        return false;
      }
    }
    return true;
  }
}
