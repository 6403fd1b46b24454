/** Authorization of plan nodes through the dependency closures of eligible requested roots. */
module PlanAuthorization {
  import opened PlanModel

  /** Every node identity reachable from one node along dependencies. */
  function Reach(id: NodeId): set<NodeId>
    decreases id, 1
  {
    {id} + ReachAll(id.deps)
  }

  /** Everything reachable from a list of nodes. */
  function ReachAll(ids: seq<NodeId>): set<NodeId>
    decreases ids, 0
  {
    if ids == [] then {} else ReachAll(ids[..|ids| - 1]) + Reach(ids[|ids| - 1])
  }

  ghost predicate DependencyClosed(ids: set<NodeId>) {
    forall id, d :: id in ids && d in id.deps ==> d in ids
  }

  lemma {:induction false} ReachInside(id: NodeId, ids: set<NodeId>)
    requires id in ids && DependencyClosed(ids)
    ensures Reach(id) <= ids
    decreases id, 1
  {
    ReachAllInside(id.deps, ids);
  }

  lemma {:induction false} ReachAllInside(roots: seq<NodeId>, ids: set<NodeId>)
    requires DependencyClosed(ids) && forall root :: root in roots ==> root in ids
    ensures ReachAll(roots) <= ids
    decreases roots, 0
  {
    if roots != [] {
      var n := |roots| - 1;
      ReachAllInside(roots[..n], ids);
      ReachInside(roots[n], ids);
    }
  }

  lemma {:induction false} ReachAllHas(roots: seq<NodeId>, root: NodeId)
    requires root in roots
    ensures root in ReachAll(roots)
  {
    var n := |roots| - 1;
    if root != roots[n] { ReachAllHas(roots[..n], root); }
  }

  lemma {:induction false} ReachClosed(id: NodeId)
    ensures DependencyClosed(Reach(id))
    decreases id, 1
  {
    ReachAllClosed(id.deps);
    forall d | d in id.deps ensures d in ReachAll(id.deps) { ReachAllHas(id.deps, d); }
  }

  lemma {:induction false} ReachAllClosed(roots: seq<NodeId>)
    ensures DependencyClosed(ReachAll(roots))
    decreases roots, 0
  {
    if roots != [] {
      var n := |roots| - 1;
      ReachAllClosed(roots[..n]);
      ReachClosed(roots[n]);
    }
  }

  function Ids(nodes: seq<PlanNode>): set<NodeId> {
    set n | n in nodes :: n.id
  }

  /** Node lists the compiler produces: identity carries the dependencies, which come strictly earlier. */
  ghost predicate Topological(nodes: seq<PlanNode>) {
    && (forall i, j :: 0 <= i < j < |nodes| ==> nodes[i].id != nodes[j].id)
    && (forall i :: 0 <= i < |nodes| ==> nodes[i].dependencyIds == nodes[i].id.deps)
    && (forall i, d :: 0 <= i < |nodes| && d in nodes[i].dependencyIds ==> exists j :: 0 <= j < i && nodes[j].id == d)
  }

  lemma TopologicalClosed(nodes: seq<PlanNode>)
    requires Topological(nodes)
    ensures DependencyClosed(Ids(nodes))
  {
    forall id, d | id in Ids(nodes) && d in id.deps ensures d in Ids(nodes) {
      var n :| n in nodes && n.id == id;
      var i :| 0 <= i < |nodes| && nodes[i] == n;
      var j :| 0 <= j < i && nodes[j].id == d;
      assert nodes[j] in nodes;
    }
  }

  /** The identities carrying metric m. */
  ghost function Carrying(authorized: map<NodeId, set<MetricId>>, m: MetricId): set<NodeId> {
    set id | id in authorized && m in authorized[id]
  }

  lemma CarryingAdd(authorized: map<NodeId, set<MetricId>>, id: NodeId, metric: MetricId)
    requires id in authorized
    ensures Carrying(authorized[id := authorized[id] + {metric}], metric) == Carrying(authorized, metric) + {id}
    ensures forall m :: m != metric ==>
      Carrying(authorized[id := authorized[id] + {metric}], m) == Carrying(authorized, m)
  {}

  /** Worklist invariant: whatever is carried has its dependencies carried or waiting. */
  ghost predicate Frontier(carried: set<NodeId>, stack: seq<NodeId>) {
    forall id, d :: id in carried && d in id.deps ==> d in carried || d in stack
  }

  /** One worklist pass from one root, over the shared per-node authorization sets. */
  method AuthorizeClosure(authorized: map<NodeId, set<MetricId>>, metric: MetricId, root: NodeId)
    returns (r: map<NodeId, set<MetricId>>)
    requires DependencyClosed(authorized.Keys) && root in authorized
    requires DependencyClosed(Carrying(authorized, metric))
    ensures r.Keys == authorized.Keys
    ensures Carrying(r, metric) == Carrying(authorized, metric) + Reach(root)
    ensures forall m :: m != metric ==> Carrying(r, m) == Carrying(authorized, m)
  {
    ReachInside(root, authorized.Keys);
    ReachClosed(root);
    ghost var start, target := Carrying(authorized, metric), Reach(root);
    ghost var carried := start;
    r := authorized;
    var stack := [root];
    while stack != []
      invariant r.Keys == authorized.Keys && target <= r.Keys
      invariant forall m :: m != metric ==> Carrying(r, m) == Carrying(authorized, m)
      invariant carried == Carrying(r, metric) && start <= carried <= start + target
      invariant forall id :: id in stack ==> id in target
      invariant Frontier(carried, stack) && (root in carried || root in stack)
      decreases r.Keys - carried, |stack|
    {
      var n := |stack| - 1;
      var current := stack[n];
      assert forall id :: id in stack <==> id in stack[..n] || id == current;
      stack := stack[..n];
      if metric !in r[current] {
        CarryingAdd(r, current, metric);
        r := r[current := r[current] + {metric}];
        carried := carried + {current};
        stack := stack + current.deps;
      }
    }
    assert DependencyClosed(carried);
    ReachInside(root, carried);
  }

  lemma CarriedClosed(requested: seq<MetricId>, roots: map<MetricId, seq<NodeId>>, eligible: map<MetricId, bool>,
                      m: MetricId)
    requires forall x :: x in requested ==> x in roots && x in eligible
    ensures DependencyClosed(Entitled(requested, roots, eligible, m))
  {
    hide ReachAll;
    if m in requested { ReachAllClosed(roots[m]); }
  }

  /** What authorization must establish: eligible requested metrics carry exactly what their roots reach. */
  ghost function Entitled(requested: seq<MetricId>, roots: map<MetricId, seq<NodeId>>, eligible: map<MetricId, bool>,
                          m: MetricId): set<NodeId>
    requires forall x :: x in requested ==> x in roots && x in eligible
  {
    if m in requested && eligible[m] then ReachAll(roots[m]) else {}
  }

  /** The inner loop: one eligible metric, root by root. */
  method AuthorizeRoots(authorized: map<NodeId, set<MetricId>>, metric: MetricId, roots: seq<NodeId>)
    returns (r: map<NodeId, set<MetricId>>)
    requires DependencyClosed(authorized.Keys) && forall root :: root in roots ==> root in authorized
    requires DependencyClosed(Carrying(authorized, metric))
    ensures r.Keys == authorized.Keys
    ensures Carrying(r, metric) == Carrying(authorized, metric) + ReachAll(roots)
    ensures forall m :: m != metric ==> Carrying(r, m) == Carrying(authorized, m)
  {
    r := authorized;
    for j := 0 to |roots|
      invariant r.Keys == authorized.Keys
      invariant Carrying(r, metric) == Carrying(authorized, metric) + ReachAll(roots[..j])
      invariant forall m :: m != metric ==> Carrying(r, m) == Carrying(authorized, m)
    {
      ReachAllClosed(roots[..j]);
      r := AuthorizeClosure(r, metric, roots[j]);
      assert roots[..j + 1][..j] == roots[..j];
    }
    assert roots[..|roots|] == roots;
  }

  /** One more requested metric adds what its roots reach, when it is eligible. */
  lemma EntitledNext(requested: seq<MetricId>, i: nat, roots: map<MetricId, seq<NodeId>>, eligible: map<MetricId, bool>,
                     m: MetricId)
    requires i < |requested| && forall x :: x in requested ==> x in roots && x in eligible
    ensures Entitled(requested[..i + 1], roots, eligible, m)
            == Entitled(requested[..i], roots, eligible, m) + Entitled([requested[i]], roots, eligible, m)
  {
    hide ReachAll;
    assert m in requested[..i + 1] <==> m in requested[..i] || m == requested[i];
  }

  lemma NothingCarried(ids: set<NodeId>, m: MetricId)
    ensures Carrying(map id | id in ids :: {}, m) == {}
  {}

  method AuthorizeAll(nodes: seq<PlanNode>, requested: seq<MetricId>, roots: map<MetricId, seq<NodeId>>,
                      eligible: map<MetricId, bool>)
    returns (authorized: map<NodeId, set<MetricId>>)
    requires Topological(nodes)
    requires forall x :: x in requested ==> x in roots && x in eligible
    requires forall m, root :: m in roots && root in roots[m] ==> root in Ids(nodes)
    ensures authorized.Keys == Ids(nodes)
    ensures forall m :: Carrying(authorized, m) == Entitled(requested, roots, eligible, m)
  {
    hide Topological, ReachAll, Carrying, Ids, DependencyClosed;
    TopologicalClosed(nodes);
    authorized := map id | id in Ids(nodes) :: {};
    forall m ensures Carrying(authorized, m) == {} { NothingCarried(Ids(nodes), m); }
    for i := 0 to |requested|
      invariant authorized.Keys == Ids(nodes)
      invariant forall m :: Carrying(authorized, m) == Entitled(requested[..i], roots, eligible, m)
    {
      var metric := requested[i];
      forall m { EntitledNext(requested, i, roots, eligible, m); }
      if eligible[metric] {
        CarriedClosed(requested[..i], roots, eligible, metric);
        authorized := AuthorizeRoots(authorized, metric, roots[metric]);
      }
    }
    assert requested[..|requested|] == requested;
  }
}
