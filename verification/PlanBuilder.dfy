/** The memoised dependency compiler and the tree recursion it refines. */
module PlanBuilder {
  import opened Common
  import opened PlanModel

  // ---- Dependency keys of one node, in the order the compiler visits them ----

  function KeysOf(metric: MetricId, roles: seq<Option<Role>>,
                  grouping: Result<Grouping, PlanningError>): (r: seq<Result<Key, PlanningError>>)
    ensures forall c :: c in r && c.Ok? ==> c.value.metric == metric
  {
    if roles == [] then []
    else
      var head := match grouping case Err(e) => Err(e) case Ok(g) => Ok(Key(metric, roles[0], g));
      [head] + KeysOf(metric, roles[1..], grouping)
  }

  function ChildrenOf(registry: Registry, dependencies: seq<Dependency>,
                      parent: Option<Role>): (r: seq<Result<Key, PlanningError>>)
    requires forall d :: d in dependencies ==> d.metric in registry.definitions
    ensures forall c :: c in r && c.Ok? ==> exists d :: d in dependencies && d.metric == c.value.metric
  {
    if dependencies == [] then []
    else
      var d := dependencies[0];
      var keys := match DependencyRoles(d, parent)
                  case Err(e) => [Err(e)]
                  case Ok(roles) => KeysOf(d.metric, roles, DependencyGrouping(d, registry));
      assert d in dependencies && forall x :: x in dependencies[1..] ==> x in dependencies;
      keys + ChildrenOf(registry, dependencies[1..], parent)
  }

  ghost predicate Below(children: seq<Result<Key, PlanningError>>, registry: Registry, rank: MetricId -> nat,
                        bound: nat) {
    forall c :: c in children && c.Ok? ==> c.value.metric in registry.definitions && rank(c.value.metric) < bound
  }

  function Children(registry: Registry, ghost rank: MetricId -> nat, key: Key): (r: seq<Result<Key, PlanningError>>)
    requires Ranked(registry, rank) && key.metric in registry.definitions
    ensures Below(r, registry, rank, rank(key.metric))
  {
    var definition := registry.definitions[key.metric];
    ChildrenOf(registry, EffectiveDependencies(definition.dependencies, key.grouping), key.role)
  }

  // ---- Reference semantics: recursion over the tree, with no sharing ----

  ghost function Compile(registry: Registry, rank: MetricId -> nat, populations: seq<Population>,
                         key: Key): Result<NodeId, PlanningError>
    requires Ranked(registry, rank) && key.metric in registry.definitions
    decreases rank(key.metric), 1, 0
  {
    var definition := registry.definitions[key.metric];
    match GroupingError(definition, key.grouping)
    case Some(e) => Err(e)
    case None =>
      match CompileAll(registry, rank, populations, Children(registry, rank, key), rank(key.metric))
      case Err(e) => Err(e)
      case Ok(deps) => Ok(NodeFor(definition, populations, key, deps).id)
  }

  ghost function CompileAll(registry: Registry, rank: MetricId -> nat, populations: seq<Population>,
                            children: seq<Result<Key, PlanningError>>, bound: nat): Result<seq<NodeId>, PlanningError>
    requires Ranked(registry, rank) && Below(children, registry, rank, bound)
    decreases bound, 0, |children|
  {
    if children == [] then Ok([])
    else
      var n := |children| - 1;
      match CompileAll(registry, rank, populations, children[..n], bound)
      case Err(e) => Err(e)
      case Ok(ids) =>
        match children[n]
        case Err(e) => Err(e)
        case Ok(k) =>
          match Compile(registry, rank, populations, k)
          case Err(e) => Err(e)
          case Ok(id) => Ok(ids + [id])
  }

  /** Every key reachable from a key along dependencies, itself included. */
  ghost function Closure(registry: Registry, rank: MetricId -> nat, key: Key): set<Key>
    requires Ranked(registry, rank) && key.metric in registry.definitions
    decreases rank(key.metric), 1, 0
  {
    {key} + ClosureAll(registry, rank, Children(registry, rank, key), rank(key.metric))
  }

  ghost function ClosureAll(registry: Registry, rank: MetricId -> nat, children: seq<Result<Key, PlanningError>>,
                            bound: nat): set<Key>
    requires Ranked(registry, rank) && Below(children, registry, rank, bound)
    decreases bound, 0, |children|
  {
    if children == [] then {}
    else
      var n := |children| - 1;
      ClosureAll(registry, rank, children[..n], bound)
      + if children[n].Ok? then Closure(registry, rank, children[n].value) else {}
  }

  lemma {:induction false} ClosureRank(registry: Registry, rank: MetricId -> nat, key: Key)
    requires Ranked(registry, rank) && key.metric in registry.definitions
    ensures forall k :: k in Closure(registry, rank, key) ==>
      k.metric in registry.definitions && (k == key || rank(k.metric) < rank(key.metric))
    decreases rank(key.metric), 1, 0
  {
    ClosureAllRank(registry, rank, Children(registry, rank, key), rank(key.metric));
  }

  lemma {:induction false} ClosureAllRank(registry: Registry, rank: MetricId -> nat,
                                          children: seq<Result<Key, PlanningError>>, bound: nat)
    requires Ranked(registry, rank) && Below(children, registry, rank, bound)
    ensures forall k :: k in ClosureAll(registry, rank, children, bound) ==>
      k.metric in registry.definitions && rank(k.metric) < bound
    decreases bound, 0, |children|
  {
    if children != [] {
      var n := |children| - 1;
      ClosureAllRank(registry, rank, children[..n], bound);
      if children[n].Ok? { ClosureRank(registry, rank, children[n].value); }
    }
  }

  lemma {:induction false} ClosureAllHas(registry: Registry, rank: MetricId -> nat,
                                         children: seq<Result<Key, PlanningError>>, bound: nat, i: nat)
    requires Ranked(registry, rank) && Below(children, registry, rank, bound)
    requires i < |children| && children[i].Ok?
    ensures Closure(registry, rank, children[i].value) <= ClosureAll(registry, rank, children, bound)
    decreases |children|
  {
    var n := |children| - 1;
    if i < n { ClosureAllHas(registry, rank, children[..n], bound, i); }
  }

  /** The first failing child decides the outcome of the whole list. */
  lemma {:induction false} CompileAllError(registry: Registry, rank: MetricId -> nat, populations: seq<Population>,
                                           children: seq<Result<Key, PlanningError>>, bound: nat, n: nat)
    requires Ranked(registry, rank) && Below(children, registry, rank, bound) && n <= |children|
    requires Below(children[..n], registry, rank, bound)
    requires CompileAll(registry, rank, populations, children[..n], bound).Err?
    ensures CompileAll(registry, rank, populations, children, bound)
      == CompileAll(registry, rank, populations, children[..n], bound)
    decreases |children|
  {
    var m := |children| - 1;
    if n <= m {
      assert children[..m][..n] == children[..n];
      CompileAllError(registry, rank, populations, children[..m], bound, n);
    } else {
      assert children[..n] == children;
    }
  }

  /** A successful list succeeds child by child, and lists the children's identities. */
  lemma {:induction false} CompileAllOk(registry: Registry, rank: MetricId -> nat, populations: seq<Population>,
                                        children: seq<Result<Key, PlanningError>>, bound: nat)
    requires Ranked(registry, rank) && Below(children, registry, rank, bound)
    requires CompileAll(registry, rank, populations, children, bound).Ok?
    ensures |CompileAll(registry, rank, populations, children, bound).value| == |children|
    ensures forall i :: 0 <= i < |children| ==>
      children[i].Ok?
        && Compile(registry, rank, populations, children[i].value)
        == Ok(CompileAll(registry, rank, populations, children, bound).value[i])
    decreases |children|
  {
    if children != [] {
      var n := |children| - 1;
      CompileAllOk(registry, rank, populations, children[..n], bound);
      assert forall i :: 0 <= i < n ==> children[..n][i] == children[i];
    }
  }

  // ---- The memo table ----

  ghost function Elements<T>(s: seq<T>): set<T> {
    set x | x in s
  }

  /** Entry i of the node list is the compiled node of key i, and everything it needs is at or before i. */
  ghost predicate Entry(registry: Registry, rank: MetricId -> nat, populations: seq<Population>, nodes: seq<PlanNode>,
                        keys: seq<Key>, i: nat)
    requires Ranked(registry, rank) && i < |nodes| == |keys|
  {
    && keys[i].metric in registry.definitions
    && Compile(registry, rank, populations, keys[i]) == Ok(nodes[i].id)
    && nodes[i] == NodeFor(registry.definitions[keys[i].metric], populations, keys[i], nodes[i].dependencyIds)
    && Closure(registry, rank, keys[i]) <= Elements(keys[..i + 1])
  }

  ghost predicate Coherent(registry: Registry, rank: MetricId -> nat, populations: seq<Population>,
                           nodes: seq<PlanNode>, keys: seq<Key>) {
    && Ranked(registry, rank)
    && |nodes| == |keys|
    && NoDuplicates(keys)
    && forall i :: 0 <= i < |keys| ==> Entry(registry, rank, populations, nodes, keys, i)
  }

  lemma CoherentAppend(registry: Registry, rank: MetricId -> nat, populations: seq<Population>, nodes: seq<PlanNode>,
                       keys: seq<Key>,
                       node: PlanNode, key: Key)
    requires Coherent(registry, rank, populations, nodes, keys) && key !in keys
    requires key.metric in registry.definitions
    requires Compile(registry, rank, populations, key) == Ok(node.id)
    requires node == NodeFor(registry.definitions[key.metric], populations, key, node.dependencyIds)
    requires Closure(registry, rank, key) <= Elements(keys) + {key}
    ensures Coherent(registry, rank, populations, nodes + [node], keys + [key])
    ensures Elements(keys + [key]) == Elements(keys) + {key}
  {
    var ns, ks := nodes + [node], keys + [key];
    forall i | 0 <= i < |ks| ensures Entry(registry, rank, populations, ns, ks, i) {
      if i < |keys| {
        assert Entry(registry, rank, populations, nodes, keys, i);
        assert ks[..i + 1] == keys[..i + 1];
      } else {
        assert ks[..i + 1] == ks;
      }
    }
  }

  lemma ClosedUnderClosure(registry: Registry, rank: MetricId -> nat, populations: seq<Population>,
                           nodes: seq<PlanNode>, keys: seq<Key>, key: Key)
    requires Coherent(registry, rank, populations, nodes, keys) && key in keys
    ensures key.metric in registry.definitions && Closure(registry, rank, key) <= Elements(keys)
  {
    var i :| 0 <= i < |keys| && keys[i] == key;
    assert Entry(registry, rank, populations, nodes, keys, i);
  }

  /** A dependency key of entry i has its own entry before i. */
  lemma ChildEarlier(registry: Registry, rank: MetricId -> nat, populations: seq<Population>, nodes: seq<PlanNode>,
                     keys: seq<Key>, i: nat, c: nat)
    requires Coherent(registry, rank, populations, nodes, keys) && i < |keys| && keys[i].metric in registry.definitions
    requires c < |Children(registry, rank, keys[i])| && Children(registry, rank, keys[i])[c].Ok?
    ensures exists j :: 0 <= j < i && keys[j] == Children(registry, rank, keys[i])[c].value
  {
    var key := keys[i];
    var children := Children(registry, rank, key);
    var child := children[c].value;
    assert children[c] in children;
    assert child in keys[..i + 1] by {
      assert Entry(registry, rank, populations, nodes, keys, i);
      ClosureAllHas(registry, rank, children, rank(key.metric), c);
    }
    var j :| 0 <= j < i + 1 && keys[..i + 1][j] == child;
  }

  /** Every dependency of a node is the identity of a strictly earlier node. */
  lemma DependenciesEarlier(registry: Registry, rank: MetricId -> nat, populations: seq<Population>,
                            nodes: seq<PlanNode>, keys: seq<Key>, i: nat, d: NodeId)
    requires Coherent(registry, rank, populations, nodes, keys)
    requires i < |nodes| && d in nodes[i].dependencyIds
    ensures exists j :: 0 <= j < i && nodes[j].id == d
  {
    assert Entry(registry, rank, populations, nodes, keys, i);
    var key := keys[i];
    var children := Children(registry, rank, key);
    CompileAllOk(registry, rank, populations, children, rank(key.metric));
    var c :| 0 <= c < |children| && nodes[i].id.deps[c] == d;
    ChildEarlier(registry, rank, populations, nodes, keys, i, c);
    var j :| 0 <= j < i && keys[j] == children[c].value;
    assert Entry(registry, rank, populations, nodes, keys, j);
  }

  /** Node identities determine keys, so no two nodes share an identity. */
  lemma IdsDistinct(registry: Registry, rank: MetricId -> nat, populations: seq<Population>, nodes: seq<PlanNode>,
                    keys: seq<Key>)
    requires Coherent(registry, rank, populations, nodes, keys)
    ensures forall i :: 0 <= i < |nodes| ==> KeyOf(nodes[i].id) == keys[i]
    ensures forall i, j :: 0 <= i < j < |nodes| ==> nodes[i].id != nodes[j].id
  {
    forall i | 0 <= i < |nodes| ensures KeyOf(nodes[i].id) == keys[i] {
      assert Entry(registry, rank, populations, nodes, keys, i);
    }
  }

  // ---- The order of the nodes ----

  /** The identities of a tree, dependencies first. */
  function Post(id: NodeId): seq<NodeId>
    decreases id, 1
  {
    PostAll(id.deps) + [id]
  }

  function PostAll(ids: seq<NodeId>): seq<NodeId>
    decreases ids, 0
  {
    if ids == [] then [] else PostAll(ids[..|ids| - 1]) + Post(ids[|ids| - 1])
  }

  /** A list continued by what it does not yet hold. */
  ghost function Extend(seen: seq<NodeId>, more: seq<NodeId>): seq<NodeId> {
    if more == [] then seen
    else
      var n := |more| - 1;
      var before := Extend(seen, more[..n]);
      if more[n] in before then before else before + [more[n]]
  }

  function IdsOf(nodes: seq<PlanNode>): seq<NodeId> {
    seq(|nodes|, i requires 0 <= i < |nodes| => nodes[i].id)
  }

  lemma {:induction false} ExtendConcat(seen: seq<NodeId>, a: seq<NodeId>, b: seq<NodeId>)
    ensures Extend(seen, a + b) == Extend(Extend(seen, a), b)
  {
    if b == [] {
      assert a + b == a;
    } else {
      var n := |b| - 1;
      assert (a + b)[..|a| + n] == a + b[..n];
      ExtendConcat(seen, a, b[..n]);
    }
  }

  lemma {:induction false} ExtendKnown(seen: seq<NodeId>, more: seq<NodeId>)
    requires forall x :: x in more ==> x in seen
    ensures Extend(seen, more) == seen
  {
    if more != [] {
      assert forall x :: x in more[..|more| - 1] ==> x in more;
      ExtendKnown(seen, more[..|more| - 1]);
    }
  }

  lemma ExtendNew(seen: seq<NodeId>, id: NodeId)
    requires id !in seen
    ensures Extend(seen, [id]) == seen + [id]
  {
    assert [id][..0] == [];
    assert Extend(seen, []) == seen;
  }

  lemma NoTrees(seen: seq<NodeId>)
    ensures Extend(seen, PostAll([])) == seen
  {}

  /** One more tree. */
  lemma PostAllAppend(seen: seq<NodeId>, ids: seq<NodeId>, id: NodeId)
    ensures Extend(seen, PostAll(ids + [id])) == Extend(Extend(seen, PostAll(ids)), Post(id))
  {
    assert (ids + [id])[..|ids|] == ids;
    ExtendConcat(seen, PostAll(ids), Post(id));
  }

  /** Trees one after the other. */
  lemma {:induction false} PostAllConcat(a: seq<NodeId>, b: seq<NodeId>)
    ensures PostAll(a + b) == PostAll(a) + PostAll(b)
  {
    if b == [] {
      assert a + b == a;
    } else {
      var n := |b| - 1;
      assert (a + b)[..|a| + n] == a + b[..n];
      PostAllConcat(a, b[..n]);
      hide PostAll, Post;
      assert PostAll(a + b) == PostAll(a + b[..n]) + Post(b[n]) && PostAll(b) == PostAll(b[..n]) + Post(b[n]) by {
        PostAllLast(a + b, |a| + n);
        PostAllLast(b, n);
      }
    }
  }

  lemma PostAllLast(ids: seq<NodeId>, n: nat)
    requires |ids| == n + 1
    ensures PostAll(ids) == PostAll(ids[..n]) + Post(ids[n])
  {}

  ghost predicate ClosedList(ids: seq<NodeId>) {
    forall x, d :: x in ids && d in x.deps ==> d in ids
  }

  lemma {:induction false} PostKnown(ids: seq<NodeId>, id: NodeId)
    requires ClosedList(ids) && id in ids
    ensures forall x :: x in Post(id) ==> x in ids
    decreases id, 1
  {
    PostAllKnown(ids, id.deps);
  }

  lemma {:induction false} PostAllKnown(ids: seq<NodeId>, some: seq<NodeId>)
    requires ClosedList(ids) && forall d :: d in some ==> d in ids
    ensures forall x :: x in PostAll(some) ==> x in ids
    decreases some, 0
  {
    if some != [] {
      var n := |some| - 1;
      PostAllKnown(ids, some[..n]);
      PostKnown(ids, some[n]);
    }
  }

  lemma CoherentClosed(registry: Registry, rank: MetricId -> nat, populations: seq<Population>,
                       nodes: seq<PlanNode>, keys: seq<Key>)
    requires Coherent(registry, rank, populations, nodes, keys)
    ensures ClosedList(IdsOf(nodes))
  {
    var ids := IdsOf(nodes);
    forall x, d | x in ids && d in x.deps ensures d in ids {
      var i :| 0 <= i < |ids| && ids[i] == x;
      assert nodes[i].dependencyIds == x.deps by {
        assert Entry(registry, rank, populations, nodes, keys, i);
      }
      DependenciesEarlier(registry, rank, populations, nodes, keys, i, d);
      var j :| 0 <= j < i && nodes[j].id == d;
      assert ids[j] == d;
    }
  }

  /** A tree whose root is there already adds nothing. */
  lemma KnownTree(registry: Registry, rank: MetricId -> nat, populations: seq<Population>, nodes: seq<PlanNode>,
                  keys: seq<Key>, node: PlanNode)
    requires Coherent(registry, rank, populations, nodes, keys) && node in nodes
    ensures Extend(IdsOf(nodes), Post(node.id)) == IdsOf(nodes)
  {
    CoherentClosed(registry, rank, populations, nodes, keys);
    var i :| 0 <= i < |nodes| && nodes[i] == node;
    assert IdsOf(nodes)[i] == node.id;
    PostKnown(IdsOf(nodes), node.id);
    ExtendKnown(IdsOf(nodes), Post(node.id));
  }

  /** A new node after its dependencies completes its tree. */
  lemma NewTree(registry: Registry, rank: MetricId -> nat, populations: seq<Population>, seen: seq<NodeId>,
                nodes: seq<PlanNode>, keys: seq<Key>, node: PlanNode)
    requires Coherent(registry, rank, populations, nodes, keys) && KeyOf(node.id) !in keys
    requires IdsOf(nodes) == Extend(seen, PostAll(node.id.deps))
    ensures IdsOf(nodes + [node]) == Extend(seen, Post(node.id))
  {
    IdsDistinct(registry, rank, populations, nodes, keys);
    var ids := IdsOf(nodes);
    assert forall i :: 0 <= i < |ids| ==> KeyOf(ids[i]) == keys[i] && keys[i] in keys;
    ExtendConcat(seen, PostAll(node.id.deps), [node.id]);
    ExtendNew(ids, node.id);
    assert IdsOf(nodes + [node]) == ids + [node.id];
  }

  class Builder {
    const registry: Registry
    const populations: seq<Population>
    ghost const rank: MetricId -> nat
    var nodes: seq<PlanNode>
    var nodeKeys: map<Key, NodeId>
    ghost var keys: seq<Key>

    ghost predicate Valid()
      reads this
    {
      && Coherent(registry, rank, populations, nodes, keys)
      && nodeKeys.Keys == Elements(keys)
      && forall i :: 0 <= i < |keys| ==> nodeKeys[keys[i]] == nodes[i].id
    }

    constructor (registry: Registry, populations: seq<Population>, ghost rank: MetricId -> nat)
      requires Ranked(registry, rank)
      ensures Valid() && nodes == [] && keys == []
      ensures this.registry == registry && this.populations == populations && this.rank == rank
    {
      this.registry := registry;
      this.populations := populations;
      this.rank := rank;
      nodes, nodeKeys, keys := [], map[], [];
    }

    /** The first node with the identity. */
    method Find(key: Key) returns (node: PlanNode)
      requires Valid() && key in nodeKeys
      ensures key.metric in registry.definitions
      ensures node in nodes && Ok(node.id) == Compile(registry, rank, populations, key)
    {
      ghost var at :| 0 <= at < |keys| && keys[at] == key;
      assert Entry(registry, rank, populations, nodes, keys, at);
      var i := 0;
      while nodes[i].id != nodeKeys[key]
        invariant 0 <= i <= at
        decreases at - i
      {
        i := i + 1;
      }
      node := nodes[i];
    }

    /** The recursive compiler: look the key up, else compile its dependencies, then the node itself. */
    method AddNode(key: Key) returns (r: Result<PlanNode, PlanningError>)
      requires Valid() && key.metric in registry.definitions
      modifies this
      ensures Valid() && old(nodes) <= nodes
      ensures r.Err? ==> Compile(registry, rank, populations, key) == Err(r.error)
      ensures r.Ok? ==> Compile(registry, rank, populations, key) == Ok(r.value.id) && r.value in nodes
      ensures r.Ok? ==> Elements(keys) == old(Elements(keys)) + Closure(registry, rank, key)
      ensures r.Ok? ==> IdsOf(nodes) == Extend(old(IdsOf(nodes)), Post(r.value.id))
      decreases rank(key.metric), 1
    {
      hide Extend, Post, PostAll, IdsOf;
      if key in nodeKeys {
        var found := Find(key);
        ClosedUnderClosure(registry, rank, populations, nodes, keys, key);
        KnownTree(registry, rank, populations, nodes, keys, found);
        return Ok(found);
      }
      var definition := registry.definitions[key.metric];
      var unsupported := GroupingError(definition, key.grouping);
      if unsupported.Some? {
        return Err(unsupported.value);
      }
      var children := Children(registry, rank, key);
      var deps := AddDependencies(children, rank(key.metric));
      if deps.Err? {
        return Err(deps.error);
      }
      ClosureAllRank(registry, rank, children, rank(key.metric));
      var node := NodeFor(definition, populations, key, deps.value);
      NewTree(registry, rank, populations, old(IdsOf(nodes)), nodes, keys, node);
      Append(node, key);
      return Ok(node);
    }

    /** The loop over effective dependencies and their period roles. */
    method AddDependencies(children: seq<Result<Key, PlanningError>>, ghost bound: nat)
      returns (r: Result<seq<NodeId>, PlanningError>)
      requires Valid() && Below(children, registry, rank, bound)
      modifies this
      ensures Valid() && old(nodes) <= nodes
      ensures r == CompileAll(registry, rank, populations, children, bound)
      ensures r.Ok? ==> Elements(keys) == old(Elements(keys)) + ClosureAll(registry, rank, children, bound)
      ensures r.Ok? ==> IdsOf(nodes) == Extend(old(IdsOf(nodes)), PostAll(r.value))
      decreases bound, 0
    {
      hide Extend, Post, PostAll, IdsOf;
      NoTrees(old(IdsOf(nodes)));
      var deps: seq<NodeId> := [];
      for i := 0 to |children|
        invariant Valid() && old(nodes) <= nodes
        invariant CompileAll(registry, rank, populations, children[..i], bound) == Ok(deps)
        invariant Elements(keys) == old(Elements(keys)) + ClosureAll(registry, rank, children[..i], bound)
        invariant IdsOf(nodes) == Extend(old(IdsOf(nodes)), PostAll(deps))
      {
        assert children[..i + 1][..i] == children[..i];
        assert children[i] in children;
        if children[i].Err? {
          CompileAllError(registry, rank, populations, children, bound, i + 1);
          return Err(children[i].error);
        }
        var dependency := AddNode(children[i].value);
        if dependency.Err? {
          CompileAllError(registry, rank, populations, children, bound, i + 1);
          return Err(dependency.error);
        }
        PostAllAppend(old(IdsOf(nodes)), deps, dependency.value.id);
        deps := deps + [dependency.value.id];
      }
      assert children[..|children|] == children;
      return Ok(deps);
    }

    /** A new node goes at the end and into the memo table. */
    method Append(node: PlanNode, key: Key)
      requires Valid() && key !in keys
      requires key.metric in registry.definitions
      requires Compile(registry, rank, populations, key) == Ok(node.id)
      requires node == NodeFor(registry.definitions[key.metric], populations, key, node.dependencyIds)
      requires Closure(registry, rank, key) <= Elements(keys) + {key}
      modifies this
      ensures Valid()
      ensures nodes == old(nodes) + [node] && keys == old(keys) + [key]
      ensures nodeKeys == old(nodeKeys)[key := node.id]
      ensures Elements(keys) == old(Elements(keys)) + {key}
    {
      CoherentAppend(registry, rank, populations, nodes, keys, node, key);
      nodes := nodes + [node];
      nodeKeys := nodeKeys[key := node.id];
      keys := keys + [key];
    }
  }
}
