/** build_execution_plan: eligibility lookup, roots and finalization. */
module PlanCompilation {
  import opened Common
  import opened PlanModel
  import opened PlanBuilder
  import opened PlanAuthorization

  // ---- Eligibility entries ----

  function EntriesFor(eligibility: seq<MetricEligibility>, m: MetricId): seq<MetricEligibility> {
    if eligibility == [] then []
    else
      var n := |eligibility| - 1;
      EntriesFor(eligibility[..n], m) + if eligibility[n].metric == m then [eligibility[n]] else []
  }

  /** The dictionary of lists: every entry filed under its metric when that metric was requested. */
  method GroupEntries(wanted: set<MetricId>, eligibility: seq<MetricEligibility>)
    returns (seen: map<MetricId, seq<MetricEligibility>>)
    ensures seen.Keys == wanted
    ensures forall m :: m in wanted ==> seen[m] == EntriesFor(eligibility, m)
  {
    seen := map m | m in wanted :: [];
    for i := 0 to |eligibility|
      invariant seen.Keys == wanted
      invariant forall m :: m in wanted ==> seen[m] == EntriesFor(eligibility[..i], m)
    {
      var item := eligibility[i];
      assert eligibility[..i + 1][..i] == eligibility[..i];
      if item.metric in wanted {
        seen := seen[item.metric := seen[item.metric] + [item]];
      }
    }
    assert eligibility[..|eligibility|] == eligibility;
  }

  predicate SomeMissing(requested: seq<MetricId>, eligibility: seq<MetricEligibility>) {
    exists m :: m in requested && |EntriesFor(eligibility, m)| == 0
  }

  predicate SomeDuplicated(requested: seq<MetricId>, eligibility: seq<MetricEligibility>) {
    exists m :: m in requested && |EntriesFor(eligibility, m)| > 1
  }

  /** Exactly one entry for each requested metric, or a refusal: absence is reported before duplication. */
  method EligibilityByMetric(requested: seq<MetricId>, eligibility: seq<MetricEligibility>)
    returns (r: Result<map<MetricId, MetricEligibility>, PlanningError>)
    ensures r.Err? <==> SomeMissing(requested, eligibility) || SomeDuplicated(requested, eligibility)
    ensures r.Err? ==>
      r.error == if SomeMissing(requested, eligibility) then EligibilityMissing else EligibilityDuplicate
    ensures r.Ok? ==> forall m :: m in r.value <==> m in requested
    ensures r.Ok? ==> forall m :: m in requested ==> EntriesFor(eligibility, m) == [r.value[m]]
  {
    var wanted := set m | m in requested;
    var seen := GroupEntries(wanted, eligibility);
    for i := 0 to |requested|
      invariant forall k :: 0 <= k < i ==> |EntriesFor(eligibility, requested[k])| != 0
    {
      if |seen[requested[i]]| == 0 {
        return Err(EligibilityMissing);
      }
    }
    for i := 0 to |requested|
      invariant forall k :: 0 <= k < i ==> |EntriesFor(eligibility, requested[k])| == 1
    {
      if |seen[requested[i]]| > 1 {
        return Err(EligibilityDuplicate);
      }
    }
    return Ok(map m | m in wanted :: seen[m][0]);
  }

  // ---- Roots ----

  /** The root keys of one requested metric: one per root period role, at the effective grouping. */
  function RootKeys(registry: Registry, m: MetricId, grouping: Grouping): (r: Result<seq<Key>, PlanningError>)
    requires m in registry.definitions
    ensures r.Ok? ==> r.value != [] && forall k :: k in r.value ==> k.metric == m
  {
    match EffectiveGrouping(registry.definitions[m], grouping)
    case Err(e) => Err(e)
    case Ok(g) =>
      if registry.definitions[m].period == SinglePeriod
      then Ok([Key(m, Some(Baseline), g), Key(m, Some(Comparison), g)])
      else Ok([Key(m, None, g)])
  }

  ghost function ClosureOf(registry: Registry, rank: MetricId -> nat, keys: seq<Key>): set<Key>
    requires Ranked(registry, rank) && forall k :: k in keys ==> k.metric in registry.definitions
  {
    if keys == [] then {}
    else ClosureOf(registry, rank, keys[..|keys| - 1]) + Closure(registry, rank, keys[|keys| - 1])
  }

  /** Everything reachable from the roots of the requested metrics. */
  ghost function RequestedClosure(registry: Registry, rank: MetricId -> nat, requested: seq<MetricId>,
                                  grouping: Grouping): set<Key>
    requires Ranked(registry, rank) && forall m :: m in requested ==> m in registry.definitions
  {
    if requested == [] then {}
    else
      var n := |requested| - 1;
      var roots := RootKeys(registry, requested[n], grouping);
      RequestedClosure(registry, rank, requested[..n], grouping)
        + if roots.Ok? then ClosureOf(registry, rank, roots.value) else {}
  }

  /** id is the compiled identity of one of m's root keys. */
  ghost predicate IsRoot(registry: Registry, rank: MetricId -> nat, populations: seq<Population>, m: MetricId,
                         grouping: Grouping, id: NodeId)
    requires Ranked(registry, rank) && m in registry.definitions
  {
    var keys := RootKeys(registry, m, grouping);
    keys.Ok? && exists k :: k in keys.value && Compile(registry, rank, populations, k) == Ok(id)
  }

  ghost predicate AllCompile(registry: Registry, rank: MetricId -> nat, populations: seq<Population>, keys: seq<Key>)
    requires Ranked(registry, rank) && forall k :: k in keys ==> k.metric in registry.definitions
  {
    forall k :: k in keys ==> Compile(registry, rank, populations, k).Ok?
  }

  ghost predicate RootsCompile(registry: Registry, rank: MetricId -> nat, populations: seq<Population>, m: MetricId,
                               grouping: Grouping)
    requires Ranked(registry, rank) && m in registry.definitions
  {
    var keys := RootKeys(registry, m, grouping);
    keys.Ok? && AllCompile(registry, rank, populations, keys.value)
  }

  /** ids lists the compiled identities of keys. */
  ghost predicate Listed(registry: Registry, rank: MetricId -> nat, populations: seq<Population>, keys: seq<Key>,
                         ids: seq<NodeId>)
    requires Ranked(registry, rank) && forall k :: k in keys ==> k.metric in registry.definitions
  {
    |ids| == |keys| && forall i :: 0 <= i < |keys| ==> Compile(registry, rank, populations, keys[i]) == Ok(ids[i])
  }

  lemma ListedAppend(registry: Registry, rank: MetricId -> nat, populations: seq<Population>, keys: seq<Key>, i: nat,
                     ids: seq<NodeId>, id: NodeId)
    requires Ranked(registry, rank) && forall k :: k in keys ==> k.metric in registry.definitions
    requires i < |keys| && forall k :: k in keys[..i] ==> k.metric in registry.definitions
    requires Listed(registry, rank, populations, keys[..i], ids)
    requires keys[i] in keys && Compile(registry, rank, populations, keys[i]) == Ok(id)
    ensures forall k :: k in keys[..i + 1] ==> k.metric in registry.definitions
    ensures Listed(registry, rank, populations, keys[..i + 1], ids + [id])
    ensures ClosureOf(registry, rank, keys[..i + 1])
      == ClosureOf(registry, rank, keys[..i]) + Closure(registry, rank, keys[i])
  {
    assert keys[..i + 1][..i] == keys[..i];
    forall k | 0 <= k < i ensures Compile(registry, rank, populations, keys[k]) == Ok(ids[k]) {
      assert keys[..i][k] == keys[k];
    }
  }

  lemma ListedRoots(registry: Registry, rank: MetricId -> nat, populations: seq<Population>, m: MetricId,
                    grouping: Grouping, ids: seq<NodeId>)
    requires Ranked(registry, rank) && m in registry.definitions && RootKeys(registry, m, grouping).Ok?
    requires Listed(registry, rank, populations, RootKeys(registry, m, grouping).value, ids)
    ensures RootsCompile(registry, rank, populations, m, grouping)
    ensures forall id :: id in ids <==> IsRoot(registry, rank, populations, m, grouping, id)
  {
    var keys := RootKeys(registry, m, grouping).value;
    forall id ensures id in ids <==> IsRoot(registry, rank, populations, m, grouping, id) {
      if id in ids {
        var i :| 0 <= i < |ids| && ids[i] == id;
        assert keys[i] in keys;
      }
    }
  }

  /** add_node for a list of root keys, in order. */
  method AddKeys(builder: Builder, keys: seq<Key>) returns (r: Result<seq<NodeId>, PlanningError>)
    requires builder.Valid() && forall k :: k in keys ==> k.metric in builder.registry.definitions
    modifies builder
    ensures builder.Valid()
    ensures r.Err? ==> !AllCompile(builder.registry, builder.rank, builder.populations, keys)
    ensures r.Ok? ==> Listed(builder.registry, builder.rank, builder.populations, keys, r.value)
    ensures r.Ok? ==>
      Elements(builder.keys) == old(Elements(builder.keys)) + ClosureOf(builder.registry, builder.rank, keys)
    ensures r.Ok? ==> IdsOf(builder.nodes) == Extend(old(IdsOf(builder.nodes)), PostAll(r.value))
  {
    hide Extend, Post, PostAll, IdsOf;
    NoTrees(old(IdsOf(builder.nodes)));
    var ids: seq<NodeId> := [];
    for i := 0 to |keys|
      invariant builder.Valid()
      invariant forall k :: k in keys[..i] ==> k.metric in builder.registry.definitions
      invariant Listed(builder.registry, builder.rank, builder.populations, keys[..i], ids)
      invariant Elements(builder.keys)
        == old(Elements(builder.keys)) + ClosureOf(builder.registry, builder.rank, keys[..i])
      invariant IdsOf(builder.nodes) == Extend(old(IdsOf(builder.nodes)), PostAll(ids))
    {
      assert keys[i] in keys;
      var node := builder.AddNode(keys[i]);
      if node.Err? {
        return Err(node.error);
      }
      ListedAppend(builder.registry, builder.rank, builder.populations, keys, i, ids, node.value.id);
      PostAllAppend(old(IdsOf(builder.nodes)), ids, node.value.id);
      ids := ids + [node.value.id];
    }
    assert keys[..|keys|] == keys;
    return Ok(ids);
  }

  /** The root map after a prefix of the requested metrics. */
  ghost predicate RootsOf(registry: Registry, rank: MetricId -> nat, populations: seq<Population>,
                          requested: seq<MetricId>, grouping: Grouping,
                          roots: map<MetricId, seq<NodeId>>)
    requires Ranked(registry, rank) && forall m :: m in requested ==> m in registry.definitions
  {
    && roots.Keys == Elements(requested)
    && (forall m :: m in requested ==> RootsCompile(registry, rank, populations, m, grouping))
    && (forall m, id :: m in requested ==> (id in roots[m] <==> IsRoot(registry, rank, populations, m, grouping, id)))
  }

  lemma RootsOfAppend(registry: Registry, rank: MetricId -> nat, populations: seq<Population>, requested: seq<MetricId>,
                      m: MetricId, grouping: Grouping,
                      roots: map<MetricId, seq<NodeId>>, ids: seq<NodeId>)
    requires Ranked(registry, rank) && m in registry.definitions
    requires forall x :: x in requested ==> x in registry.definitions
    requires RootsOf(registry, rank, populations, requested, grouping, roots)
    requires RootKeys(registry, m, grouping).Ok?
    requires Listed(registry, rank, populations, RootKeys(registry, m, grouping).value, ids)
    ensures forall x :: x in requested + [m] ==> x in registry.definitions
    ensures RootsOf(registry, rank, populations, requested + [m], grouping,
                    roots[m := (if m in roots then roots[m] else []) + ids])
  {
    ListedRoots(registry, rank, populations, m, grouping, ids);
    hide IsRoot, RootsCompile, Listed, RootKeys;
    var after := requested + [m];
    var updated := roots[m := (if m in roots then roots[m] else []) + ids];
    forall x, id | x in after ensures id in updated[x] <==> IsRoot(registry, rank, populations, x, grouping, id) {
      assert x == m || x in requested;
      assert m in roots <==> m in requested;
    }
    assert updated.Keys == Elements(after);
  }

  lemma NoRoots(registry: Registry, rank: MetricId -> nat, populations: seq<Population>, grouping: Grouping)
    requires Ranked(registry, rank)
    ensures RootsOf(registry, rank, populations, [], grouping, map[])
    ensures RequestedClosure(registry, rank, [], grouping) == {}
  {}

  lemma RootsFail(registry: Registry, rank: MetricId -> nat, populations: seq<Population>, m: MetricId,
                  grouping: Grouping)
    requires Ranked(registry, rank) && m in registry.definitions
    ensures var keys := RootKeys(registry, m, grouping);
      RootsCompile(registry, rank, populations, m, grouping) <==>
        keys.Ok? && AllCompile(registry, rank, populations, keys.value)
  {
    hide RootKeys, AllCompile;
  }

  /** The root identities of all requested metrics, one metric after the other. */
  ghost predicate FlatRoots(registry: Registry, rank: MetricId -> nat, populations: seq<Population>,
                            requested: seq<MetricId>, grouping: Grouping, flat: seq<NodeId>)
    requires Ranked(registry, rank) && forall m :: m in requested ==> m in registry.definitions
  {
    if requested == [] then flat == []
    else
      var n := |requested| - 1;
      var keys := RootKeys(registry, requested[n], grouping);
      keys.Ok? && |flat| >= |keys.value|
      && FlatRoots(registry, rank, populations, requested[..n], grouping, flat[..|flat| - |keys.value|])
      && Listed(registry, rank, populations, keys.value, flat[|flat| - |keys.value|..])
  }

  /** The identities are those of the root trees, dependencies first, each where it first occurs. */
  ghost predicate Walked(registry: Registry, rank: MetricId -> nat, populations: seq<Population>,
                         requested: seq<MetricId>, grouping: Grouping, ids: seq<NodeId>)
    requires Ranked(registry, rank) && forall m :: m in requested ==> m in registry.definitions
  {
    exists flat :: FlatRoots(registry, rank, populations, requested, grouping, flat) && ids == Extend([], PostAll(flat))
  }

  lemma NothingFlat(registry: Registry, rank: MetricId -> nat, populations: seq<Population>, grouping: Grouping)
    requires Ranked(registry, rank)
    ensures FlatRoots(registry, rank, populations, [], grouping, [])
    ensures IdsOf([]) == Extend([], PostAll([])) == []
  {}

  lemma FlatAppend(registry: Registry, rank: MetricId -> nat, populations: seq<Population>, requested: seq<MetricId>,
                   m: MetricId, grouping: Grouping, flat: seq<NodeId>, ids: seq<NodeId>)
    requires Ranked(registry, rank) && (forall x :: x in requested ==> x in registry.definitions)
    requires m in registry.definitions && RootKeys(registry, m, grouping).Ok?
    requires FlatRoots(registry, rank, populations, requested, grouping, flat)
    requires Listed(registry, rank, populations, RootKeys(registry, m, grouping).value, ids)
    ensures FlatRoots(registry, rank, populations, requested + [m], grouping, flat + ids)
    ensures Extend([], PostAll(flat + ids)) == Extend(Extend([], PostAll(flat)), PostAll(ids))
  {
    hide RootKeys, Extend, PostAll;
    assert (requested + [m])[..|requested|] == requested;
    assert (flat + ids)[..|flat|] == flat && (flat + ids)[|flat|..] == ids;
    PostAllConcat(flat, ids);
    ExtendConcat([], PostAll(flat), PostAll(ids));
  }

  /** requested_root_node_ids, filled metric by metric. */
  method AddRoots(builder: Builder, requested: seq<MetricId>, grouping: Grouping)
    returns (r: Result<map<MetricId, seq<NodeId>>, PlanningError>)
    requires builder.Valid() && builder.keys == [] && builder.nodes == []
    requires forall m :: m in requested ==> m in builder.registry.definitions
    modifies builder
    ensures builder.Valid()
    ensures r.Err? ==>
      exists m :: m in requested && !RootsCompile(builder.registry, builder.rank, builder.populations, m, grouping)
    ensures r.Ok? ==> RootsOf(builder.registry, builder.rank, builder.populations, requested, grouping, r.value)
    ensures r.Ok? ==> Elements(builder.keys) == RequestedClosure(builder.registry, builder.rank, requested, grouping)
    ensures r.Ok? ==>
      Walked(builder.registry, builder.rank, builder.populations, requested, grouping, IdsOf(builder.nodes))
  {
    hide RootsOf, RootKeys, RootsCompile, ClosureOf, Listed, AllCompile, Extend, PostAll, Post, FlatRoots;
    ghost var flat: seq<NodeId> := [];
    NothingFlat(builder.registry, builder.rank, builder.populations, grouping);
    NoRoots(builder.registry, builder.rank, builder.populations, grouping);
    var roots: map<MetricId, seq<NodeId>> := map[];
    for i := 0 to |requested|
      invariant builder.Valid()
      invariant forall m :: m in requested[..i] ==> m in builder.registry.definitions
      invariant RootsOf(builder.registry, builder.rank, builder.populations, requested[..i], grouping, roots)
      invariant Elements(builder.keys) == RequestedClosure(builder.registry, builder.rank, requested[..i], grouping)
      invariant FlatRoots(builder.registry, builder.rank, builder.populations, requested[..i], grouping, flat)
      invariant IdsOf(builder.nodes) == Extend([], PostAll(flat))
    {
      var m := requested[i];
      assert m in requested;
      RootsFail(builder.registry, builder.rank, builder.populations, m, grouping);
      var keys := RootKeys(builder.registry, m, grouping);
      if keys.Err? {
        return Err(keys.error);
      }
      var ids := AddKeys(builder, keys.value);
      if ids.Err? {
        return Err(ids.error);
      }
      RootsOfAppend(builder.registry, builder.rank, builder.populations, requested[..i], m, grouping, roots, ids.value);
      assert requested[..i + 1] == requested[..i] + [m];
      FlatAppend(builder.registry, builder.rank, builder.populations, requested[..i], m, grouping, flat, ids.value);
      flat := flat + ids.value;
      roots := roots[m := (if m in roots then roots[m] else []) + ids.value];
    }
    assert requested[..|requested|] == requested;
    return Ok(roots);
  }

  // ---- Finalization ----

  function AuthorizedRefs(requested: seq<MetricId>, carried: set<MetricId>): (r: seq<MetricId>)
    ensures forall m :: m in r <==> m in requested && m in carried
  {
    if requested == [] then []
    else (if requested[0] in carried then [requested[0]] else []) + AuthorizedRefs(requested[1..], carried)
  }

  lemma {:induction false} AuthorizedInOrder(requested: seq<MetricId>, carried: set<MetricId>)
    ensures KeepsOrder(AuthorizedRefs(requested, carried), requested)
  {
    if requested != [] {
      AuthorizedInOrder(requested[1..], carried);
      KeepsOrderStep(AuthorizedRefs(requested[1..], carried), requested);
      assert [] + AuthorizedRefs(requested[1..], carried) == AuthorizedRefs(requested[1..], carried);
    }
  }

  function EligibilityFailures(m: MetricId, entry: MetricEligibility): (r: seq<Failure>)
    ensures r == [] <==> entry.eligible
  {
    if entry.eligible then []
    else if entry.failures != []
      then seq(|entry.failures|, i requires 0 <= i < |entry.failures| => Sufficiency(entry.failures[i]))
    else [MarkedIneligible(m)]
  }

  /** One copy of the failures per occurrence of the node among the roots. */
  function PerOccurrence(roots: seq<NodeId>, id: NodeId, failures: seq<Failure>): seq<Failure> {
    if roots == [] then [] else (if roots[0] == id then failures else []) + PerOccurrence(roots[1..], id, failures)
  }

  function DirectFailures(requested: seq<MetricId>, roots: map<MetricId, seq<NodeId>>,
                          entries: map<MetricId, MetricEligibility>, id: NodeId): seq<Failure>
    requires forall m :: m in requested ==> m in roots && m in entries
  {
    if requested == [] then []
    else PerOccurrence(roots[requested[0]], id, EligibilityFailures(requested[0], entries[requested[0]]))
         + DirectFailures(requested[1..], roots, entries, id)
  }

  function BlockedDependencies(deps: seq<NodeId>, finalized: map<NodeId, PlanNode>): (r: seq<Failure>)
    requires forall d :: d in deps ==> d in finalized
    ensures forall f :: f in r <==> f.DependencyBlocked? && f.node in deps && finalized[f.node].state == Blocked
  {
    if deps == [] then []
    else
      (if finalized[deps[0]].state == Blocked then [DependencyBlocked(deps[0])] else [])
      + BlockedDependencies(deps[1..], finalized)
  }

  predicate IsBlocked(id: NodeId, requested: seq<MetricId>, authorized: map<NodeId, set<MetricId>>)
    requires id in authorized
  {
    AuthorizedRefs(requested, authorized[id]) == []
  }

  /** A final node differs from its draft only in state, authorization and failures, and the three agree. */
  ghost predicate FinalNode(draft: PlanNode, final: PlanNode, requested: seq<MetricId>,
                            authorized: map<NodeId, set<MetricId>>)
    requires draft.id in authorized && forall d :: d in draft.dependencyIds ==> d in authorized
  {
    && final == draft.(state := final.state, authorized := AuthorizedRefs(requested, authorized[draft.id]),
                       failures := final.failures)
    && (final.state == Blocked <==> IsBlocked(draft.id, requested, authorized))
    && (final.state == Blocked <==> final.failures != [])
    && (final.state == Blocked ==> forall d :: DependencyBlocked(d) in final.failures <==>
          d in draft.dependencyIds && IsBlocked(d, requested, authorized))
  }

  /**
   * A blocked node gives the failures of every ineligible metric of which it is a root, or the mark if there are none,
   * and says that no chain is eligible when it is no such root.
   */
  ghost predicate WhyBlocked(final: PlanNode, requested: seq<MetricId>, roots: map<MetricId, seq<NodeId>>,
                             entries: map<MetricId, MetricEligibility>)
    requires forall m :: m in requested ==> m in roots && m in entries
  {
    final.state == Blocked ==>
      && (forall s :: Sufficiency(s) in final.failures <==>
           exists m :: RootOfIneligible(m, final.id, requested, roots, entries) && s in entries[m].failures)
      && (forall m :: MarkedIneligible(m) in final.failures <==>
           RootOfIneligible(m, final.id, requested, roots, entries) && entries[m].failures == [])
      && (forall x :: NoEligibleChain(x) in final.failures <==>
           x == final.id && forall m :: !RootOfIneligible(m, final.id, requested, roots, entries))
  }

  ghost predicate RootOfIneligible(m: MetricId, id: NodeId, requested: seq<MetricId>,
                                   roots: map<MetricId, seq<NodeId>>, entries: map<MetricId, MetricEligibility>)
    requires forall m :: m in requested ==> m in roots && m in entries
  {
    m in requested && id in roots[m] && !entries[m].eligible
  }

  /** The direct failures of a node, one ineligible metric at a time. */
  lemma {:induction false} DirectFailuresAre(requested: seq<MetricId>, roots: map<MetricId, seq<NodeId>>,
                                             entries: map<MetricId, MetricEligibility>, id: NodeId, f: Failure)
    requires forall m :: m in requested ==> m in roots && m in entries
    ensures f in DirectFailures(requested, roots, entries, id) <==>
      exists m :: m in requested && id in roots[m] && f in EligibilityFailures(m, entries[m])
  {
    if requested != [] {
      var m := requested[0];
      hide EligibilityFailures;
      DirectFailuresAre(requested[1..], roots, entries, id, f);
      PerOccurrenceIs(roots[m], id, EligibilityFailures(m, entries[m]), f);
      assert forall x :: x in requested <==> x == m || x in requested[1..];
    }
  }

  lemma {:induction false} PerOccurrenceIs(roots: seq<NodeId>, id: NodeId, failures: seq<Failure>, f: Failure)
    ensures f in PerOccurrence(roots, id, failures) <==> id in roots && f in failures
  {
    if roots != [] {
      PerOccurrenceIs(roots[1..], id, failures, f);
      assert id in roots <==> id == roots[0] || id in roots[1..];
    }
  }

  lemma EligibilityFailuresAre(m: MetricId, entry: MetricEligibility)
    ensures forall s :: Sufficiency(s) in EligibilityFailures(m, entry) <==> !entry.eligible && s in entry.failures
    ensures forall x :: MarkedIneligible(x) in EligibilityFailures(m, entry) <==>
      x == m && !entry.eligible && entry.failures == []
    ensures forall x :: NoEligibleChain(x) !in EligibilityFailures(m, entry)
  {
    var failures := EligibilityFailures(m, entry);
    forall s | !entry.eligible && s in entry.failures ensures Sufficiency(s) in failures {
      var i :| 0 <= i < |entry.failures| && entry.failures[i] == s;
      assert failures[i] == Sufficiency(s);
    }
  }

  /** Which failures are direct: those of the ineligible metrics the node is a root of. */
  lemma DirectMeans(id: NodeId, requested: seq<MetricId>, roots: map<MetricId, seq<NodeId>>,
                    entries: map<MetricId, MetricEligibility>)
    requires forall m :: m in requested ==> m in roots && m in entries
    ensures var direct := DirectFailures(requested, roots, entries, id);
      && (forall s :: Sufficiency(s) in direct <==>
           exists m :: RootOfIneligible(m, id, requested, roots, entries) && s in entries[m].failures)
      && (forall m :: MarkedIneligible(m) in direct <==>
           RootOfIneligible(m, id, requested, roots, entries) && entries[m].failures == [])
      && forall x :: NoEligibleChain(x) !in direct
  {
    var direct := DirectFailures(requested, roots, entries, id);
    hide EligibilityFailures, DirectFailures, RootOfIneligible;
    forall s ensures Sufficiency(s) in direct <==>
      exists m :: RootOfIneligible(m, id, requested, roots, entries) && s in entries[m].failures
    {
      DirectSufficiency(id, requested, roots, entries, s);
    }
    forall m ensures MarkedIneligible(m) in direct <==>
      RootOfIneligible(m, id, requested, roots, entries) && entries[m].failures == []
    {
      DirectMarked(id, requested, roots, entries, m);
    }
    forall x ensures NoEligibleChain(x) !in direct { DirectNoChain(id, requested, roots, entries, x); }
  }

  lemma DirectSufficiency(id: NodeId, requested: seq<MetricId>, roots: map<MetricId, seq<NodeId>>,
                          entries: map<MetricId, MetricEligibility>, s: string)
    requires forall m :: m in requested ==> m in roots && m in entries
    ensures Sufficiency(s) in DirectFailures(requested, roots, entries, id) <==>
      exists m :: RootOfIneligible(m, id, requested, roots, entries) && s in entries[m].failures
  {
    DirectFailuresAre(requested, roots, entries, id, Sufficiency(s));
    forall m | m in requested ensures Sufficiency(s) in EligibilityFailures(m, entries[m]) <==>
      !entries[m].eligible && s in entries[m].failures
    {
      EligibilityFailuresAre(m, entries[m]);
    }
    hide EligibilityFailures, DirectFailures;
  }

  lemma DirectMarked(id: NodeId, requested: seq<MetricId>, roots: map<MetricId, seq<NodeId>>,
                     entries: map<MetricId, MetricEligibility>, x: MetricId)
    requires forall m :: m in requested ==> m in roots && m in entries
    ensures MarkedIneligible(x) in DirectFailures(requested, roots, entries, id) <==>
      RootOfIneligible(x, id, requested, roots, entries) && entries[x].failures == []
  {
    DirectFailuresAre(requested, roots, entries, id, MarkedIneligible(x));
    forall m | m in requested ensures MarkedIneligible(x) in EligibilityFailures(m, entries[m]) <==>
      x == m && !entries[m].eligible && entries[m].failures == []
    {
      EligibilityFailuresAre(m, entries[m]);
    }
    hide EligibilityFailures, DirectFailures;
  }

  lemma DirectNoChain(id: NodeId, requested: seq<MetricId>, roots: map<MetricId, seq<NodeId>>,
                      entries: map<MetricId, MetricEligibility>, x: NodeId)
    requires forall m :: m in requested ==> m in roots && m in entries
    ensures NoEligibleChain(x) !in DirectFailures(requested, roots, entries, id)
  {
    DirectFailuresAre(requested, roots, entries, id, NoEligibleChain(x));
    forall m | m in requested ensures NoEligibleChain(x) !in EligibilityFailures(m, entries[m]) {
      EligibilityFailuresAre(m, entries[m]);
    }
    hide EligibilityFailures, DirectFailures;
  }

  lemma DirectExplains(final: PlanNode, requested: seq<MetricId>, roots: map<MetricId, seq<NodeId>>,
                       entries: map<MetricId, MetricEligibility>, dependencies: seq<Failure>)
    requires forall m :: m in requested ==> m in roots && m in entries
    requires forall f :: f in dependencies ==> f.DependencyBlocked?
    requires var direct := DirectFailures(requested, roots, entries, final.id);
      final.failures == direct + (if direct == [] then [NoEligibleChain(final.id)] else []) + dependencies
    ensures WhyBlocked(final, requested, roots, entries)
  {
    hide EligibilityFailures, DirectFailures, RootOfIneligible;
    DirectMeans(final.id, requested, roots, entries);
    DirectExists(final.id, requested, roots, entries);
  }

  lemma DirectExists(id: NodeId, requested: seq<MetricId>, roots: map<MetricId, seq<NodeId>>,
                     entries: map<MetricId, MetricEligibility>)
    requires forall m :: m in requested ==> m in roots && m in entries
    ensures DirectFailures(requested, roots, entries, id) == [] <==>
      forall m :: !RootOfIneligible(m, id, requested, roots, entries)
  {
    hide DirectFailures, EligibilityFailures;
    var direct := DirectFailures(requested, roots, entries, id);
    if direct != [] {
      DirectFailuresAre(requested, roots, entries, id, direct[0]);
      var m :| m in requested && id in roots[m] && direct[0] in EligibilityFailures(m, entries[m]);
      assert RootOfIneligible(m, id, requested, roots, entries);
    }
    if m :| RootOfIneligible(m, id, requested, roots, entries) {
      DirectFailuresAre(requested, roots, entries, id, EligibilityFailures(m, entries[m])[0]);
    }
  }

  function FinalizeNode(node: PlanNode, requested: seq<MetricId>, roots: map<MetricId, seq<NodeId>>,
                        entries: map<MetricId, MetricEligibility>,
                        authorized: map<NodeId, set<MetricId>>, finalized: map<NodeId, PlanNode>): (r: PlanNode)
    requires forall m :: m in requested ==> m in roots && m in entries
    requires node.id in authorized && forall d :: d in node.dependencyIds ==> d in finalized && d in authorized
    requires forall id :: id in finalized ==>
      id in authorized && (finalized[id].state == Blocked <==> IsBlocked(id, requested, authorized))
    ensures FinalNode(node, r, requested, authorized) && WhyBlocked(r, requested, roots, entries)
  {
    var refs := AuthorizedRefs(requested, authorized[node.id]);
    if refs != [] then node.(state := Executable, authorized := refs, failures := [])
    else
      var direct := DirectFailures(requested, roots, entries, node.id);
      DirectKinds(requested, roots, entries, node.id);
      var chain := if direct == [] then [NoEligibleChain(node.id)] else [];
      var dependencies := BlockedDependencies(node.dependencyIds, finalized);
      assert forall d :: DependencyBlocked(d) in direct + chain + dependencies <==>
        DependencyBlocked(d) in dependencies;
      var final := node.(state := Blocked, authorized := refs, failures := direct + chain + dependencies);
      DirectExplains(final, requested, roots, entries, dependencies);
      final
  }

  lemma FinalState(draft: PlanNode, final: PlanNode, requested: seq<MetricId>, authorized: map<NodeId, set<MetricId>>)
    requires draft.id in authorized && forall d :: d in draft.dependencyIds ==> d in authorized
    requires FinalNode(draft, final, requested, authorized)
    ensures final.state == Blocked <==> IsBlocked(draft.id, requested, authorized)
  {
    hide IsBlocked;
  }

  /** Dependencies come earlier, so they are already final. */
  lemma EarlierFinalized(nodes: seq<PlanNode>, i: nat, finalized: map<NodeId, PlanNode>)
    requires Topological(nodes) && i < |nodes| && forall k :: 0 <= k < i ==> nodes[k].id in finalized
    ensures forall d :: d in nodes[i].dependencyIds ==> d in finalized
  {}

  /** The final loop; finalized_by_id is defined for every dependency because dependencies come earlier. */
  method Finalize(nodes: seq<PlanNode>, requested: seq<MetricId>, roots: map<MetricId, seq<NodeId>>,
                  entries: map<MetricId, MetricEligibility>, authorized: map<NodeId, set<MetricId>>)
    returns (finals: seq<PlanNode>)
    requires Topological(nodes) && authorized.Keys == Ids(nodes) && DependencyClosed(authorized.Keys)
    requires forall m :: m in requested ==> m in roots && m in entries
    ensures |finals| == |nodes|
    ensures forall i :: 0 <= i < |nodes| ==> nodes[i] in nodes && FinalNode(nodes[i], finals[i], requested, authorized)
    ensures forall n :: n in finals ==> WhyBlocked(n, requested, roots, entries)
  {
    hide WhyBlocked, FinalizeNode, FinalNode, IsBlocked, AuthorizedRefs;
    var finalized: map<NodeId, PlanNode> := map[];
    finals := [];
    for i := 0 to |nodes|
      invariant |finals| == i
      invariant forall k :: 0 <= k < i ==> nodes[k] in nodes && FinalNode(nodes[k], finals[k], requested, authorized)
      invariant forall n :: n in finals ==> WhyBlocked(n, requested, roots, entries)
      invariant forall k :: 0 <= k < i ==> nodes[k].id in finalized
      invariant forall id :: id in finalized ==>
        id in authorized && (finalized[id].state == Blocked <==> IsBlocked(id, requested, authorized))
    {
      assert nodes[i] in nodes;
      EarlierFinalized(nodes, i, finalized);
      var final := FinalizeNode(nodes[i], requested, roots, entries, authorized, finalized);
      FinalState(nodes[i], final, requested, authorized);
      finalized := finalized[nodes[i].id := final];
      finals := finals + [final];
    }
  }

  lemma {:induction false} DirectKinds(requested: seq<MetricId>, roots: map<MetricId, seq<NodeId>>,
                                       entries: map<MetricId, MetricEligibility>, id: NodeId)
    requires forall m :: m in requested ==> m in roots && m in entries
    ensures forall f :: f in DirectFailures(requested, roots, entries, id) ==> !f.DependencyBlocked?
  {
    if requested != [] {
      var m := requested[0];
      PerOccurrenceKinds(roots[m], id, EligibilityFailures(m, entries[m]));
      DirectKinds(requested[1..], roots, entries, id);
    }
  }

  lemma {:induction false} PerOccurrenceKinds(roots: seq<NodeId>, id: NodeId, failures: seq<Failure>)
    ensures forall f :: f in PerOccurrence(roots, id, failures) ==> f in failures
  {
    if roots != [] { PerOccurrenceKinds(roots[1..], id, failures); }
  }
}
