/** Material stage paths: several chains interleaved in one list, each stopping at its first blocked stage. */
module StageTrace {
  import opened Common

  datatype Stage = DataSufficiency | RequiredEvidence | EvidenceAdmissibility | MethodEligibility | Execution
                 | Validation
                 | EvidenceConflictAssessment | AnalyticalOutcome | AlternativeExplanationCheck | ClaimDecision
                 | DerivedMaterialDisposition | Rendering | ArtifactIntegrity

  datatype Reachability = Reached | Blocked | NotReached

  /** A material outcome; a dictionary counts as the list of its values. */
  datatype Value = Float(literal: string) | Scalar(text: string) | Items(items: seq<Value>)

  datatype Projection = Projection(stage: Stage, chain: string, reachability: Reachability, outcome: Option<Value>,
                                   reason: Option<string>, authority: Option<string>, dueTo: Option<Stage>)

  datatype Blocker = Blocker(stage: Stage, chain: string, reason: string, authority: string)

  datatype Kind = Positive | Negative | Precedence

  datatype Expected = Expected(kind: Kind, path: seq<Projection>, dispositions: map<string, string>,
                               blocker: Option<Blocker>)

  // ---- Rules of one item ----

  /** _reject_float. */
  predicate HasFloat(v: Value) {
    match v
    case Float(_) => true
    case Scalar(_) => false
    case Items(items) => exists i :: 0 <= i < |items| && HasFloat(items[i])
  }

  predicate Present(s: Option<string>) {
    s.Some? && s.value != ""
  }

  /** A lower-case letter and at most 63 more lower-case letters, digits and underscores. */
  predicate ChainName(s: string) {
    && 1 <= |s| <= 64 && 'a' <= s[0] <= 'z'
    && forall ch :: ch in s ==> 'a' <= ch <= 'z' || '0' <= ch <= '9' || ch == '_'
  }

  predicate ItemValid(p: Projection) {
    && ChainName(p.chain)
    && (match p.reachability
        case Blocked => Present(p.reason) && Present(p.authority) && p.dueTo.None?
        case NotReached => p.outcome.None? && p.reason.None? && p.authority.None? && p.dueTo.Some?
        case Reached => p.reason.None? && p.authority.None? && p.dueTo.None?)
    && (p.outcome.Some? ==> !HasFloat(p.outcome.value))
  }

  // ---- What the rules of one item mean ----

  /** Following these positions into a value ends at a float. */
  ghost predicate FloatAt(v: Value, at: seq<nat>) {
    if at == [] then v.Float? else v.Items? && at[0] < |v.items| && FloatAt(v.items[at[0]], at[1..])
  }

  ghost predicate FloatFree(v: Value) {
    forall at :: !FloatAt(v, at)
  }

  lemma {:induction false} HasFloatIs(v: Value)
    ensures HasFloat(v) <==> !FloatFree(v)
  {
    if v.Float? { assert FloatAt(v, []); }
    if v.Items? {
      forall i | 0 <= i < |v.items| ensures HasFloat(v.items[i]) <==> !FloatFree(v.items[i]) {
        HasFloatIs(v.items[i]);
      }
      if i :| 0 <= i < |v.items| && HasFloat(v.items[i]) {
        var at :| FloatAt(v.items[i], at);
        assert ([i] + at)[1..] == at;
        assert FloatAt(v, [i] + at);
      }
      if at :| FloatAt(v, at) { assert FloatAt(v.items[at[0]], at[1..]); }
    }
  }

  /** Up to 64 characters: lower-case letters, digits (from 48) and underscores (95), a letter (97 to 122) first. */
  ghost predicate NameRight(s: string) {
    && 0 < |s| < 65 && 97 <= s[0] as int <= 122
    && forall i :: 0 <= i < |s| ==>
         var code := s[i] as int; 97 <= code <= 122 || 48 <= code < 58 || code == 95
  }

  /** Blocked stages, and they alone, give a reason and an authority; unreached ones, and they alone, name a stage. */
  ghost predicate ItemRight(p: Projection) {
    && NameRight(p.chain)
    && (p.reachability == Blocked <==> p.reason.Some?) && (p.reachability == Blocked <==> p.authority.Some?)
    && p.reason != Some("") && p.authority != Some("")
    && (p.reachability == NotReached <==> p.dueTo.Some?) && (p.reachability == NotReached ==> p.outcome.None?)
    && (p.outcome.Some? ==> FloatFree(p.outcome.value))
  }

  lemma NameValid(s: string)
    ensures ChainName(s) <==> NameRight(s)
  {
    if NameRight(s) {
      forall ch | ch in s ensures 'a' <= ch <= 'z' || '0' <= ch <= '9' || ch == '_' {
        var i :| 0 <= i < |s| && s[i] == ch;
      }
    }
    if ChainName(s) { assert forall i :: 0 <= i < |s| ==> s[i] in s; }
  }

  lemma ItemValidIs(p: Projection)
    ensures ItemValid(p) <==> ItemRight(p)
  {
    hide ChainName, NameRight, FloatFree;
    NameValid(p.chain);
    if p.outcome.Some? { HasFloatIs(p.outcome.value); }
  }

  // ---- The rule of one chain ----

  /** The items of one chain, in path order. */
  function Project(path: seq<Projection>, chain: string): seq<Projection> {
    if path == [] then []
    else
      var n := |path| - 1;
      Project(path[..n], chain) + if path[n].chain == chain then [path[n]] else []
  }

  /** reached* up to position k, then nothing, or one blocked stage and not_reached* that all name it. */
  ghost predicate StopsAt(items: seq<Projection>, k: int) {
    && 0 <= k <= |items|
    && (forall i :: 0 <= i < k ==> items[i].reachability == Reached)
    && (k < |items| ==> items[k].reachability == Blocked)
    && (forall i :: k < i < |items| ==> items[i].reachability == NotReached && items[i].dueTo == Some(items[k].stage))
  }

  ghost predicate ChainHolds(path: seq<Projection>, chain: string) {
    WellFormedChain(Project(path, chain))
  }

  ghost predicate ChainDistinct(path: seq<Projection>, chain: string) {
    DistinctStages(Project(path, chain))
  }

  ghost function StateOf(path: seq<Projection>, chain: string): ChainState {
    Follow(Project(path, chain))
  }

  ghost predicate WellFormedChain(items: seq<Projection>) {
    exists k :: StopsAt(items, k)
  }

  /** The same rule as an automaton. */
  datatype ChainState = Open | BlockedAt(stage: Stage) | Broken

  function Advance(s: ChainState, p: Projection): ChainState {
    match s
    case Broken => Broken
    case Open =>
      (match p.reachability
       case Reached => Open
       case Blocked => BlockedAt(p.stage)
       case NotReached => Broken)
    case BlockedAt(stage) => if p.reachability == NotReached && p.dueTo == Some(stage) then s else Broken
  }

  function Follow(items: seq<Projection>): ChainState {
    if items == [] then Open else Advance(Follow(items[..|items| - 1]), items[|items| - 1])
  }

  /** The chain stops before its end, at a blocked stage. */
  ghost predicate StoppedBy(items: seq<Projection>, stage: Stage) {
    exists k :: k < |items| && StopsAt(items, k) && items[k].stage == stage
  }

  /** The automaton accepts exactly the well-formed chains. */
  lemma {:induction false} FollowIs(items: seq<Projection>)
    ensures Follow(items) == Open <==> StopsAt(items, |items|)
    ensures Follow(items).BlockedAt? ==> StoppedBy(items, Follow(items).stage)
    ensures Follow(items) != Broken <==> WellFormedChain(items)
  {
    if items == [] {
      assert StopsAt(items, 0);
    } else {
      hide Follow, StopsAt, StoppedBy, WellFormedChain, Advance;
      var n := |items| - 1;
      FollowIs(items[..n]);
      assert items == items[..n] + [items[n]];
      FollowStep(items[..n], items[n]);
      if Follow(items[..n]) == Open {
        OpenGrows(items, n);
      } else if Follow(items[..n]) == Broken {
        BrokenGrows(items, n);
      } else {
        StoppedGrows(items, n, Follow(items[..n]).stage);
      }
    }
  }

  lemma OpenGrows(items: seq<Projection>, n: nat)
    requires |items| == n + 1 && StopsAt(items[..n], n)
    ensures var s := Advance(Open, items[n]);
      && (s == Open <==> StopsAt(items, |items|))
      && (s.BlockedAt? ==> StoppedBy(items, s.stage))
      && (s != Broken <==> WellFormedChain(items))
  {
    if items[n].reachability == Reached { assert StopsAt(items, n + 1); }
    if items[n].reachability == Blocked { assert StopsAt(items, n); }
    assert forall i :: 0 <= i < n ==> items[..n][i] == items[i];
  }

  lemma BrokenGrows(items: seq<Projection>, n: nat)
    requires |items| == n + 1 && !WellFormedChain(items[..n])
    ensures !WellFormedChain(items) && !StopsAt(items, |items|) && Advance(Broken, items[n]) == Broken
  {
    hide StopsAt;
    forall k ensures !StopsAt(items, k) {
      if StopsAt(items, k) { ShorterStop(items, n, k); }
    }
  }

  lemma StoppedGrows(items: seq<Projection>, n: nat, stage: Stage)
    requires |items| == n + 1 && StoppedBy(items[..n], stage)
    ensures var s := Advance(BlockedAt(stage), items[n]);
      && s != Open && !StopsAt(items, |items|)
      && (s.BlockedAt? ==> StoppedBy(items, s.stage))
      && (s != Broken <==> WellFormedChain(items))
  {
    var k :| k < n && StopsAt(items[..n], k) && items[..n][k].stage == stage;
    if Advance(BlockedAt(stage), items[n]) != Broken { assert StopsAt(items, k); }
    forall j ensures StopsAt(items, j) ==> j == k && Advance(BlockedAt(stage), items[n]) != Broken {
      if StopsAt(items, j) { SameStop(items, n, k, j); }
    }
  }

  lemma ShorterStop(items: seq<Projection>, n: nat, k: int)
    requires |items| == n + 1 && StopsAt(items, k)
    ensures StopsAt(items[..n], if k <= n then k else n)
  {}

  lemma SameStop(items: seq<Projection>, n: nat, k: int, j: int)
    requires |items| == n + 1 && k < n && StopsAt(items[..n], k) && StopsAt(items, j)
    ensures j == k && items[n].reachability == NotReached && items[n].dueTo == Some(items[k].stage)
  {
    assert items[..n][k].reachability == Blocked;
    assert forall i :: 0 <= i < n ==> items[..n][i] == items[i];
  }

  lemma ProjectStep(path: seq<Projection>, i: nat, chain: string)
    requires i < |path|
    ensures var before := Project(path[..i], chain);
            Project(path[..i + 1], chain) == if path[i].chain == chain then before + [path[i]] else before
  {
    assert path[..i + 1][..i] == path[..i];
    assert Project(path[..i], chain) + [] == Project(path[..i], chain);
  }

  lemma FollowStep(items: seq<Projection>, p: Projection)
    ensures Follow(items + [p]) == Advance(Follow(items), p)
  {
    assert (items + [p])[..|items|] == items;
  }

  lemma {:induction false} BrokenForever(path: seq<Projection>, i: nat, chain: string)
    requires i <= |path| && Follow(Project(path[..i], chain)) == Broken
    ensures Follow(Project(path, chain)) == Broken
    decreases |path|
  {
    if i == |path| {
      assert path[..i] == path;
    } else {
      var n := |path| - 1;
      assert path[..n][..i] == path[..i] && path[..n + 1] == path;
      BrokenForever(path[..n], i, chain);
      ProjectStep(path, n, chain);
      FollowStep(Project(path[..n], chain), path[n]);
    }
  }

  // ---- _validate_projection_flow ----

  ghost function BlockedStages(s: ChainState): set<Stage> {
    if s.BlockedAt? then {s.stage} else {}
  }

  function Earlier(blockedByChain: map<string, set<Stage>>, chain: string): set<Stage> {
    if chain in blockedByChain then blockedByChain[chain] else {}
  }

  /** The recorded blocked stages of a chain are those of its state, which is not broken. */
  ghost predicate Tracks(blockedByChain: map<string, set<Stage>>, path: seq<Projection>, c: string) {
    StateOf(path, c) != Broken && Earlier(blockedByChain, c) == BlockedStages(StateOf(path, c))
  }

  /** One pass with a set of blocked stages per chain accepts exactly the paths whose every chain is well formed. */
  method ValidateFlow(path: seq<Projection>) returns (ok: bool)
    ensures ok <==> forall c :: ChainHolds(path, c)
  {
    hide StateOf, ChainHolds, Advance;
    var blockedByChain: map<string, set<Stage>> := map[];
    EmptyPath();
    for i := 0 to |path|
      invariant forall c :: Tracks(blockedByChain, path[..i], c)
    {
      var item := path[i];
      var earlierBlocked := Earlier(blockedByChain, item.chain);
      assert Tracks(blockedByChain, path[..i], item.chain);
      ghost var before := StateOf(path[..i], item.chain);
      FlowStep(path, i, item.chain);
      AdvanceBreaks(before, item);
      if item.reachability == NotReached && (item.dueTo.None? || item.dueTo.value !in earlierBlocked) {
        Rejected(path, i, item.chain);
        return false;
      }
      if earlierBlocked != {} && item.reachability != NotReached {
        Rejected(path, i, item.chain);
        return false;
      }
      if item.reachability == Blocked {
        earlierBlocked := earlierBlocked + {item.stage};
      }
      ghost var prior := blockedByChain;
      blockedByChain := blockedByChain[item.chain := earlierBlocked];
      ghost var done := path[..i + 1];
      forall c ensures Tracks(blockedByChain, done, c) {
        FlowStep(path, i, c);
        assert Tracks(prior, path[..i], c);
        assert c != item.chain ==> Earlier(blockedByChain, c) == Earlier(prior, c);
      }
    }
    assert path[..|path|] == path;
    forall c ensures ChainHolds(path, c) {
      assert Tracks(blockedByChain, path, c);
      HoldsUnbroken(path, c);
    }
    return true;
  }

  lemma EmptyPath()
    ensures forall c :: StateOf([], c) == Open
  {}

  lemma HoldsUnbroken(path: seq<Projection>, chain: string)
    ensures ChainHolds(path, chain) <==> StateOf(path, chain) != Broken
  {
    FollowIs(Project(path, chain));
  }

  /** The state of a chain once item i is read. */
  ghost function StateAfter(path: seq<Projection>, i: nat, c: string): ChainState
    requires i < |path|
  {
    var before := StateOf(path[..i], c);
    if c == path[i].chain then Advance(before, path[i]) else before
  }

  lemma FlowStep(path: seq<Projection>, i: nat, c: string)
    requires i < |path|
    ensures StateOf(path[..i + 1], c) == StateAfter(path, i, c)
  {
    hide Project, Follow, Advance;
    ProjectStep(path, i, c);
    FollowStep(Project(path[..i], c), path[i]);
  }

  /** What the source tests on an unbroken chain is exactly what breaks it. */
  lemma AdvanceBreaks(s: ChainState, p: Projection)
    requires s != Broken
    ensures Advance(s, p) == Broken <==>
      || (p.reachability == NotReached && (p.dueTo.None? || p.dueTo.value !in BlockedStages(s)))
      || (BlockedStages(s) != {} && p.reachability != NotReached)
    ensures Advance(s, p) != Broken ==>
      BlockedStages(Advance(s, p)) == BlockedStages(s) + if p.reachability == Blocked then {p.stage} else {}
  {}

  lemma Rejected(path: seq<Projection>, i: nat, chain: string)
    requires i < |path| && StateOf(path[..i + 1], chain) == Broken
    ensures !ChainHolds(path, chain)
  {
    hide Project, Follow, ChainHolds;
    BrokenForever(path, i + 1, chain);
    HoldsUnbroken(path, chain);
  }

  // ---- _validate_projection_uniqueness ----

  function Keys(path: seq<Projection>): set<(string, Stage)> {
    set p | p in path :: (p.chain, p.stage)
  }

  /** As many distinct keys as keys. */
  predicate UniqueStages(path: seq<Projection>) {
    |Keys(path)| == |path|
  }

  ghost predicate DistinctStages(items: seq<Projection>) {
    forall i, j :: 0 <= i < j < |items| ==> items[i].stage != items[j].stage
  }

  lemma {:induction false} ProjectMembers(path: seq<Projection>, chain: string)
    ensures forall p :: p in Project(path, chain) <==> p in path && p.chain == chain
  {
    if path != [] {
      var n := |path| - 1;
      ProjectMembers(path[..n], chain);
      assert path == path[..n] + [path[n]];
    }
  }

  lemma {:induction false} KeyCount(path: seq<Projection>)
    ensures |Keys(path)| <= |path|
    ensures path != [] ==>
      var n := |path| - 1;
      UniqueStages(path) <==> UniqueStages(path[..n]) && (path[n].chain, path[n].stage) !in Keys(path[..n])
  {
    if path == [] {
      assert Keys(path) == {};
    } else {
      var n := |path| - 1;
      KeyCount(path[..n]);
      assert path == path[..n] + [path[n]];
      assert Keys(path) == Keys(path[..n]) + {(path[n].chain, path[n].stage)};
    }
  }

  /** No key repeats in the path exactly when no stage repeats within any chain. */
  lemma {:induction false} UniqueByChain(path: seq<Projection>)
    ensures UniqueStages(path) <==> forall c :: ChainDistinct(path, c)
  {
    if path == [] {
      assert Keys(path) == {};
    } else {
      var n := |path| - 1;
      hide DistinctStages, UniqueStages, Keys, Project;
      UniqueByChain(path[..n]);
      KeyCount(path);
      assert path[..n + 1] == path;
      forall c ensures ChainDistinct(path, c) <==>
        ChainDistinct(path[..n], c) && (c == path[n].chain ==> (c, path[n].stage) !in Keys(path[..n]))
      {
        ProjectStep(path, n, c);
        ProjectMembers(path[..n], c);
        NewStage(path[..n], c, path[n]);
      }
    }
  }

  lemma {:induction false} NewStage(path: seq<Projection>, c: string, p: Projection)
    ensures DistinctStages(Project(path, c) + [p]) <==> DistinctStages(Project(path, c)) && (c, p.stage) !in Keys(path)
  {
    hide Project;
    var items := Project(path, c);
    ProjectMembers(path, c);
    if DistinctStages(items + [p]) {
      assert DistinctStages(items) by { assert forall i :: 0 <= i < |items| ==> (items + [p])[i] == items[i]; }
      forall q | q in path && q.chain == c ensures q.stage != p.stage {
        var i :| 0 <= i < |items| && items[i] == q;
        assert (items + [p])[i] == q && (items + [p])[|items|] == p;
      }
    } else if DistinctStages(items) {
      var i, j :| 0 <= i < j < |items + [p]| && (items + [p])[i].stage == (items + [p])[j].stage;
      assert items[i] in items;
    }
  }

  // ---- _validate_blocker_consistency and _validate_chain_dispositions ----

  predicate IsBlocker(p: Projection, b: Blocker) {
    && p.reachability == Blocked && p.stage == b.stage && p.chain == b.chain
    && p.reason == Some(b.reason) && p.authority == Some(b.authority)
  }

  predicate BlockerConsistent(path: seq<Projection>, blocker: Option<Blocker>) {
    match blocker
    case None => forall p :: p in path ==> p.reachability != Blocked
    case Some(b) => exists p :: p in path && IsBlocker(p, b)
  }

  /** FirstBlocker's own fields. */
  predicate BlockerValid(blocker: Option<Blocker>) {
    blocker.Some? ==> ChainName(blocker.value.chain) && blocker.value.reason != "" && blocker.value.authority != ""
  }

  function Chains(path: seq<Projection>): set<string> {
    set p | p in path :: p.chain
  }

  predicate DispositionsValid(path: seq<Projection>, dispositions: map<string, string>) {
    (dispositions != map[] ==> dispositions.Keys == Chains(path)) && forall v :: v in dispositions.Values ==> v != ""
  }

  /** The named blocker is blocked in the path, with its reason and authority; with none named, nothing is blocked. */
  ghost predicate BlockerRight(path: seq<Projection>, blocker: Option<Blocker>) {
    match blocker
    case None => forall p :: p in path ==> p.reachability == Reached || p.reachability == NotReached
    case Some(b) =>
      && NameRight(b.chain) && b.reason != "" && b.authority != ""
      && exists p :: p in path
           && p == Projection(b.stage, b.chain, Blocked, p.outcome, Some(b.reason), Some(b.authority), p.dueTo)
  }

  /** No disposition is empty, and if there are any they are those of the chains of the path. */
  ghost predicate DispositionsRight(path: seq<Projection>, dispositions: map<string, string>) {
    && (forall c :: c in dispositions ==> dispositions[c] != "")
    && (dispositions == map[] || forall c :: c in dispositions <==> exists p :: p in path && p.chain == c)
  }

  lemma BlockerIs(path: seq<Projection>, blocker: Option<Blocker>)
    ensures BlockerValid(blocker) && BlockerConsistent(path, blocker) <==> BlockerRight(path, blocker)
  {
    hide ChainName, NameRight;
    if blocker.Some? {
      NameValid(blocker.value.chain);
      if p :| p in path && IsBlocker(p, blocker.value) { assert p == p.(reachability := Blocked); }
    }
  }

  lemma DispositionsAre(path: seq<Projection>, dispositions: map<string, string>)
    ensures DispositionsValid(path, dispositions) <==> DispositionsRight(path, dispositions)
  {
    forall c ensures c in Chains(path) <==> exists p :: p in path && p.chain == c {}
    hide Chains;
    if DispositionsRight(path, dispositions) && dispositions != map[] {
      assert dispositions.Keys == Chains(path);
    }
    if DispositionsValid(path, dispositions) {
      assert forall c :: c in dispositions ==> dispositions[c] in dispositions.Values;
    }
  }

  /** The whole expected-path validator, items first. */
  method ValidateExpected(e: Expected) returns (ok: bool)
    ensures ok <==> Acceptable(e)
  {
    hide ItemValid, ItemRight, ChainDistinct, ChainHolds, UniqueStages, BlockerValid, BlockerConsistent, BlockerRight,
         DispositionsValid, DispositionsRight;
    var flow := ValidateFlow(e.path);
    UniqueByChain(e.path);
    forall p ensures ItemValid(p) <==> ItemRight(p) { ItemValidIs(p); }
    BlockerIs(e.path, e.blocker);
    DispositionsAre(e.path, e.dispositions);
    ok := && e.path != [] && BlockerValid(e.blocker)
          && (forall p :: p in e.path ==> ItemValid(p))
          && (e.kind == Positive <==> e.blocker.None?)
          && UniqueStages(e.path) && flow && BlockerConsistent(e.path, e.blocker)
               && DispositionsValid(e.path, e.dispositions);
  }

  /** Acceptance, chain by chain. */
  ghost predicate Acceptable(e: Expected) {
    && e.path != []
    && (forall p :: p in e.path ==> ItemRight(p))
    && (e.kind == Positive <==> e.blocker.None?)
    && (forall c :: ChainDistinct(e.path, c) && ChainHolds(e.path, c))
    && BlockerRight(e.path, e.blocker)
    && DispositionsRight(e.path, e.dispositions)
  }

  // ---- What acceptance means ----

  /** The same chains, interleaved differently. */
  ghost predicate SameChains(a: seq<Projection>, b: seq<Projection>) {
    forall c :: SameChain(a, b, c)
  }

  ghost predicate SameChain(a: seq<Projection>, b: seq<Projection>, c: string) {
    Project(a, c) == Project(b, c)
  }

  lemma SameMembers(a: seq<Projection>, b: seq<Projection>)
    requires SameChains(a, b)
    ensures forall p :: p in a <==> p in b
  {
    forall p ensures p in a <==> p in b {
      assert SameChain(a, b, p.chain);
      ProjectMembers(a, p.chain);
      ProjectMembers(b, p.chain);
    }
  }

  /** Acceptance does not depend on how the chains are interleaved. */
  lemma InterleavingIrrelevant(e: Expected, path: seq<Projection>)
    requires SameChains(e.path, path)
    ensures Acceptable(e) <==> Acceptable(e.(path := path))
  {
    hide ItemRight, WellFormedChain, DistinctStages,  Project;
    SameMembers(e.path, path);
    assert e.path == [] <==> path == [] by {
      assert e.path != [] ==> e.path[0] in e.path;
      assert path != [] ==> path[0] in path;
    }
    forall c
      ensures ChainHolds(e.path, c) == ChainHolds(path, c) && ChainDistinct(e.path, c) == ChainDistinct(path, c)
    {
      assert SameChain(e.path, path, c);
    }
  }

  /**
   * A positive expectation, one with blocker NONE, is accepted exactly when every stage is reached and the other rules
   * hold.
   */
  lemma NoBlockerMeansAllReached(e: Expected)
    requires e.blocker.None?
    ensures Acceptable(e) <==>
      && e.path != [] && e.kind == Positive
      && (forall p :: p in e.path ==> p.reachability == Reached && ItemRight(p))
      && (forall c :: ChainDistinct(e.path, c))
      && DispositionsRight(e.path, e.dispositions)
  {
    hide ItemRight, DispositionsRight, ChainDistinct, ChainHolds;
    if Acceptable(e) {
      forall p | p in e.path ensures p.reachability == Reached { ReachedInChain(e.path, p); }
    } else if forall p :: p in e.path ==> p.reachability == Reached {
      forall c ensures ChainHolds(e.path, c) {
        AllReached(e.path, c);
      }
    }
  }

  lemma AllReached(path: seq<Projection>, chain: string)
    requires forall p :: p in path ==> p.reachability == Reached
    ensures ChainHolds(path, chain)
  {
    ProjectMembers(path, chain);
    var items := Project(path, chain);
    assert forall i :: 0 <= i < |items| ==> items[i] in items;
    assert StopsAt(items, |items|);
  }

  lemma ReachedInChain(path: seq<Projection>, p: Projection)
    requires p in path && ChainHolds(path, p.chain)
    requires forall q :: q in path ==> q.reachability != Blocked
    ensures p.reachability == Reached
  {
    hide Project;
    ProjectMembers(path, p.chain);
    var items := Project(path, p.chain);
    assert forall i :: 0 <= i < |items| ==> items[i] in items;
    var k :| StopsAt(items, k);
  }

  /** A chain of an accepted path has at most one blocked stage, and every later stage of the chain names it. */
  lemma OneBlockerPerChain(e: Expected, chain: string, i: nat, j: nat)
    requires Acceptable(e)
    requires var items := Project(e.path, chain); i < j < |items| && items[i].reachability == Blocked
    ensures var items := Project(e.path, chain);
      items[j].reachability == NotReached && items[j].dueTo == Some(items[i].stage)
  {
    hide Project;
    var items := Project(e.path, chain);
    assert ChainHolds(e.path, chain);
    var k :| StopsAt(items, k);
  }
}
