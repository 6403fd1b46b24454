/**
 * Candidate proposals: normalisation, grouping by proposition, deduplication and the accounting of every raw candidate.
 */
module Proposals {
  import opened Common
  import opened Ordering

  datatype SlotValue = One(ref: string) | Many(refs: seq<string>)
  datatype Slot = Slot(name: string, value: SlotValue)
  datatype Candidate = Candidate(family: string, slots: seq<Slot>, sources: seq<string>)

  /** The outside of the generator: its field gates, content addresses, and what the context declares. */
  datatype Context = Context(gate: Candidate -> Option<string>, unordered: (string, string) -> bool,
                             proposition: Candidate -> Result<string, string>, fingerprint: Candidate -> string,
                             requested: set<string>)

  /** A constructed candidate: normal form, fingerprint of the raw candidate, proposition identity. */
  datatype Item = Item(candidate: Candidate, fingerprint: string, proposition: string)

  datatype Retained = Retained(representative: Item, duplicates: seq<string>)

  datatype Diagnostic = Rejected(code: string, fingerprint: string, family: string)
                      | Duplicate(fingerprint: string, family: string, of: string)
                      | Omitted(family: string)

  // ---- Normalisation ----

  predicate SlotLe(a: Slot, b: Slot) { StringLe(a.name, b.name) }

  function NormalSlot(c: Context, family: string, s: Slot): Slot {
    if c.unordered(family, s.name) && s.value.Many? then Slot(s.name, Many(SortedSet(s.value.refs, StringLe))) else s
  }

  function NormalSlots(c: Context, family: string, slots: seq<Slot>): seq<Slot> {
    seq(|slots|, i requires 0 <= i < |slots| => NormalSlot(c, family, slots[i]))
  }

  /** The tail of _normalize_and_validate_candidate. */
  function Normalise(c: Context, x: Candidate): Candidate {
    Candidate(x.family, NormalSlots(c, x.family, Sort(x.slots, SlotLe)), SortedSet(x.sources, StringLe))
  }

  lemma SlotPreorder()
    ensures Preorder(SlotLe)
  {
    hide StringLe;
    StringOrder();
    forall x, y ensures SlotLe(x, y) || SlotLe(y, x) {}
    forall x, y, z | SlotLe(x, y) && SlotLe(y, z) ensures SlotLe(x, z) {}
  }

  lemma SortedSetTwice(s: seq<string>)
    ensures SortedSet(SortedSet(s, StringLe), StringLe) == SortedSet(s, StringLe)
  {
    hide StringLe;
    StringOrder();
    SortedSetSpec(s, StringLe);
    SortedSetByElements(SortedSet(s, StringLe), s, StringLe);
  }

  /** Normalising twice changes nothing. */
  lemma NormaliseIdempotent(c: Context, x: Candidate)
    ensures Normalise(c, Normalise(c, x)) == Normalise(c, x)
  {
    hide StringLe, Sort, SortedSet;
    SlotPreorder();
    var sorted := Sort(x.slots, SlotLe);
    var slots := NormalSlots(c, x.family, sorted);
    SortSorted(x.slots, SlotLe);
    assert Sorted(slots, SlotLe);
    SortFixesSorted(slots, SlotLe);
    forall i | 0 <= i < |slots| ensures NormalSlot(c, x.family, slots[i]) == slots[i] {
      if sorted[i].value.Many? { SortedSetTwice(sorted[i].value.refs); }
    }
    SortedSetTwice(x.sources);
    assert NormalSlots(c, x.family, slots) == slots;
  }

  // ---- What normalisation forgets ----

  /** A candidate names each of its slots once, as its contract demands. */
  ghost predicate NamesOnce(slots: seq<Slot>) {
    forall i, j :: 0 <= i < j < |slots| ==> slots[i].name != slots[j].name
  }

  /** One slot with one value, where the order and repetitions of an unordered value do not matter. */
  ghost predicate SameSlot(c: Context, family: string, s: Slot, t: Slot) {
    && s.name == t.name
    && (s.value == t.value
        || (c.unordered(family, s.name) && s.value.Many? && t.value.Many?
            && forall r :: r in s.value.refs <==> r in t.value.refs))
  }

  ghost predicate HasSlot(c: Context, family: string, s: Slot, slots: seq<Slot>) {
    exists t :: t in slots && SameSlot(c, family, s, t)
  }

  ghost predicate SlotsWithin(c: Context, family: string, a: seq<Slot>, b: seq<Slot>) {
    forall s :: s in a ==> HasSlot(c, family, s, b)
  }

  /** The same family, the same slots and the same sources, in whatever order. */
  ghost predicate SameContent(c: Context, x: Candidate, y: Candidate) {
    && x.family == y.family
    && SlotsWithin(c, x.family, x.slots, y.slots) && SlotsWithin(c, x.family, y.slots, x.slots)
    && forall r :: r in x.sources <==> r in y.sources
  }

  /** The normal forms: slots in the order of their names, unordered values and sources sorted without repetition. */
  ghost predicate InNormalForm(c: Context, x: Candidate) {
    && (forall i, j :: 0 <= i < j < |x.slots| ==> StringLe(x.slots[i].name, x.slots[j].name))
    && (forall s :: s in x.slots && c.unordered(x.family, s.name) && s.value.Many?
          ==> StrictlySorted(s.value.refs, StringLe))
    && StrictlySorted(x.sources, StringLe)
  }

  lemma NormalSlotSame(c: Context, family: string, s: Slot)
    ensures SameSlot(c, family, s, NormalSlot(c, family, s)) && SameSlot(c, family, NormalSlot(c, family, s), s)
    ensures c.unordered(family, s.name) && s.value.Many?
      ==> StrictlySorted(NormalSlot(c, family, s).value.refs, StringLe)
  {
    hide StringLe, SortedSet;
    if s.value.Many? {
      StringOrder();
      SortedSetSpec(s.value.refs, StringLe);
    }
  }

  lemma NormalSlotByContent(c: Context, family: string, s: Slot, t: Slot)
    requires SameSlot(c, family, s, t)
    ensures NormalSlot(c, family, s) == NormalSlot(c, family, t)
  {
    hide StringLe, SortedSet;
    if s.value != t.value {
      StringOrder();
      SortedSetByElements(s.value.refs, t.value.refs, StringLe);
    }
  }

  /** The slots of the normal form are the normal slots. */
  lemma NormalSlotsAre(c: Context, x: Candidate)
    ensures var n := Normalise(c, x).slots;
      && (forall s :: s in x.slots ==> NormalSlot(c, x.family, s) in n)
      && forall t :: t in n ==> exists s :: s in x.slots && t == NormalSlot(c, x.family, s)
  {
    hide StringLe, Sort, SortedSet, NormalSlot;
    var sorted := Sort(x.slots, SlotLe);
    var n := NormalSlots(c, x.family, sorted);
    SortMembers(x.slots, SlotLe);
    forall s | s in x.slots ensures NormalSlot(c, x.family, s) in n {
      var k :| 0 <= k < |sorted| && sorted[k] == s;
      assert n[k] == NormalSlot(c, x.family, s);
    }
    forall t | t in n ensures exists s :: s in x.slots && t == NormalSlot(c, x.family, s) {
      var k :| 0 <= k < |n| && n[k] == t;
      assert sorted[k] in x.slots;
    }
  }

  /** Normalising keeps the content and ends in a normal form. */
  lemma NormaliseKeeps(c: Context, x: Candidate)
    ensures SameContent(c, x, Normalise(c, x)) && InNormalForm(c, Normalise(c, x))
  {
    hide StringLe, Sort, SortedSet;
    StringOrder();
    SortedSetSpec(x.sources, StringLe);
    hide NormalSlots, SlotsWithin, StrictlySorted;
    SlotsKept(c, x);
    SlotsSorted(c, x);
  }

  lemma SlotsKept(c: Context, x: Candidate)
    ensures SlotsWithin(c, x.family, x.slots, Normalise(c, x).slots)
    ensures SlotsWithin(c, x.family, Normalise(c, x).slots, x.slots)
  {
    hide Normalise, NormalSlot, SameSlot;
    var n := Normalise(c, x);
    NormalSlotsAre(c, x);
    forall s | s in x.slots ensures HasSlot(c, x.family, s, n.slots) { NormalSlotSame(c, x.family, s); }
    forall t | t in n.slots ensures HasSlot(c, x.family, t, x.slots) {
      var s :| s in x.slots && t == NormalSlot(c, x.family, s);
      NormalSlotSame(c, x.family, s);
    }
  }

  lemma SlotsSorted(c: Context, x: Candidate)
    ensures var n := Normalise(c, x).slots;
      && (forall i, j :: 0 <= i < j < |n| ==> StringLe(n[i].name, n[j].name))
      && forall t :: t in n && c.unordered(x.family, t.name) && t.value.Many? ==> StrictlySorted(t.value.refs, StringLe)
  {
    hide StringLe, Sort, Normalise, NormalSlot, StrictlySorted;
    var n := Normalise(c, x).slots;
    NormalSlotsAre(c, x);
    forall t | t in n && c.unordered(x.family, t.name) && t.value.Many? ensures StrictlySorted(t.value.refs, StringLe) {
      var s :| s in x.slots && t == NormalSlot(c, x.family, s);
      NormalSlotSame(c, x.family, s);
      NormalSlotKeeps(c, x.family, s);
    }
    SlotPreorder();
    SortSorted(x.slots, SlotLe);
    NormalSlotNames(c, x);
  }

  lemma NormalSlotKeeps(c: Context, family: string, s: Slot)
    ensures NormalSlot(c, family, s).name == s.name && NormalSlot(c, family, s).value.Many? == s.value.Many?
  {}

  lemma NormalSlotNames(c: Context, x: Candidate)
    ensures var n, sorted := Normalise(c, x).slots, Sort(x.slots, SlotLe);
      |n| == |sorted| && forall k :: 0 <= k < |n| ==> n[k].name == sorted[k].name
  {
    hide Sort, SortedSet, SlotLe;
  }

  lemma OnceByMultiset(a: seq<Slot>, b: seq<Slot>)
    requires multiset(a) == multiset(b) && NamesOnce(a)
    ensures NamesOnce(b)
  {
    forall i, j | 0 <= i < j < |b| ensures b[i].name != b[j].name {
      assert b[i] in multiset(a) && b[j] in multiset(a);
      var k :| 0 <= k < |a| && a[k] == b[i];
      var l :| 0 <= l < |a| && a[l] == b[j];
      CountOnce(a, k);
      CountTwice(b, i, j);
    }
  }

  lemma CountOnce(s: seq<Slot>, k: nat)
    requires NamesOnce(s) && k < |s|
    ensures multiset(s)[s[k]] == 1
  {
    var before, after := s[..k], s[k + 1..];
    assert s == before + [s[k]] + after;
    assert s[k] !in before && s[k] !in after;
  }

  lemma CountTwice(s: seq<Slot>, i: nat, j: nat)
    requires i < j < |s|
    ensures s[i] == s[j] ==> multiset(s)[s[i]] >= 2
  {
    assert s == s[..i] + [s[i]] + s[i + 1..];
    assert s[i + 1..][j - i - 1] == s[j];
  }

  /** Slot lists that are sorted by name, name each slot once and hold the same slots are one list. */
  lemma {:induction false} SlotsUnique(a: seq<Slot>, b: seq<Slot>)
    requires Sorted(a, SlotLe) && Sorted(b, SlotLe) && NamesOnce(a) && NamesOnce(b)
    requires forall s :: s in a <==> s in b
    ensures a == b
  {
    hide StringLe;
    assert b == [] || b[0] in b;
    if a != [] {
      StringOrder();
      assert a[0] in a;
      assert a[0] == b[0];
      assert a == [a[0]] + a[1..] && b == [b[0]] + b[1..];
      forall s ensures s in a[1..] <==> s in b[1..] {
        assert s in a[1..] <==> s in a && s != a[0];
        assert s in b[1..] <==> s in b && s != b[0];
      }
      SlotsUnique(a[1..], b[1..]);
    }
  }

  /** Candidates have one normal form exactly when they have the same content. */
  lemma NormaliseByContent(c: Context, x: Candidate, y: Candidate)
    requires NamesOnce(x.slots) && NamesOnce(y.slots)
    ensures Normalise(c, x) == Normalise(c, y) <==> SameContent(c, x, y)
  {
    hide Normalise, StringLe;
    NormaliseKeeps(c, x);
    NormaliseKeeps(c, y);
    if SameContent(c, x, y) { OneNormalForm(c, x, y); }
    if Normalise(c, x) == Normalise(c, y) {
      SameThrough(c, x.family, x.slots, Normalise(c, x).slots, y.slots);
      SameThrough(c, x.family, y.slots, Normalise(c, x).slots, x.slots);
    }
  }

  lemma SameThrough(c: Context, family: string, a: seq<Slot>, b: seq<Slot>, d: seq<Slot>)
    requires SlotsWithin(c, family, a, b) && SlotsWithin(c, family, b, d)
    ensures SlotsWithin(c, family, a, d)
  {
    forall s | s in a ensures HasSlot(c, family, s, d) {
      assert HasSlot(c, family, s, b);
      var t :| t in b && SameSlot(c, family, s, t);
      assert HasSlot(c, family, t, d);
      var u :| u in d && SameSlot(c, family, t, u);
      assert SameSlot(c, family, s, u);
    }
  }

  lemma OneNormalForm(c: Context, x: Candidate, y: Candidate)
    requires NamesOnce(x.slots) && NamesOnce(y.slots) && SameContent(c, x, y)
    ensures Normalise(c, x) == Normalise(c, y)
  {
    hide StringLe, Sort, SortedSet, NormalSlot, SameSlot, NormalSlots;
    var n, m := Normalise(c, x), Normalise(c, y);
    NormalNames(c, x);
    NormalNames(c, y);
    NormalWithin(c, x, y);
    NormalWithin(c, y, x);
    SlotsUnique(n.slots, m.slots);
    StringOrder();
    SortedSetByElements(x.sources, y.sources, StringLe);
  }

  lemma NormalNames(c: Context, x: Candidate)
    requires NamesOnce(x.slots)
    ensures Sorted(Normalise(c, x).slots, SlotLe) && NamesOnce(Normalise(c, x).slots)
  {
    hide StringLe, Sort, Normalise;
    SlotPreorder();
    SortSorted(x.slots, SlotLe);
    OnceByMultiset(x.slots, Sort(x.slots, SlotLe));
    NormalSlotNames(c, x);
  }

  lemma NormalWithin(c: Context, x: Candidate, y: Candidate)
    requires x.family == y.family && SlotsWithin(c, x.family, x.slots, y.slots)
    ensures forall t :: t in Normalise(c, x).slots ==> t in Normalise(c, y).slots
  {
    hide Normalise, NormalSlot, SameSlot;
    NormalSlotsAre(c, x);
    NormalSlotsAre(c, y);
    forall t | t in Normalise(c, x).slots ensures t in Normalise(c, y).slots {
      var s :| s in x.slots && t == NormalSlot(c, x.family, s);
      assert HasSlot(c, x.family, s, y.slots);
      var u :| u in y.slots && SameSlot(c, x.family, s, u);
      NormalSlotByContent(c, x.family, s, u);
    }
  }

  // ---- One candidate ----

  function Judge(c: Context, x: Candidate): Result<Item, string> {
    var gate := c.gate(x);
    if gate.Some? then Err(gate.value)
    else
      match c.proposition(Normalise(c, x))
      case Err(code) => Err(code)
      case Ok(id) => Ok(Item(Normalise(c, x), c.fingerprint(x), id))
  }

  /** The accepted items of one proposition, in batch order. */
  function Group(c: Context, batch: seq<Candidate>, id: string): seq<Item> {
    if batch == [] then []
    else
      var n := |batch| - 1;
      var j := Judge(c, batch[n]);
      Group(c, batch[..n], id) + if j.Ok? && j.value.proposition == id then [j.value] else []
  }

  function Ids(c: Context, batch: seq<Candidate>): set<string> {
    set x | x in batch && Judge(c, x).Ok? :: Judge(c, x).value.proposition
  }

  function Rejections(c: Context, batch: seq<Candidate>): seq<Diagnostic> {
    if batch == [] then []
    else
      var n := |batch| - 1;
      var j := Judge(c, batch[n]);
      Rejections(c, batch[..n]) + if j.Err? then [Rejected(j.error, c.fingerprint(batch[n]), batch[n].family)] else []
  }

  // ---- The retained propositions ----

  predicate PrintLe(a: Item, b: Item) { StringLe(a.fingerprint, b.fingerprint) }

  function PrintsOf(items: seq<Item>): seq<string> {
    seq(|items|, i requires 0 <= i < |items| => items[i].fingerprint)
  }

  /** The group in fingerprint order: its first item represents the proposition. */
  function Retain(group: seq<Item>): Retained
    requires group != []
  {
    var s := Sort(group, PrintLe);
    Retained(s[0], PrintsOf(s[1..]))
  }

  /** Every listed proposition has an accepted item. */
  ghost predicate Grouped(c: Context, batch: seq<Candidate>, ids: seq<string>) {
    forall id :: id in ids ==> Group(c, batch, id) != []
  }

  lemma GroupedPrefix(c: Context, batch: seq<Candidate>, ids: seq<string>, n: nat)
    requires |ids| == n + 1 && Grouped(c, batch, ids)
    ensures Grouped(c, batch, ids[..n]) && Group(c, batch, ids[n]) != []
  {
    hide Group;
    assert forall id :: id in ids[..n] ==> id in ids;
    assert ids[n] in ids;
  }

  function RetainAll(c: Context, batch: seq<Candidate>, ids: seq<string>): seq<Retained>
    requires Grouped(c, batch, ids)
  {
    if ids == [] then []
    else
      var n := |ids| - 1;
      GroupedPrefix(c, batch, ids, n);
      RetainAll(c, batch, ids[..n]) + [Retain(Group(c, batch, ids[n]))]
  }

  function DuplicatesOf(items: seq<Item>, id: string): seq<Diagnostic> {
    seq(|items|, i requires 0 <= i < |items| => Duplicate(items[i].fingerprint, items[i].candidate.family, id))
  }

  function AllDuplicates(c: Context, batch: seq<Candidate>, ids: seq<string>): seq<Diagnostic> {
    if ids == [] then []
    else
      var n := |ids| - 1;
      var group := Sort(Group(c, batch, ids[n]), PrintLe);
      AllDuplicates(c, batch, ids[..n]) + if group == [] then [] else DuplicatesOf(group[1..], ids[n])
  }

  lemma {:induction false} GroupMembers(c: Context, batch: seq<Candidate>, id: string)
    ensures forall i :: i in Group(c, batch, id) <==> i.proposition == id && Comes(c, batch, i)
    ensures Group(c, batch, id) != [] <==> id in Ids(c, batch)
  {
    hide Judge;
    if batch != [] {
      var n := |batch| - 1;
      GroupMembers(c, batch[..n], id);
      assert batch == batch[..n] + [batch[n]];
      forall i ensures Comes(c, batch, i) <==> Comes(c, batch[..n], i) || Judge(c, batch[n]) == Ok(i) {
        if Comes(c, batch[..n], i) {
          var x :| x in batch[..n] && Judge(c, x) == Ok(i);
          assert x in batch;
        }
      }
    }
  }

  ghost predicate Comes(c: Context, batch: seq<Candidate>, i: Item) {
    exists x :: x in batch && Judge(c, x) == Ok(i)
  }

  lemma GroupStep(c: Context, batch: seq<Candidate>, k: nat, id: string)
    requires k < |batch|
    ensures var before, j := Group(c, batch[..k], id), Judge(c, batch[k]);
      Group(c, batch[..k + 1], id) == if j.Ok? && j.value.proposition == id then before + [j.value] else before
    ensures var before, j := Rejections(c, batch[..k]), Judge(c, batch[k]);
      Rejections(c, batch[..k + 1])
        == if j.Err? then before + [Rejected(j.error, c.fingerprint(batch[k]), batch[k].family)] else before
  {
    hide Judge;
    assert batch[..k + 1][..k] == batch[..k];
    assert Group(c, batch[..k], id) + [] == Group(c, batch[..k], id);
    assert Rejections(c, batch[..k]) + [] == Rejections(c, batch[..k]);
  }

  /** accepted_by_id after some candidates: the groups of exactly the propositions met. */
  ghost predicate Collects(c: Context, batch: seq<Candidate>, acceptedById: map<string, seq<Item>>, id: string) {
    if id in acceptedById then acceptedById[id] == Group(c, batch, id) && acceptedById[id] != []
      else Group(c, batch, id) == []
  }

  /** The first loop: judge every candidate, collecting items by proposition and rejections in order. */
  method Collect(c: Context, batch: seq<Candidate>)
    returns (acceptedById: map<string, seq<Item>>, diagnostics: seq<Diagnostic>)
    ensures forall id :: Collects(c, batch, acceptedById, id)
    ensures diagnostics == Rejections(c, batch)
  {
    hide Judge, Normalise;
    acceptedById, diagnostics := map[], [];
    for k := 0 to |batch|
      invariant forall id :: Collects(c, batch[..k], acceptedById, id)
      invariant diagnostics == Rejections(c, batch[..k])
    {
      ghost var done, prior := batch[..k + 1], acceptedById;
      var candidate := batch[k];
      GroupStep(c, batch, k, "");
      match Judge(c, candidate) {
        case Err(code) =>
          diagnostics := diagnostics + [Rejected(code, c.fingerprint(candidate), candidate.family)];
        case Ok(item) =>
          var id := item.proposition;
          assert Collects(c, batch[..k], acceptedById, id);
          var before := if id in acceptedById then acceptedById[id] else [];
          acceptedById := acceptedById[id := before + [item]];
      }
      forall id ensures Collects(c, done, acceptedById, id) {
        GroupStep(c, batch, k, id);
        assert Collects(c, batch[..k], prior, id);
      }
    }
    assert batch[..|batch|] == batch;
  }

  /** ProposalValidationResult. */
  datatype Proposed = Proposed(accepted: seq<Retained>, diagnostics: seq<Diagnostic>, omissions: seq<string>)

  /** ids lists the propositions met, and p is what the loops make of their groups. */
  ghost predicate ConstructedFrom(c: Context, batch: seq<Candidate>, ids: seq<string>, p: Proposed) {
    && StrictlySorted(ids, StringLe) && (forall id :: id in ids <==> id in Ids(c, batch)) && Grouped(c, batch, ids)
    && p.accepted == RetainAll(c, batch, ids)
    && p.diagnostics == Rejections(c, batch) + AllDuplicates(c, batch, ids) + OmissionsOf(p.omissions)
    && StrictlySorted(p.omissions, StringLe)
    && forall f :: f in p.omissions <==>
         f in c.requested && forall a :: a in p.accepted ==> a.representative.candidate.family != f
  }

  ghost predicate Constructs(c: Context, batch: seq<Candidate>, p: Proposed) {
    exists ids :: ConstructedFrom(c, batch, ids, p)
  }

  /** validate_and_construct_propositions. */
  method ValidateAndConstruct(c: Context, batch: seq<Candidate>) returns (p: Proposed)
    ensures Constructs(c, batch, p)
  {
    hide Judge, Group, Rejections, Sort, StringLe, Ids, Comes;
    var acceptedById, rejected := Collect(c, batch);
    var sorted := SortedStrings(acceptedById.Keys);
    forall id ensures id in sorted <==> id in Ids(c, batch) ensures id in sorted ==> Group(c, batch, id) != [] {
      assert Collects(c, batch, acceptedById, id);
      GroupMembers(c, batch, id);
    }
    assert Grouped(c, batch, sorted);
    var accepted, diagnostics := RetainGroups(c, batch, acceptedById, sorted, rejected);
    var families := set a | a in accepted :: a.representative.candidate.family;
    var omissions := SortedStrings(c.requested - families);
    p := Proposed(accepted, diagnostics + OmissionsOf(omissions), omissions);
    assert ConstructedFrom(c, batch, sorted, p);
  }

  /** The second loop: one representative per proposition, and a diagnostic for each of its duplicates. */
  method RetainGroups(c: Context, ghost batch: seq<Candidate>, acceptedById: map<string, seq<Item>>,
                      sorted: seq<string>, rejected: seq<Diagnostic>)
    returns (accepted: seq<Retained>, diagnostics: seq<Diagnostic>)
    requires Grouped(c, batch, sorted) && forall id :: id in sorted ==> Collects(c, batch, acceptedById, id)
    ensures accepted == RetainAll(c, batch, sorted)
    ensures diagnostics == rejected + AllDuplicates(c, batch, sorted)
  {
    hide Group, Sort, PrintLe, RetainAll, AllDuplicates, DuplicatesOf;
    NothingRetained(c, batch);
    accepted, diagnostics := [], rejected;
    assert rejected + [] == rejected;
    for k := 0 to |sorted|
      invariant Grouped(c, batch, sorted[..k])
      invariant accepted == RetainAll(c, batch, sorted[..k])
      invariant diagnostics == rejected + AllDuplicates(c, batch, sorted[..k])
    {
      var id := sorted[k];
      ghost var done := sorted[..k + 1];
      assert done[..k] == sorted[..k] && done[k] == id && id in sorted;
      assert Grouped(c, batch, done) by { assert forall other :: other in done ==> other in sorted; }
      LastRetained(c, batch, done, k);
      LastDuplicates(c, batch, done, k);
      assert Collects(c, batch, acceptedById, id);
      var group := Sort(acceptedById[id], PrintLe);
      accepted := accepted + [Retained(group[0], PrintsOf(group[1..]))];
      diagnostics := diagnostics + DuplicatesOf(group[1..], id);
    }
    assert sorted[..|sorted|] == sorted;
  }

  lemma {:induction false} LastRetained(c: Context, batch: seq<Candidate>, ids: seq<string>, n: nat)
    requires |ids| == n + 1 && Grouped(c, batch, ids)
    ensures Grouped(c, batch, ids[..n]) && Group(c, batch, ids[n]) != []
    ensures RetainAll(c, batch, ids) == RetainAll(c, batch, ids[..n]) + [Retain(Group(c, batch, ids[n]))]
  {
    hide Group, Retain, Grouped;
    GroupedPrefix(c, batch, ids, n);
  }

  lemma {:induction false} LastDuplicates(c: Context, batch: seq<Candidate>, ids: seq<string>, n: nat)
    requires |ids| == n + 1 && Group(c, batch, ids[n]) != []
    ensures AllDuplicates(c, batch, ids)
         == AllDuplicates(c, batch, ids[..n]) + DuplicatesOf(Sort(Group(c, batch, ids[n]), PrintLe)[1..], ids[n])
  {
    hide Group, Sort, PrintLe;
  }

  lemma NothingRetained(c: Context, batch: seq<Candidate>)
    ensures RetainAll(c, batch, []) == [] && AllDuplicates(c, batch, []) == []
  {}

  function OmissionsOf(families: seq<string>): seq<Diagnostic> {
    seq(|families|, i requires 0 <= i < |families| => Omitted(families[i]))
  }
}
