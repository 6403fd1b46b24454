/** What becomes of the raw candidates of a batch: accounted for once each, whatever their order. */
module ProposalAccounting {
  import opened Common
  import opened Ordering
  import opened Proposals

  // ---- Accounting ----

  /** The fingerprints a list of diagnostics accounts for. */
  ghost function PrintsOfDiagnostics(d: seq<Diagnostic>): multiset<string> {
    if d == [] then multiset{}
    else
      var n := |d| - 1;
      PrintsOfDiagnostics(d[..n]) + if d[n].Omitted? then multiset{} else multiset{d[n].fingerprint}
  }

  ghost function PrintsOfBatch(c: Context, batch: seq<Candidate>): multiset<string> {
    if batch == [] then multiset{}
      else PrintsOfBatch(c, batch[..|batch| - 1]) + multiset{c.fingerprint(batch[|batch| - 1])}
  }

  ghost function PrintsOfGroups(c: Context, batch: seq<Candidate>, ids: seq<string>): multiset<string> {
    if ids == [] then multiset{}
    else PrintsOfGroups(c, batch, ids[..|ids| - 1]) + multiset(PrintsOf(Group(c, batch, ids[|ids| - 1])))
  }

  /** The fingerprints of the retained representatives. */
  ghost function PrintsOfRetained(accepted: seq<Retained>): multiset<string> {
    if accepted == [] then multiset{}
    else PrintsOfRetained(accepted[..|accepted| - 1]) + multiset{accepted[|accepted| - 1].representative.fingerprint}
  }

  /** The fingerprints the retained propositions record as duplicates. */
  ghost function PrintsOfDuplicates(accepted: seq<Retained>): multiset<string> {
    if accepted == [] then multiset{}
    else PrintsOfDuplicates(accepted[..|accepted| - 1]) + multiset(accepted[|accepted| - 1].duplicates)
  }

  lemma PrintsAppend(items: seq<Item>, i: Item)
    ensures PrintsOf(items + [i]) == PrintsOf(items) + [i.fingerprint]
    ensures multiset(PrintsOf(items + [i])) == multiset(PrintsOf(items)) + multiset{i.fingerprint}
  {
    assert PrintsOf(items + [i]) == PrintsOf(items) + [i.fingerprint];
  }

  ghost predicate Unrepeated(ids: seq<string>) {
    forall i, j :: 0 <= i < j < |ids| ==> ids[i] != ids[j]
  }

  /** Every accepted candidate's proposition is listed. */
  ghost predicate Lists(c: Context, batch: seq<Candidate>, ids: seq<string>) {
    forall id :: id in Ids(c, batch) ==> id in ids
  }

  lemma DistinctPrefix(ids: seq<string>, n: nat)
    requires |ids| == n + 1 && Unrepeated(ids)
    ensures Unrepeated(ids[..n]) && ids[n] !in ids[..n]
    ensures forall id :: id in ids <==> id in ids[..n] || id == ids[n]
  {
    assert ids == ids[..n] + [ids[n]];
  }

  /** One more candidate adds its fingerprint to exactly the group of its proposition. */
  lemma {:induction false} GroupsStep(c: Context, batch: seq<Candidate>, k: nat, ids: seq<string>)
    requires k < |batch| && Unrepeated(ids)
    ensures var j := Judge(c, batch[k]);
      PrintsOfGroups(c, batch[..k + 1], ids) == PrintsOfGroups(c, batch[..k], ids) +
        if j.Ok? && j.value.proposition in ids then multiset{j.value.fingerprint} else multiset{}
  {
    hide Judge, Group, Unrepeated, PrintsOf;
    if ids != [] {
      var n := |ids| - 1;
      DistinctPrefix(ids, n);
      GroupsStep(c, batch, k, ids[..n]);
      GroupStep(c, batch, k, ids[n]);
      var j := Judge(c, batch[k]);
      if j.Ok? && j.value.proposition == ids[n] { PrintsAppend(Group(c, batch[..k], ids[n]), j.value); }
    }
  }

  lemma {:induction false} NoGroups(c: Context, ids: seq<string>)
    ensures PrintsOfGroups(c, [], ids) == multiset{}
  {
    if ids != [] {
      NoGroups(c, ids[..|ids| - 1]);
      assert Group(c, [], ids[|ids| - 1]) == [] && PrintsOf([]) == [];
    }
  }

  /** Every fingerprint of the batch is in exactly one group or rejection. */
  lemma {:induction false} GroupsAndRejections(c: Context, batch: seq<Candidate>, k: nat, ids: seq<string>)
    requires Unrepeated(ids) && k <= |batch| && Lists(c, batch, ids)
    ensures PrintsOfBatch(c, batch[..k])
      == PrintsOfGroups(c, batch[..k], ids) + PrintsOfDiagnostics(Rejections(c, batch[..k]))
  {
    hide Group, Judge, PrintsOfGroups, PrintsOfBatch, Unrepeated;
    if k == 0 {
      NoGroups(c, ids);
      NothingYet(c);
      assert batch[..k] == [];
    } else {
      hide PrintsOfDiagnostics, Rejections;
      var n := k - 1;
      GroupsAndRejections(c, batch, n, ids);
      assert batch[..k][..n] == batch[..n] && batch[n] in batch;
      GroupsStep(c, batch, n, ids);
      GroupStep(c, batch, n, "");
      JudgeKeepsFingerprint(c, batch[n]);
      BatchStep(c, batch, n);
      var j := Judge(c, batch[n]);
      assert j.Ok? ==> j.value.proposition in Ids(c, batch);
      if j.Err? {
        DiagnosticAppended(Rejections(c, batch[..n]), Rejected(j.error, c.fingerprint(batch[n]), batch[n].family));
      }
    }
  }

  lemma JudgeKeepsFingerprint(c: Context, x: Candidate)
    ensures Judge(c, x).Ok? ==> Judge(c, x).value.fingerprint == c.fingerprint(x)
  {
    hide Normalise;
  }

  lemma BatchStep(c: Context, batch: seq<Candidate>, n: nat)
    requires n < |batch|
    ensures PrintsOfBatch(c, batch[..n + 1]) == PrintsOfBatch(c, batch[..n]) + multiset{c.fingerprint(batch[n])}
  {
    assert batch[..n + 1][..n] == batch[..n];
  }

  lemma NothingYet(c: Context)
    ensures PrintsOfBatch(c, []) == multiset{} && PrintsOfDiagnostics(Rejections(c, [])) == multiset{}
  {}

  lemma DiagnosticAppended(d: seq<Diagnostic>, x: Diagnostic)
    ensures PrintsOfDiagnostics(d + [x]) == PrintsOfDiagnostics(d) + if x.Omitted? then multiset{}
      else multiset{x.fingerprint}
  {
    assert (d + [x])[..|d|] == d;
  }

  lemma AddLast(a: multiset<string>, b: multiset<string>, c: multiset<string>)
    ensures (a + b) + c == a + (b + c)
  {}

  lemma {:induction false} DiagnosticsConcat(a: seq<Diagnostic>, b: seq<Diagnostic>)
    ensures PrintsOfDiagnostics(a + b) == PrintsOfDiagnostics(a) + PrintsOfDiagnostics(b)
  {
    hide PrintsOfDiagnostics;
    if b == [] {
      assert a + b == a;
      NoDiagnostics();
    } else {
      var n := |b| - 1;
      Snoc(a, b, n);
      DiagnosticsConcat(a, b[..n]);
      DiagnosticAppended(a + b[..n], b[n]);
      DiagnosticAppended(b[..n], b[n]);
      var last := if b[n].Omitted? then multiset{} else multiset{b[n].fingerprint};
      AddLast(PrintsOfDiagnostics(a), PrintsOfDiagnostics(b[..n]), last);
    }
  }

  lemma NoDiagnostics()
    ensures PrintsOfDiagnostics([]) == multiset{}
  {}

  lemma Snoc<T>(a: seq<T>, b: seq<T>, n: nat)
    requires |b| == n + 1
    ensures a + b == (a + b[..n]) + [b[n]] && b == b[..n] + [b[n]]
  {}

  /** Sorting a group keeps its fingerprints. */
  lemma {:induction false} PrintsByMultiset(a: seq<Item>, b: seq<Item>)
    requires multiset(a) == multiset(b)
    ensures multiset(PrintsOf(a)) == multiset(PrintsOf(b))
  {
    if a == [] {
      EmptyMatch(b);
    } else {
      var i := DropMatching(a, b);
      PrintsByMultiset(a[1..], b[..i] + b[i + 1..]);
      assert PrintsOf(a) == [a[0].fingerprint] + PrintsOf(a[1..]);
      assert PrintsOf(b) == PrintsOf(b[..i]) + [b[i].fingerprint] + PrintsOf(b[i + 1..]);
      assert PrintsOf(b[..i] + b[i + 1..]) == PrintsOf(b[..i]) + PrintsOf(b[i + 1..]);
    }
  }

  /** A group's fingerprints are its representative's and its duplicates'. */
  lemma RetainAccounts(group: seq<Item>)
    requires group != []
    ensures var r := Retain(group);
      multiset(PrintsOf(group)) == multiset{r.representative.fingerprint} + multiset(r.duplicates)
  {
    hide Sort, PrintLe;
    var s := Sort(group, PrintLe);
    PrintsByMultiset(group, s);
    assert PrintsOf(s) == [s[0].fingerprint] + PrintsOf(s[1..]);
  }

  lemma {:induction false} DuplicatePrints(items: seq<Item>, id: string)
    ensures PrintsOfDiagnostics(DuplicatesOf(items, id)) == multiset(PrintsOf(items))
  {
    if items == [] {
      assert PrintsOf(items) == [] && DuplicatesOf(items, id) == [];
    } else {
      hide PrintsOfDiagnostics;
      var n := |items| - 1;
      DuplicatePrints(items[..n], id);
      var d := DuplicatesOf(items, id);
      assert d == DuplicatesOf(items[..n], id) + [d[n]];
      DiagnosticAppended(DuplicatesOf(items[..n], id), d[n]);
      assert items == items[..n] + [items[n]];
      PrintsAppend(items[..n], items[n]);
    }
  }

  lemma {:induction false} LastGroup(c: Context, batch: seq<Candidate>, ids: seq<string>, n: nat)
    requires |ids| == n + 1
    ensures PrintsOfGroups(c, batch, ids)
      == PrintsOfGroups(c, batch, ids[..n]) + multiset(PrintsOf(Group(c, batch, ids[n])))
  {
    hide Group, PrintsOf;
  }

  lemma {:induction false} RetainedAccount(c: Context, batch: seq<Candidate>, ids: seq<string>)
    requires Grouped(c, batch, ids)
    ensures var accepted := RetainAll(c, batch, ids);
      && PrintsOfGroups(c, batch, ids) == PrintsOfRetained(accepted) + PrintsOfDuplicates(accepted)
      && PrintsOfDiagnostics(AllDuplicates(c, batch, ids)) == PrintsOfDuplicates(accepted)
      && |accepted| == |ids|
  {
    if ids != [] {
      hide Group, Grouped, Sort, PrintLe, RetainAll, AllDuplicates, PrintsOfGroups, PrintsOfRetained,
           PrintsOfDuplicates, PrintsOfDiagnostics, DuplicatesOf;
      var n := |ids| - 1;
      LastRetained(c, batch, ids, n);
      LastDuplicates(c, batch, ids, n);
      LastGroup(c, batch, ids, n);
      RetainedAccount(c, batch, ids[..n]);
      var group := Group(c, batch, ids[n]);
      var s := Sort(group, PrintLe);
      RetainAccounts(group);
      DuplicatePrints(s[1..], ids[n]);
      DiagnosticsConcat(AllDuplicates(c, batch, ids[..n]), DuplicatesOf(s[1..], ids[n]));
      RetainedAppended(RetainAll(c, batch, ids[..n]), Retain(group));
    }
  }

  lemma RetainedAppended(accepted: seq<Retained>, r: Retained)
    ensures PrintsOfRetained(accepted + [r]) == PrintsOfRetained(accepted) + multiset{r.representative.fingerprint}
    ensures PrintsOfDuplicates(accepted + [r]) == PrintsOfDuplicates(accepted) + multiset(r.duplicates)
  {
    assert (accepted + [r])[..|accepted|] == accepted;
  }

  /**
   * Every raw candidate ends exactly once as a representative, a recorded duplicate or a rejection; each duplicate also
   * has its diagnostic.
   */
  lemma Accounting(c: Context, batch: seq<Candidate>, ids: seq<string>)
    requires Unrepeated(ids) && Lists(c, batch, ids) && Grouped(c, batch, ids)
    ensures var accepted := RetainAll(c, batch, ids);
      && PrintsOfBatch(c, batch)
           == PrintsOfRetained(accepted) + PrintsOfDuplicates(accepted) + PrintsOfDiagnostics(Rejections(c, batch))
      && PrintsOfDiagnostics(AllDuplicates(c, batch, ids)) == PrintsOfDuplicates(accepted)
  {
    hide Group, Rejections, Judge, Grouped, Lists, Unrepeated;
    GroupsAndRejections(c, batch, |batch|, ids);
    assert batch[..|batch|] == batch;
    RetainedAccount(c, batch, ids);
  }

  // ---- Distinct, sorted, and independent of the batch order ----

  ghost predicate Represents(r: Item, group: seq<Item>, id: string) {
    r.proposition == id && r in group && forall i :: i in group ==> PrintLe(r, i)
  }

  /**
   * Retained propositions have the listed identities, one each, and each representative has the least fingerprint of
   * its group.
   */
  lemma {:induction false} RetainedAre(c: Context, batch: seq<Candidate>, ids: seq<string>)
    requires Grouped(c, batch, ids)
    ensures var accepted := RetainAll(c, batch, ids);
      && |accepted| == |ids|
      && forall k :: 0 <= k < |ids| ==> Represents(accepted[k].representative, Group(c, batch, ids[k]), ids[k])
  {
    RetainedCount(c, batch, ids);
    forall k | 0 <= k < |ids|
      ensures Represents(RetainAll(c, batch, ids)[k].representative, Group(c, batch, ids[k]), ids[k])
    {
      RetainedAt(c, batch, ids, k);
      LeastRepresents(c, batch, ids[k]);
    }
  }

  lemma {:induction false} RetainedCount(c: Context, batch: seq<Candidate>, ids: seq<string>)
    requires Grouped(c, batch, ids)
    ensures |RetainAll(c, batch, ids)| == |ids|
  {
    hide Group, Grouped, Retain;
    if ids != [] {
      GroupedPrefix(c, batch, ids, |ids| - 1);
      RetainedCount(c, batch, ids[..|ids| - 1]);
    }
  }

  lemma {:induction false} RetainedAt(c: Context, batch: seq<Candidate>, ids: seq<string>, k: nat)
    requires Grouped(c, batch, ids) && k < |ids|
    ensures Group(c, batch, ids[k]) != [] && |RetainAll(c, batch, ids)| == |ids|
    ensures RetainAll(c, batch, ids)[k] == Retain(Group(c, batch, ids[k]))
    decreases |ids|
  {
    hide Group, Grouped, Retain;
    var n := |ids| - 1;
    GroupedPrefix(c, batch, ids, n);
    RetainedCount(c, batch, ids[..n]);
    if k < n { RetainedAt(c, batch, ids[..n], k); }
  }

  lemma LeastRepresents(c: Context, batch: seq<Candidate>, id: string)
    requires Group(c, batch, id) != []
    ensures Represents(Retain(Group(c, batch, id)).representative, Group(c, batch, id), id)
  {
    hide Group, Retain, PrintLe, Judge, Comes;
    RepresentativeLeast(Group(c, batch, id));
    GroupMembers(c, batch, id);
  }

  lemma PrintPreorder()
    ensures Preorder(PrintLe)
  {
    hide StringLe;
    StringOrder();
    forall x, y ensures PrintLe(x, y) || PrintLe(y, x) {}
    forall x, y, z | PrintLe(x, y) && PrintLe(y, z) ensures PrintLe(x, z) {}
  }

  lemma RepresentativeLeast(group: seq<Item>)
    requires group != []
    ensures Retain(group).representative in group
    ensures forall i :: i in group ==> PrintLe(Retain(group).representative, i)
  {
    hide Sort;
    PrintPreorder();
    SortSorted(group, PrintLe);
    SortMembers(group, PrintLe);
    var s := Sort(group, PrintLe);
    assert s[0] in s;
    forall i | i in group ensures PrintLe(s[0], i) {
      var k :| 0 <= k < |s| && s[k] == i;
      assert PrintLe(s[0], s[0]);
    }
    hide PrintLe;
  }

  /** Fingerprints identify raw candidates. */
  ghost predicate Injective(c: Context) {
    forall x, y :: c.fingerprint(x) == c.fingerprint(y) ==> x == y
  }

  /** Permuting the batch permutes each group. */
  lemma {:induction false} GroupByMultiset(c: Context, a: seq<Candidate>, b: seq<Candidate>, id: string)
    requires multiset(a) == multiset(b)
    ensures multiset(Group(c, a, id)) == multiset(Group(c, b, id))
  {
    GroupCounts(c, a, id);
    GroupCounts(c, b, id);
    forall i ensures multiset(Group(c, a, id))[i] == multiset(Group(c, b, id))[i] {
      Same(c, a, b, id, i);
    }
  }

  /** How often an item comes out of a batch. */
  ghost function Occurrences(c: Context, batch: seq<Candidate>, id: string, i: Item): nat {
    if batch == [] then 0
    else
      var n := |batch| - 1;
      Occurrences(c, batch[..n], id, i) + if Judge(c, batch[n]) == Ok(i) && i.proposition == id then 1 else 0
  }

  lemma {:induction false} GroupCounts(c: Context, batch: seq<Candidate>, id: string)
    ensures forall i :: multiset(Group(c, batch, id))[i] == Occurrences(c, batch, id, i)
  {
    hide Judge;
    if batch != [] { GroupCounts(c, batch[..|batch| - 1], id); }
  }

  lemma {:induction false} OccurrencesConcat(c: Context, a: seq<Candidate>, b: seq<Candidate>, id: string, i: Item)
    ensures Occurrences(c, a + b, id, i) == Occurrences(c, a, id, i) + Occurrences(c, b, id, i)
  {
    hide Judge;
    if b == [] {
      assert a + b == a;
    } else {
      var n := |b| - 1;
      assert (a + b)[..|a| + n] == a + b[..n];
      OccurrencesConcat(c, a, b[..n], id, i);
    }
  }

  lemma {:induction false} Same(c: Context, a: seq<Candidate>, b: seq<Candidate>, id: string, i: Item)
    requires multiset(a) == multiset(b)
    ensures Occurrences(c, a, id, i) == Occurrences(c, b, id, i)
  {
    hide Judge, Occurrences;
    if a == [] {
      EmptyMatch(b);
    } else {
      var k := DropMatching(a, b);
      Same(c, a[1..], b[..k] + b[k + 1..], id, i);
      OccurrencesConcat(c, [a[0]], a[1..], id, i);
      OccurrencesConcat(c, b[..k], b[k + 1..], id, i);
      OccurrencesConcat(c, b[..k] + [b[k]], b[k + 1..], id, i);
      OccurrencesConcat(c, b[..k], [b[k]], id, i);
      assert a == [a[0]] + a[1..] && b == b[..k] + [b[k]] + b[k + 1..];
    }
  }

  lemma {:induction false} SameFingerprintSameItem(c: Context, batch: seq<Candidate>, id: string)
    requires Injective(c)
    ensures forall x, y ::
      x in Group(c, batch, id) && y in Group(c, batch, id) && PrintLe(x, y) && PrintLe(y, x) ==> x == y
  {
    hide Group, StringLe, Normalise;
    StringOrder();
    GroupMembers(c, batch, id);
    forall x, y | x in Group(c, batch, id) && y in Group(c, batch, id) && PrintLe(x, y) && PrintLe(y, x)
      ensures x == y
    {
      var u :| u in batch && Judge(c, u) == Ok(x);
      var v :| v in batch && Judge(c, v) == Ok(y);
      assert x.fingerprint == c.fingerprint(u) && y.fingerprint == c.fingerprint(v);
    }
  }

  /**
   * Permuting a batch changes neither the accepted propositions, their representatives and duplicates, nor the
   * duplicate diagnostics.
   */
  lemma {:induction false} BatchOrderIrrelevant(c: Context, a: seq<Candidate>, b: seq<Candidate>, ids: seq<string>)
    requires Injective(c) && multiset(a) == multiset(b)
    requires Grouped(c, a, ids) && Grouped(c, b, ids)
    ensures RetainAll(c, a, ids) == RetainAll(c, b, ids)
    ensures AllDuplicates(c, a, ids) == AllDuplicates(c, b, ids)
  {
    if ids != [] {
      hide Group, Sort, StringLe, Judge, Grouped;
      var n := |ids| - 1;
      GroupedPrefix(c, a, ids, n);
      GroupedPrefix(c, b, ids, n);
      BatchOrderIrrelevant(c, a, b, ids[..n]);
      GroupByMultiset(c, a, b, ids[n]);
      PrintPreorder();
      SameFingerprintSameItem(c, a, ids[n]);
      SortOrderInsensitive(Group(c, a, ids[n]), Group(c, b, ids[n]), PrintLe);
    }
  }

  /** The listed identities are the same too. */
  lemma SameIds(c: Context, a: seq<Candidate>, b: seq<Candidate>)
    requires multiset(a) == multiset(b)
    ensures Ids(c, a) == Ids(c, b)
  {
    hide Judge;
    forall x ensures x in a <==> x in b {
      assert x in a <==> x in multiset(a);
      assert x in b <==> x in multiset(b);
    }
  }

  // ---- Whole results ----

  lemma {:induction false} OmissionPrints(families: seq<string>)
    ensures PrintsOfDiagnostics(OmissionsOf(families)) == multiset{}
  {
    if families == [] {
      NoDiagnostics();
    } else {
      hide PrintsOfDiagnostics;
      var n := |families| - 1;
      OmissionPrints(families[..n]);
      DiagnosticAppended(OmissionsOf(families[..n]), Omitted(families[n]));
      assert OmissionsOf(families) == OmissionsOf(families[..n]) + [Omitted(families[n])];
    }
  }

  /**
   * Every raw candidate of a batch ends exactly once: as a representative, or in a duplicate or rejection diagnostic.
   */
  lemma EveryCandidateOnce(c: Context, batch: seq<Candidate>, p: Proposed)
    requires Constructs(c, batch, p)
    ensures PrintsOfBatch(c, batch) == PrintsOfRetained(p.accepted) + PrintsOfDiagnostics(p.diagnostics)
    ensures PrintsOfDuplicates(p.accepted) <= PrintsOfDiagnostics(p.diagnostics)
  {
    hide Group, Rejections, AllDuplicates, RetainAll, PrintsOfDiagnostics, PrintsOfRetained, PrintsOfDuplicates,
         PrintsOfBatch, Grouped, StringLe;
    var ids :| ConstructedFrom(c, batch, ids, p);
    Accounting(c, batch, ids);
    DiagnosticsConcat(Rejections(c, batch), AllDuplicates(c, batch, ids));
    DiagnosticsConcat(Rejections(c, batch) + AllDuplicates(c, batch, ids), OmissionsOf(p.omissions));
    OmissionPrints(p.omissions);
  }

  lemma {:induction false} RejectionsConcat(c: Context, a: seq<Candidate>, b: seq<Candidate>)
    ensures Rejections(c, a + b) == Rejections(c, a) + Rejections(c, b)
  {
    hide Judge;
    if b == [] {
      assert a + b == a;
    } else {
      var n := |b| - 1;
      assert (a + b)[..|a| + n] == a + b[..n];
      RejectionsConcat(c, a, b[..n]);
    }
  }

  /** Permuting a batch permutes its rejections. */
  lemma {:induction false} RejectionsPermute(c: Context, a: seq<Candidate>, b: seq<Candidate>)
    requires multiset(a) == multiset(b)
    ensures multiset(Rejections(c, a)) == multiset(Rejections(c, b))
  {
    hide Rejections;
    if a == [] {
      EmptyMatch(b);
    } else {
      var k := DropMatching(a, b);
      RejectionsPermute(c, a[1..], b[..k] + b[k + 1..]);
      RejectionsConcat(c, [a[0]], a[1..]);
      RejectionsConcat(c, b[..k], b[k + 1..]);
      RejectionsConcat(c, b[..k] + [b[k]], b[k + 1..]);
      RejectionsConcat(c, b[..k], [b[k]]);
      assert a == [a[0]] + a[1..] && b == b[..k] + [b[k]] + b[k + 1..];
    }
  }

  /**
   * Two runs on permuted batches: the same accepted propositions, the same omissions, and the same diagnostics up to
   * their order.
   */
  lemma PermutedRuns(c: Context, a: seq<Candidate>, b: seq<Candidate>, p: Proposed, q: Proposed)
    requires Injective(c) && multiset(a) == multiset(b)
    requires Constructs(c, a, p) && Constructs(c, b, q)
    ensures p.accepted == q.accepted && p.omissions == q.omissions
    ensures multiset(p.diagnostics) == multiset(q.diagnostics)
  {
    hide Group, Rejections, AllDuplicates, RetainAll, Grouped, StringLe, Ids, StrictlySorted;
    var ids :| ConstructedFrom(c, a, ids, p);
    var others :| ConstructedFrom(c, b, others, q);
    StringOrder();
    SameIds(c, a, b);
    StrictlySortedUnique(ids, others, StringLe);
    BatchOrderIrrelevant(c, a, b, ids);
    StrictlySortedUnique(p.omissions, q.omissions, StringLe);
    RejectionsPermute(c, a, b);
  }

  // ---- What becomes of one candidate ----

  /** The proposition a raw candidate stands for: it passes the gate, and its normal form has this identity. */
  ghost predicate Proposes(c: Context, x: Candidate, id: string) {
    c.gate(x).None? && c.proposition(Normalise(c, x)) == Ok(id)
  }

  ghost predicate Fails(c: Context, x: Candidate, code: string) {
    c.gate(x) == Some(code) || (c.gate(x).None? && c.proposition(Normalise(c, x)) == Err(code))
  }

  /** The retained proposition that has this identity and accounts for this fingerprint. */
  ghost predicate Holds(r: Retained, id: string, fingerprint: string) {
    r.representative.proposition == id && (r.representative.fingerprint == fingerprint || fingerprint in r.duplicates)
  }

  /** x is the raw candidate behind a retained representative. */
  ghost predicate Represented(c: Context, x: Candidate, i: Item) {
    && c.gate(x).None? && i.fingerprint == c.fingerprint(x) && c.proposition(i.candidate) == Ok(i.proposition)
    && SameContent(c, x, i.candidate) && InNormalForm(c, i.candidate)
  }

  lemma RetainHolds(group: seq<Item>, i: Item)
    requires i in group && forall j :: j in group ==> j.proposition == i.proposition
    ensures Holds(Retain(group), i.proposition, i.fingerprint)
  {
    hide Sort, PrintLe;
    var s := Sort(group, PrintLe);
    SortMembers(group, PrintLe);
    assert s[0] in group;
    var k :| 0 <= k < |s| && s[k] == i;
    if k > 0 { assert PrintsOf(s[1..])[k - 1] == i.fingerprint; }
  }

  lemma {:induction false} RejectionListed(c: Context, batch: seq<Candidate>, x: Candidate)
    requires x in batch && Judge(c, x).Err?
    ensures Rejected(Judge(c, x).error, c.fingerprint(x), x.family) in Rejections(c, batch)
  {
    hide Judge;
    var n := |batch| - 1;
    assert batch == batch[..n] + [batch[n]];
    if x != batch[n] { RejectionListed(c, batch[..n], x); }
  }

  /** Each candidate of the batch is held by the retained proposition it stands for, or rejected with its code. */
  lemma CandidateEnds(c: Context, batch: seq<Candidate>, p: Proposed, x: Candidate)
    requires Constructs(c, batch, p) && x in batch
    ensures forall id :: Proposes(c, x, id) ==> exists r :: r in p.accepted && Holds(r, id, c.fingerprint(x))
    ensures forall code :: Fails(c, x, code) ==> Rejected(code, c.fingerprint(x), x.family) in p.diagnostics
  {
    hide Group, Rejections, AllDuplicates, RetainAll, Grouped, StringLe, Normalise, Retain, StrictlySorted;
    var ids :| ConstructedFrom(c, batch, ids, p);
    if Judge(c, x).Err? {
      RejectionListed(c, batch, x);
    } else {
      var item := Judge(c, x).value;
      var id := item.proposition;
      assert id in Ids(c, batch);
      var k :| 0 <= k < |ids| && ids[k] == id;
      RetainedAt(c, batch, ids, k);
      GroupMembers(c, batch, id);
      assert Comes(c, batch, item);
      RetainHolds(Group(c, batch, id), item);
      assert p.accepted[k] in p.accepted;
    }
  }

  /** What is retained: distinct propositions in order, each a normal form of a candidate of the batch. */
  lemma RetainedDescribed(c: Context, batch: seq<Candidate>, p: Proposed)
    requires Constructs(c, batch, p)
    ensures forall i, j :: 0 <= i < j < |p.accepted| ==>
      var a, b := p.accepted[i].representative.proposition, p.accepted[j].representative.proposition;
      StringLe(a, b) && a != b
    ensures forall r :: r in p.accepted ==> exists x :: x in batch && Represented(c, x, r.representative)
  {
    hide Group, Rejections, AllDuplicates, RetainAll, Grouped, StringLe, Normalise, Retain, SameContent, InNormalForm;
    var ids :| ConstructedFrom(c, batch, ids, p);
    RetainedAre(c, batch, ids);
    forall r | r in p.accepted ensures exists x :: x in batch && Represented(c, x, r.representative) {
      var k :| 0 <= k < |p.accepted| && p.accepted[k] == r;
      GroupMembers(c, batch, ids[k]);
      assert Represents(r.representative, Group(c, batch, ids[k]), ids[k]);
      var x :| x in batch && Judge(c, x) == Ok(r.representative);
      NormaliseKeeps(c, x);
    }
  }

  /**
   * Candidates of the batch that pass the gate and have the same content end alike: one retained proposition holds
   * both, or both are rejected with one code.
   */
  lemma SameContentSharesProposition(c: Context, batch: seq<Candidate>, p: Proposed, x: Candidate, y: Candidate)
    requires Constructs(c, batch, p) && x in batch && y in batch && c.gate(x).None? && c.gate(y).None?
    requires NamesOnce(x.slots) && NamesOnce(y.slots) && SameContent(c, x, y)
    ensures (exists r, id :: r in p.accepted && Holds(r, id, c.fingerprint(x)) && Holds(r, id, c.fingerprint(y)))
      || exists code :: Rejected(code, c.fingerprint(x), x.family) in p.diagnostics
           && Rejected(code, c.fingerprint(y), y.family) in p.diagnostics
  {
    hide Normalise, SameContent, Constructs;
    CandidateEnds(c, batch, p, x);
    CandidateEnds(c, batch, p, y);
    NormaliseByContent(c, x, y);
    match c.proposition(Normalise(c, x)) {
      case Err(code) =>
        assert Fails(c, x, code) && Fails(c, y, code);
      case Ok(id) =>
        assert Proposes(c, x, id) && Proposes(c, y, id);
        var r :| r in p.accepted && Holds(r, id, c.fingerprint(x));
        var s :| s in p.accepted && Holds(s, id, c.fingerprint(y));
        RetainedDescribed(c, batch, p);
    }
  }

  // ---- What the diagnostics say ----

  lemma {:induction false} RejectionMeans(c: Context, batch: seq<Candidate>, d: Diagnostic)
    requires d in Rejections(c, batch)
    ensures d.Rejected? && exists x :: x in batch && Fails(c, x, d.code) && Tells(c, d, x)
  {
    hide Normalise;
    var n := |batch| - 1;
    assert batch == batch[..n] + [batch[n]];
    if d in Rejections(c, batch[..n]) { RejectionMeans(c, batch[..n], d); } else { assert Tells(c, d, batch[n]); }
  }

  /** d is about the raw candidate x. */
  ghost predicate Tells(c: Context, d: Diagnostic, x: Candidate) {
    !d.Omitted? && d.fingerprint == c.fingerprint(x) && d.family == x.family
  }

  lemma {:induction false} DuplicateFrom(c: Context, batch: seq<Candidate>, ids: seq<string>, d: Diagnostic)
    returns (id: string)
    requires Grouped(c, batch, ids) && d in AllDuplicates(c, batch, ids)
    ensures id in ids && IsDuplicate(c, batch, id, d)
  {
    hide IsDuplicate, Grouped;
    var n := |ids| - 1;
    GroupedPrefix(c, batch, ids, n);
    DuplicateLast(c, batch, ids, n, d);
    if d in AllDuplicates(c, batch, ids[..n]) { id := DuplicateFrom(c, batch, ids[..n], d); } else { id := ids[n]; }
  }

  lemma {:induction false} DuplicateListed(c: Context, batch: seq<Candidate>, ids: seq<string>, id: string,
                                           d: Diagnostic)
    requires Grouped(c, batch, ids) && id in ids && IsDuplicate(c, batch, id, d)
    ensures d in AllDuplicates(c, batch, ids)
  {
    hide IsDuplicate, Grouped, AllDuplicates;
    var n := |ids| - 1;
    GroupedPrefix(c, batch, ids, n);
    DuplicateLast(c, batch, ids, n, d);
    assert ids == ids[..n] + [ids[n]];
    if id in ids[..n] { DuplicateListed(c, batch, ids[..n], id, d); }
  }

  lemma DuplicateLast(c: Context, batch: seq<Candidate>, ids: seq<string>, n: nat, d: Diagnostic)
    requires |ids| == n + 1 && Group(c, batch, ids[n]) != []
    ensures d in AllDuplicates(c, batch, ids)
      <==> d in AllDuplicates(c, batch, ids[..n]) || IsDuplicate(c, batch, ids[n], d)
  {
    hide Group, Sort, AllDuplicates, PrintLe, DuplicatesOf;
    LastDuplicates(c, batch, ids, n);
  }

  ghost predicate IsDuplicate(c: Context, batch: seq<Candidate>, id: string, d: Diagnostic) {
    var group := Sort(Group(c, batch, id), PrintLe);
    group != [] && d in DuplicatesOf(group[1..], id)
  }

  /** A duplicate diagnostic tells of a candidate of the batch that stands for the proposition it names. */
  ghost predicate DuplicateTells(c: Context, batch: seq<Candidate>, p: Proposed, d: Diagnostic) {
    && d.Duplicate?
    && (exists x :: x in batch && Proposes(c, x, d.of) && Tells(c, d, x))
    && exists r :: r in p.accepted && r.representative.proposition == d.of && d.fingerprint in r.duplicates
  }

  lemma DuplicateMeans(c: Context, batch: seq<Candidate>, p: Proposed, ids: seq<string>, id: string, d: Diagnostic)
    requires ConstructedFrom(c, batch, ids, p) && id in ids && IsDuplicate(c, batch, id, d)
    ensures DuplicateTells(c, batch, p, d) && d.Duplicate?
  {
    hide Group, Sort, PrintLe, Normalise, Rejections, AllDuplicates, Grouped, StringLe, RetainAll;
    var group := Sort(Group(c, batch, id), PrintLe);
    SortMembers(Group(c, batch, id), PrintLe);
    var j :| 0 <= j < |group| - 1 && DuplicatesOf(group[1..], id)[j] == d;
    var i := group[1..][j];
    assert i == group[j + 1] && i in group && group[0] in group;
    GroupMembers(c, batch, id);
    var x :| x in batch && Judge(c, x) == Ok(i);
    NormalFamily(c, x);
    assert Proposes(c, x, d.of) && Tells(c, d, x);
    var k :| 0 <= k < |ids| && ids[k] == id;
    RetainedAt(c, batch, ids, k);
    assert PrintsOf(group[1..])[j] == d.fingerprint && p.accepted[k] in p.accepted;
  }

  lemma NormalFamily(c: Context, x: Candidate)
    ensures Normalise(c, x).family == x.family
  {}

  lemma DuplicateReported(c: Context, batch: seq<Candidate>, p: Proposed, ids: seq<string>, r: Retained, f: string)
    requires ConstructedFrom(c, batch, ids, p) && r in p.accepted && f in r.duplicates
    ensures exists family :: Duplicate(f, family, r.representative.proposition) in AllDuplicates(c, batch, ids)
  {
    hide Group, Sort, PrintLe, Rejections, AllDuplicates, Grouped, StringLe, RetainAll, Comes;
    RetainedAre(c, batch, ids);
    var k :| 0 <= k < |p.accepted| && p.accepted[k] == r;
    RetainedAt(c, batch, ids, k);
    assert Represents(r.representative, Group(c, batch, ids[k]), ids[k]);
    var group := Sort(Group(c, batch, ids[k]), PrintLe);
    var j :| 0 <= j < |r.duplicates| && r.duplicates[j] == f;
    var d := DuplicatesOf(group[1..], ids[k])[j];
    assert IsDuplicate(c, batch, ids[k], d) && ids[k] in ids;
    DuplicateListed(c, batch, ids, ids[k], d);
  }

  /** What the diagnostics say, kind by kind; with CandidateEnds, a rejection is recorded exactly when there is one. */
  lemma DiagnosticsMean(c: Context, batch: seq<Candidate>, p: Proposed)
    requires Constructs(c, batch, p)
    ensures forall d :: d in p.diagnostics && d.Rejected? ==>
      exists x :: x in batch && Fails(c, x, d.code) && Tells(c, d, x)
    ensures forall d :: d in p.diagnostics && d.Duplicate? ==> DuplicateTells(c, batch, p, d)
    ensures forall r, f :: r in p.accepted && f in r.duplicates ==>
      exists family :: Duplicate(f, family, r.representative.proposition) in p.diagnostics
    ensures forall f :: Omitted(f) in p.diagnostics <==>
      f in c.requested && forall r :: r in p.accepted ==> r.representative.candidate.family != f
  {
    hide Group, Rejections, AllDuplicates, RetainAll, Grouped, StringLe, Normalise, IsDuplicate, DuplicateTells, Fails,
         StrictlySorted;
    var ids :| ConstructedFrom(c, batch, ids, p);
    var rejected, duplicates := Rejections(c, batch), AllDuplicates(c, batch, ids);
    forall d | d in p.diagnostics
      ensures d.Rejected? ==> exists x :: x in batch && Fails(c, x, d.code) && Tells(c, d, x)
      ensures d.Duplicate? ==> DuplicateTells(c, batch, p, d)
      ensures d.Omitted? ==> d.family in p.omissions
    {
      if d in rejected {
        RejectionMeans(c, batch, d);
      } else if d in duplicates {
        var id := DuplicateFrom(c, batch, ids, d);
        DuplicateMeans(c, batch, p, ids, id, d);
      } else {
        assert d in OmissionsOf(p.omissions);
      }
    }
    forall r, f | r in p.accepted && f in r.duplicates
      ensures exists family :: Duplicate(f, family, r.representative.proposition) in p.diagnostics
    {
      DuplicateReported(c, batch, p, ids, r, f);
    }
    forall f | f in p.omissions ensures Omitted(f) in p.diagnostics {
      var k :| 0 <= k < |p.omissions| && p.omissions[k] == f;
      assert OmissionsOf(p.omissions)[k] in p.diagnostics;
    }
  }
}
