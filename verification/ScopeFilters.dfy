/** Canonical scope filters: sorted by a display key, deduplicated by value, and recorded for evidence. */
module ScopeFilters {
  import opened Common
  import opened Ordering

  /** A filter with its value's type name and display text. */
  datatype Filter = Filter(field: string, operator: string, kind: string, text: string)

  /** What two filters share when the source calls them duplicates: the value counts, not its display. */
  datatype FilterKey = FilterKey(field: string, operator: string, kind: string, value: string)

  /** Negative zero is the one float that displays differently from an equal float. */
  function KeyOf(f: Filter): FilterKey {
    FilterKey(f.field, f.operator, f.kind, if f.kind == "float" && f.text == "-0.0" then "0.0" else f.text)
  }

  /** Both are of one field, operator and type, with one text, or both a float zero. */
  predicate SameFilter(f: Filter, g: Filter) {
    && f.field == g.field && f.operator == g.operator && f.kind == g.kind
    && (f.text == g.text || (f.kind == "float" && FloatZero(f.text) && FloatZero(g.text)))
  }

  predicate FloatZero(text: string) {
    text == "0.0" || text == "-0.0"
  }

  /** Keys agree exactly for filters that are the same. */
  lemma KeysMean(f: Filter, g: Filter)
    ensures KeyOf(f) == KeyOf(g) <==> SameFilter(f, g)
  {}

  /** (field, operator, type name, display text), compared in that order. */
  predicate FilterLe(f: Filter, g: Filter) {
    if f.field != g.field then StringLe(f.field, g.field)
    else if f.operator != g.operator then StringLe(f.operator, g.operator)
    else if f.kind != g.kind then StringLe(f.kind, g.kind)
    else StringLe(f.text, g.text)
  }

  function Parts(f: Filter): seq<string> {
    [f.field, f.operator, f.kind, f.text]
  }

  /** The first part in which two filters differ decides their order. */
  lemma FirstDifference(f: Filter, g: Filter, k: nat)
    requires k < 4 && Parts(f)[..k] == Parts(g)[..k] && Parts(f)[k] != Parts(g)[k]
    ensures FilterLe(f, g) <==> StringLe(Parts(f)[k], Parts(g)[k])
  {
    hide StringLe;
    assert k > 0 ==> Parts(f)[..k][0] == Parts(g)[..k][0];
    assert k > 1 ==> Parts(f)[..k][1] == Parts(g)[..k][1];
    assert k > 2 ==> Parts(f)[..k][2] == Parts(g)[..k][2];
  }

  lemma FilterOrder()
    ensures Order(FilterLe)
  {
    hide StringLe;
    StringOrder();
    forall x, y ensures FilterLe(x, y) || FilterLe(y, x) {}
    forall x, y, z | FilterLe(x, y) && FilterLe(y, z) ensures FilterLe(x, z) {}
    forall x, y | FilterLe(x, y) && FilterLe(y, x) ensures x == y {}
  }

  ghost predicate HasKey(s: seq<Filter>, k: FilterKey) {
    exists g :: g in s && KeyOf(g) == k
  }

  /** The first filter of each key. */
  ghost function FirstOfKey(s: seq<Filter>): seq<Filter> {
    if s == [] then []
    else
      var n := |s| - 1;
      FirstOfKey(s[..n]) + if HasKey(s[..n], KeyOf(s[n])) then [] else [s[n]]
  }

  ghost function Canonical(filters: seq<Filter>): seq<Filter> {
    FirstOfKey(Sort(filters, FilterLe))
  }

  /** f precedes every filter of s that is the same. */
  ghost predicate Least(f: Filter, s: seq<Filter>) {
    f in s && forall g :: g in s && SameFilter(g, f) ==> FilterLe(f, g)
  }

  ghost predicate LeastOfKey(f: Filter, s: seq<Filter>) {
    f in s && forall g :: g in s && KeyOf(g) == KeyOf(f) ==> FilterLe(f, g)
  }

  lemma LeastByKey(f: Filter, s: seq<Filter>)
    ensures Least(f, s) <==> LeastOfKey(f, s)
  {
    forall g ensures KeyOf(g) == KeyOf(f) <==> SameFilter(g, f) { KeysMean(g, f); }
    hide FilterLe, KeyOf, SameFilter;
  }

  // ---- _canonical_filters ----

  /** The dictionary deduplicated keeps insertion order; setdefault keeps the first filter of a key. */
  method CanonicalFilters(filters: seq<Filter>) returns (r: seq<Filter>)
    ensures r == Canonical(filters)
  {
    hide FilterLe, KeyOf;
    var canonical := Sort(filters, FilterLe);
    var keys: set<FilterKey> := {};
    r := [];
    for i := 0 to |canonical|
      invariant r == FirstOfKey(canonical[..i])
      invariant forall k :: k in keys <==> HasKey(canonical[..i], k)
    {
      ghost var done := canonical[..i + 1];
      assert done[..i] == canonical[..i] && done == canonical[..i] + [canonical[i]];
      assert FirstOfKey(done[..i]) + [] == FirstOfKey(done[..i]);
      var key := KeyOf(canonical[i]);
      if key !in keys {
        keys := keys + {key};
        r := r + [canonical[i]];
      }
      forall k ensures k in keys <==> HasKey(done, k) { KeyAdded(canonical[..i], canonical[i], k); }
    }
    assert canonical[..|canonical|] == canonical;
  }

  lemma KeyAdded(s: seq<Filter>, f: Filter, k: FilterKey)
    ensures HasKey(s + [f], k) <==> HasKey(s, k) || KeyOf(f) == k
  {
    hide KeyOf;
    assert f in s + [f];
    if HasKey(s, k) {
      var g :| g in s && KeyOf(g) == k;
      assert g in s + [f];
    }
  }

  // ---- What the canonical form is ----

  /** Keeping first occurrences of a sorted list keeps exactly the least filter of each key. */
  lemma {:induction false} FirstIsLeast(s: seq<Filter>)
    requires Sorted(s, FilterLe)
    ensures forall f :: f in FirstOfKey(s) <==> LeastOfKey(f, s)
    ensures StrictlySorted(FirstOfKey(s), FilterLe)
    ensures forall f, g :: f in FirstOfKey(s) && g in FirstOfKey(s) && KeyOf(f) == KeyOf(g) ==> f == g
  {
    FilterOrder();
    hide FilterLe, KeyOf;
    if s != [] {
      var n := |s| - 1;
      var prefix, last := s[..n], s[n];
      assert s == prefix + [last];
      hide Order;
      FirstIsLeast(prefix);
      forall g | g in prefix ensures FilterLe(g, last) {
        var i :| 0 <= i < n && prefix[i] == g;
        assert s[i] == g;
      }
      assert FilterLe(last, last) by { FilterReflexive(last); }
      forall f ensures f in FirstOfKey(s) <==> LeastOfKey(f, s) { LastFilter(prefix, last, f); }
      KeepsSorted(prefix, last);
    }
  }

  lemma FilterReflexive(f: Filter)
    ensures FilterLe(f, f)
  {
    FilterOrder();
    hide FilterLe;
  }

  /** Keeping or dropping the last filter leaves the list sorted with one filter per key. */
  lemma KeepsSorted(prefix: seq<Filter>, last: Filter)
    requires forall f :: f in FirstOfKey(prefix) <==> LeastOfKey(f, prefix)
    requires StrictlySorted(FirstOfKey(prefix), FilterLe)
    requires forall f, g :: f in FirstOfKey(prefix) && g in FirstOfKey(prefix) && KeyOf(f) == KeyOf(g) ==> f == g
    requires forall g :: g in prefix ==> FilterLe(g, last)
    ensures var kept := FirstOfKey(prefix + [last]);
      StrictlySorted(kept, FilterLe) && forall f, g :: f in kept && g in kept && KeyOf(f) == KeyOf(g) ==> f == g
  {
    hide FilterLe, KeyOf;
    var kept := FirstOfKey(prefix);
    assert (prefix + [last])[..|prefix|] == prefix;
    forall f | f in kept && !HasKey(prefix, KeyOf(last)) ensures FilterLe(f, last) && KeyOf(f) != KeyOf(last) {
      assert LeastOfKey(f, prefix);
    }
    assert kept + [] == kept;
  }

  lemma LastFilter(prefix: seq<Filter>, last: Filter, f: Filter)
    requires forall g :: g in prefix ==> FilterLe(g, last)
    requires FilterLe(last, last)
    requires f in FirstOfKey(prefix) <==> LeastOfKey(f, prefix)
    ensures Order(FilterLe)
    ensures f in FirstOfKey(prefix + [last]) <==> LeastOfKey(f, prefix + [last])
  {
    FilterOrder();
    hide FilterLe, KeyOf;
    var s := prefix + [last];
    assert s[..|s| - 1] == prefix && s[|s| - 1] == last;
    assert f in FirstOfKey(s) <==> f in FirstOfKey(prefix) || (f == last && !HasKey(prefix, KeyOf(last)));
    if f in prefix {
      assert LeastOfKey(f, prefix) <==> LeastOfKey(f, s);
      if f == last && LeastOfKey(f, s) { assert HasKey(prefix, KeyOf(last)); }
    } else if f == last {
      if HasKey(prefix, KeyOf(last)) {
        var g :| g in prefix && KeyOf(g) == KeyOf(last);
        assert FilterLe(g, last) && g in s;
      }
    }
  }

  /** The canonical form: strictly sorted, no filter twice, and exactly the least of the filters that are the same. */
  lemma CanonicalIs(filters: seq<Filter>)
    ensures StrictlySorted(Canonical(filters), FilterLe)
    ensures forall f :: f in Canonical(filters) <==> Least(f, filters)
    ensures forall f, g :: f in Canonical(filters) && g in Canonical(filters) && SameFilter(f, g) ==> f == g
  {
    FilterOrder();
    hide FilterLe, KeyOf;
    SortSorted(filters, FilterLe);
    SortMembers(filters, FilterLe);
    FirstIsLeast(Sort(filters, FilterLe));
    forall f ensures LeastOfKey(f, Sort(filters, FilterLe)) <==> Least(f, filters) { LeastByKey(f, filters); }
    forall f, g ensures SameFilter(f, g) <==> KeyOf(f) == KeyOf(g) { KeysMean(f, g); }
  }

  /** Every filter has a canonical filter of its key. */
  lemma {:induction false} KeyKept(s: seq<Filter>, f: Filter)
    requires f in s
    ensures HasKey(FirstOfKey(s), KeyOf(f))
  {
    hide KeyOf;
    var n := |s| - 1;
    var prefix := s[..n];
    assert s == prefix + [s[n]];
    var kept := FirstOfKey(prefix);
    if f in prefix {
      KeyKept(prefix, f);
      var g :| g in kept && KeyOf(g) == KeyOf(f);
      assert g in FirstOfKey(s);
    } else if HasKey(prefix, KeyOf(f)) {
      var h :| h in prefix && KeyOf(h) == KeyOf(f);
      KeyKept(prefix, h);
      var g :| g in kept && KeyOf(g) == KeyOf(f);
      assert g in FirstOfKey(s);
    } else {
      assert f in FirstOfKey(s);
    }
  }

  /** The canonical form depends only on which filters there are, not on their order or repetition. */
  lemma OrderIrrelevant(a: seq<Filter>, b: seq<Filter>)
    requires forall f :: f in a <==> f in b
    ensures Canonical(a) == Canonical(b)
  {
    FilterOrder();
    hide FilterLe, KeyOf, Canonical;
    CanonicalIs(a);
    CanonicalIs(b);
    forall f ensures Least(f, a) <==> Least(f, b) {}
    StrictlySortedUnique(Canonical(a), Canonical(b), FilterLe);
  }

  /** Canonicalising twice changes nothing. */
  lemma Idempotent(filters: seq<Filter>)
    ensures Canonical(Canonical(filters)) == Canonical(filters)
  {
    FilterOrder();
    CanonicalIs(filters);
    SubCanonical(Canonical(filters));
  }

  /** A strictly sorted list without two filters of one key is its own canonical form. */
  lemma SubCanonical(s: seq<Filter>)
    requires StrictlySorted(s, FilterLe)
    requires forall f, g :: f in s && g in s && SameFilter(f, g) ==> f == g
    ensures Canonical(s) == s
  {
    FilterOrder();
    hide FilterLe, SameFilter, Canonical;
    CanonicalIs(s);
    forall f ensures Least(f, s) <==> f in s {}
    StrictlySortedUnique(Canonical(s), s, FilterLe);
  }

  /** A row meets the filters; which it meets may not depend on how a float zero is displayed. */
  ghost predicate RowMeets(filters: seq<Filter>, meets: Filter -> bool) {
    forall f :: f in filters ==> meets(f)
  }

  ghost predicate Alike(meets: Filter -> bool) {
    forall f, g :: SameFilter(f, g) ==> meets(f) == meets(g)
  }

  /** Every filter is the same as a canonical one. */
  lemma EachKept(filters: seq<Filter>, f: Filter)
    requires f in filters
    ensures exists g :: g in Canonical(filters) && SameFilter(g, f)
  {
    hide FilterLe, SameFilter;
    SortMembers(filters, FilterLe);
    KeyKept(Sort(filters, FilterLe), f);
    var g :| g in Canonical(filters) && KeyOf(g) == KeyOf(f);
    KeysMean(g, f);
  }

  /** The canonical conjunction selects the same rows as the original one. */
  lemma SameRows(filters: seq<Filter>, meets: Filter -> bool)
    requires Alike(meets)
    ensures RowMeets(Canonical(filters), meets) <==> RowMeets(filters, meets)
  {
    hide SameFilter, FilterLe, Canonical;
    CanonicalIs(filters);
    forall f | f in filters && RowMeets(Canonical(filters), meets) ensures meets(f) {
      EachKept(filters, f);
      var g :| g in Canonical(filters) && SameFilter(g, f);
      assert meets(g) == meets(f);
    }
  }

  // ---- The currency basis ----

  function OfField(filters: seq<Filter>, field: string): seq<Filter> {
    if filters == [] then []
    else
      var n := |filters| - 1;
      OfField(filters[..n], field) + if filters[n].field == field then [filters[n]] else []
  }

  lemma {:induction false} OfFieldSorted(filters: seq<Filter>, field: string)
    requires StrictlySorted(filters, FilterLe)
    ensures StrictlySorted(OfField(filters, field), FilterLe)
    ensures forall f :: f in OfField(filters, field) <==> f in filters && f.field == field
  {
    hide FilterLe;
    if filters != [] {
      var n := |filters| - 1;
      var prefix := filters[..n];
      assert filters == prefix + [filters[n]];
      OfFieldSorted(prefix, field);
      forall g | g in prefix ensures FilterLe(g, filters[n]) && g != filters[n] {
        var i :| 0 <= i < n && prefix[i] == g;
        assert filters[i] == g;
      }
    }
  }

  /** Canonicalising the currency filters of canonical filters again, as the source does, changes nothing. */
  lemma CurrencyFiltersCanonical(filters: seq<Filter>)
    ensures Canonical(OfField(Canonical(filters), "currency")) == OfField(Canonical(filters), "currency")
  {
    hide FilterLe, SameFilter, Canonical;
    CanonicalIs(filters);
    OfFieldSorted(Canonical(filters), "currency");
    SubCanonical(OfField(Canonical(filters), "currency"));
  }

  // ---- Recorded filters against the evidence check ----

  datatype RecordError = ScopeMismatch

  ghost function Concatenate(populations: seq<seq<Filter>>): seq<Filter> {
    if populations == [] then [] else Concatenate(populations[..|populations| - 1]) + populations[|populations| - 1]
  }

  /**
   * Python's equality of two values: texts by their characters, and numbers of any type, booleans included, by what
   * they denote.
   */
  ghost predicate SameValue<V>(f: Filter, g: Filter, number: (string, string) -> V) {
    if f.kind == "str" || g.kind == "str" then f.kind == g.kind && f.text == g.text
    else number(f.kind, f.text) == number(g.kind, g.text)
  }

  ghost predicate SamePayload<V>(f: Filter, g: Filter, number: (string, string) -> V) {
    f.field == g.field && f.operator == g.operator && SameValue(f, g, number)
  }

  /** Equality of two payload lists, place by place. */
  ghost predicate SamePayloads<V>(a: seq<Filter>, b: seq<Filter>, number: (string, string) -> V) {
    |a| == |b| && forall i :: 0 <= i < |a| ==> SamePayload(a[i], b[i], number)
  }

  /** _execution_record_scope_filters, given the scope filters of the node's populations. */
  ghost function RecordedFilters<V>(isRevenueChange: bool, populations: seq<seq<Filter>>, completed: bool,
                                        number: (string, string) -> V): Result<seq<Filter>, RecordError> {
    if !isRevenueChange || |populations| != 2 then Ok(Concatenate(populations))
    else if SamePayloads(Canonical(populations[0]), Canonical(populations[1]), number)
      then Ok(Canonical(populations[0]))
    else if completed then Err(ScopeMismatch)
    else Ok([])
  }

  /**
   * A node's populations: one, or for Revenue Change a baseline and a comparison, all with the request's canonical
   * scope.
   */
  ghost predicate GovernedPopulations(isRevenueChange: bool, populations: seq<seq<Filter>>, request: seq<Filter>) {
    && |populations| == (if isRevenueChange then 2 else 1)
    && forall p :: p in populations ==> p == Canonical(request)
  }

  /**
   * The filters recorded for a node are the ones the evidence check recomputes from any arrangement of the request's
   * filters.
   */
  lemma RecordedMatchesEvidence<V>(isRevenueChange: bool, populations: seq<seq<Filter>>, completed: bool,
                                   request: seq<Filter>,
                                   rearranged: seq<Filter>, number: (string, string) -> V)
    requires GovernedPopulations(isRevenueChange, populations, request)
    requires forall f :: f in request <==> f in rearranged
    ensures RecordedFilters(isRevenueChange, populations, completed, number) == Ok(Canonical(rearranged))
  {
    hide Canonical;
    OrderIrrelevant(request, rearranged);
    assert populations[0] in populations;
    if isRevenueChange {
      assert populations[1] in populations;
      Idempotent(request);
    } else {
      assert populations == [populations[0]] && populations[..0] == [];
      assert Concatenate([]) == [] && [] + populations[0] == populations[0];
    }
  }

  /** Two populations of a completed Revenue Change whose filters do not match. */
  ghost predicate Refused<V>(a: seq<Filter>, b: seq<Filter>, number: (string, string) -> V) {
    RecordedFilters(true, [a, b], true, number).Err?
  }

  /** No two different filters of the list compare equal, as 1 and True do. */
  ghost predicate Distinguishes<V>(filters: seq<Filter>, number: (string, string) -> V) {
    forall f, g :: f in filters && g in filters && SamePayload(f, g, number) ==> f == g
  }

  /**
   * A completed Revenue Change is refused only if its populations have different canonical filters, and then always,
   * unless different filters compare equal.
   */
  lemma MismatchRefused<V>(a: seq<Filter>, b: seq<Filter>, number: (string, string) -> V)
    ensures Refused(a, b, number) ==> exists f :: Least(f, a) != Least(f, b)
    ensures Distinguishes(a + b, number) ==> (Refused(a, b, number) <==> exists f :: Least(f, a) != Least(f, b))
    ensures Refused(a, b, number) ==> RecordedFilters(true, [a, b], false, number) == Ok([])
    ensures !Refused(a, b, number) ==>
      forall completed :: RecordedFilters(true, [a, b], completed, number) == Ok(Canonical(a))
  {
    hide Canonical, FilterLe, KeyOf, SamePayload;
    FilterOrder();
    CanonicalIs(a);
    CanonicalIs(b);
    if forall f :: Least(f, a) == Least(f, b) {
      StrictlySortedUnique(Canonical(a), Canonical(b), FilterLe);
      forall i | 0 <= i < |Canonical(a)| ensures SamePayload(Canonical(a)[i], Canonical(b)[i], number) {
        PayloadReflexive(Canonical(a)[i], number);
      }
    }
    if Distinguishes(a + b, number) && SamePayloads(Canonical(a), Canonical(b), number) {
      SamePlaces(a, b, number);
      forall f ensures Least(f, a) == Least(f, b) {
        assert f in Canonical(a) <==> Least(f, a);
      }
    }
  }

  /** A text is equal to nothing but itself, a number of the same spelling included. */
  lemma TextOnlyItself<V>(f: Filter, g: Filter, number: (string, string) -> V)
    requires SamePayload(f, g, number) && (f.kind == "str" || g.kind == "str")
    ensures f == g
  {}

  lemma PayloadReflexive<V>(f: Filter, number: (string, string) -> V)
    ensures SamePayload(f, f, number)
  {}

  lemma SamePlaces<V>(a: seq<Filter>, b: seq<Filter>, number: (string, string) -> V)
    requires Distinguishes(a + b, number) && SamePayloads(Canonical(a), Canonical(b), number)
    ensures Canonical(a) == Canonical(b)
  {
    hide Canonical, FilterLe, KeyOf, SamePayload;
    CanonicalIs(a);
    CanonicalIs(b);
    forall i | 0 <= i < |Canonical(a)| ensures Canonical(a)[i] == Canonical(b)[i] {
      var f, g := Canonical(a)[i], Canonical(b)[i];
      assert Least(f, a) && Least(g, b);
      assert f in a + b && g in a + b;
    }
  }

  /** A condition that equal values meet alike. */
  ghost predicate ByValue<V>(meets: Filter -> bool, number: (string, string) -> V) {
    forall f, g :: SamePayload(f, g, number) ==> meets(f) == meets(g)
  }

  /** Populations that are not refused select the same rows, when float zeros are one number. */
  lemma AcceptedSelectAlike<V>(a: seq<Filter>, b: seq<Filter>, number: (string, string) -> V, meets: Filter -> bool)
    requires !Refused(a, b, number) && ByValue(meets, number)
    requires number("float", "0.0") == number("float", "-0.0")
    ensures RowMeets(a, meets) <==> RowMeets(b, meets)
  {
    forall f, g | SameFilter(f, g) ensures meets(f) == meets(g) { assert SamePayload(f, g, number); }
    hide Canonical, SameFilter, SamePayload;
    SameRows(a, meets);
    SameRows(b, meets);
    var c, d := Canonical(a), Canonical(b);
    forall i | 0 <= i < |c| ensures c[i] in c && d[i] in d && meets(c[i]) == meets(d[i]) {
      assert SamePayload(c[i], d[i], number);
    }
  }

  /** Different filters that are not refused: the number one and the truth value, which compare equal. */
  lemma EqualNumbersAccepted<V>(number: (string, string) -> V)
    requires number("int", "1") == number("bool", "True")
    ensures var one, truth := Filter("order_id", "equals", "int", "1"), Filter("order_id", "equals", "bool", "True");
      !Refused([one], [truth], number) && Canonical([one]) != Canonical([truth])
  {
    hide FilterLe, KeyOf, Canonical;
    SingleCanonical(Filter("order_id", "equals", "int", "1"));
    SingleCanonical(Filter("order_id", "equals", "bool", "True"));
  }

  lemma SingleCanonical(f: Filter)
    ensures Canonical([f]) == [f]
  {
    SubCanonical([f]);
  }
}
