/** Cross-row quality: identities, order dates, product names and currencies in one pass over the canonical rows. */
module CrossRowQuality {
  import opened Common
  import opened Ordering

  /** An empty product name is an absent one. */
  datatype Row = Row(number: int, order: string, line: string, date: int, product: string, name: string,
                     currency: string, category: string)

  datatype Finding = DuplicateIdentity(number: int) | InconsistentDate(order: string) | IdentityUnique | DatesConsistent
                   | MixedCurrency | BasisMismatch | SingleBasis | NameChanged(product: string) | ContainsUnclassified

  const UNCLASSIFIED: string := "__COMMERCE_LENS_UNCLASSIFIED__"

  predicate IsBlocking(f: Finding) {
    f.DuplicateIdentity? || f.InconsistentDate? || f.MixedCurrency? || f.BasisMismatch?
  }

  // ---- What the rows say ----

  ghost predicate HasIdentity(rows: seq<Row>, id: (string, string)) {
    exists r :: r in rows && (r.order, r.line) == id
  }

  /** Some row of this number repeats the identity of an earlier row. */
  ghost predicate Repeats(rows: seq<Row>, number: int) {
    exists k :: RepeatsAt(rows, k) && rows[k].number == number
  }

  ghost predicate RepeatsAt(rows: seq<Row>, k: int) {
    0 <= k < |rows| && HasIdentity(rows[..k], (rows[k].order, rows[k].line))
  }

  ghost predicate UniqueIdentities(rows: seq<Row>) {
    forall i, j :: 0 <= i < j < |rows| ==> (rows[i].order, rows[i].line) != (rows[j].order, rows[j].line)
  }

  /** Two rows of the order have different dates. */
  ghost predicate DateClash(rows: seq<Row>, order: string) {
    exists r, s :: r in rows && s in rows && r.order == order == s.order && r.date != s.date
  }

  function NamesOf(rows: seq<Row>, product: string): set<string> {
    set r | r in rows && r.product == product && r.name != "" :: r.name
  }

  function Currencies(rows: seq<Row>): set<string> {
    set r | r in rows :: r.currency
  }

  /** Two rows of the product carry different names. */
  ghost predicate Renamed(rows: seq<Row>, product: string) {
    exists r, s ::
      r in rows && s in rows && r.product == product == s.product && r.name != "" && s.name != "" && r.name != s.name
  }

  // ---- One more row ----

  lemma RepeatStep(rows: seq<Row>, r: Row, number: int)
    ensures Repeats(rows + [r], number) <==>
      Repeats(rows, number) || (r.number == number && HasIdentity(rows, (r.order, r.line)))
  {
    hide HasIdentity;
    var all := rows + [r];
    assert all[..|rows|] == rows;
    forall k | 0 <= k < |rows| ensures RepeatsAt(all, k) <==> RepeatsAt(rows, k) {
      assert all[..k] == rows[..k];
    }
    if Repeats(rows, number) {
      var k :| RepeatsAt(rows, k) && rows[k].number == number;
      assert RepeatsAt(all, k) && all[k] == rows[k];
    }
    if r.number == number && HasIdentity(rows, (r.order, r.line)) { assert RepeatsAt(all, |rows|); }
  }

  lemma IdentityStep(rows: seq<Row>, r: Row, id: (string, string))
    ensures HasIdentity(rows + [r], id) <==> HasIdentity(rows, id) || (r.order, r.line) == id
  {
    assert r in rows + [r];
    if HasIdentity(rows, id) {
      var s :| s in rows && (s.order, s.line) == id;
      assert s in rows + [r];
    }
  }

  /** The dates recorded: the last one of each order, which is every one while the order has no clash. */
  ghost predicate Records(orderDates: map<string, int>, rows: seq<Row>) {
    && (forall r :: r in rows ==> r.order in orderDates)
    && (forall o :: o in orderDates ==> exists r :: r in rows && r.order == o && r.date == orderDates[o])
  }

  /** Comparing with the last date only still finds every clash. */
  lemma ClashStep(orderDates: map<string, int>, rows: seq<Row>, r: Row, order: string)
    requires Records(orderDates, rows)
    ensures DateClash(rows + [r], order) <==>
      DateClash(rows, order) || (r.order == order && order in orderDates && orderDates[order] != r.date)
  {
    var all := rows + [r];
    assert r in all && forall s :: s in rows ==> s in all;
    if r.order == order && order in orderDates && orderDates[order] != r.date {
      var s :| s in rows && s.order == order && s.date == orderDates[order];
      assert s in all;
    }
    if DateClash(rows, order) {
      var s, t :| s in rows && t in rows && s.order == order == t.order && s.date != t.date;
      assert s in all && t in all;
    } else if DateClash(all, order) {
      var s, t :| s in all && t in all && s.order == order == t.order && s.date != t.date;
      if order in orderDates { LastDate(orderDates, rows, order); }
    }
  }

  lemma LastDate(orderDates: map<string, int>, rows: seq<Row>, order: string)
    requires Records(orderDates, rows) && order in orderDates && !DateClash(rows, order)
    ensures forall r :: r in rows && r.order == order ==> r.date == orderDates[order]
  {
    var s :| s in rows && s.order == order && s.date == orderDates[order];
  }

  lemma RecordStep(orderDates: map<string, int>, rows: seq<Row>, r: Row)
    requires Records(orderDates, rows)
    ensures Records(orderDates[r.order := r.date], rows + [r])
  {
    var all, dates := rows + [r], orderDates[r.order := r.date];
    assert r in all;
    forall o | o in dates ensures exists s :: s in all && s.order == o && s.date == dates[o] {
      if o != r.order {
        var s :| s in rows && s.order == o && s.date == orderDates[o];
        assert s in all;
      }
    }
  }

  lemma NamesStep(rows: seq<Row>, r: Row, product: string)
    ensures NamesOf(rows + [r], product)
      == NamesOf(rows, product) + if r.product == product && r.name != "" then {r.name} else {}
  {}

  // ---- _cross_row_quality ----

  /** What the row loop has found so far. */
  ghost predicate Found(rows: seq<Row>, results: seq<Finding>) {
    && (forall f :: f in results ==> f.DuplicateIdentity? || f.InconsistentDate?)
    && (forall n :: DuplicateIdentity(n) in results <==> Repeats(rows, n))
    && (forall o :: InconsistentDate(o) in results <==> DateClash(rows, o))
  }

  ghost predicate Tracks(productNames: map<string, set<string>>, rows: seq<Row>) {
    forall p :: (if p in productNames then productNames[p] else {}) == NamesOf(rows, p)
  }

  lemma NothingFound()
    ensures Found([], []) && Records(map[], []) && Tracks(map[], []) && Currencies([]) == {} && !AnyDuplicate([])
    ensures !AnyInconsistent([])
    ensures forall id :: !HasIdentity([], id)
  {}

  lemma FoundStep(rows: seq<Row>, r: Row, before: seq<Finding>, after: seq<Finding>, orderDates: map<string, int>)
    requires Found(rows, before) && Records(orderDates, rows)
    requires var dated := if HasIdentity(rows, (r.order, r.line)) then before + [DuplicateIdentity(r.number)]
      else before;
      after == if r.order in orderDates && orderDates[r.order] != r.date then dated + [InconsistentDate(r.order)]
        else dated
    ensures Found(rows + [r], after)
  {
    hide HasIdentity, Repeats, DateClash, Records;
    forall n ensures DuplicateIdentity(n) in after <==> Repeats(rows + [r], n) { RepeatStep(rows, r, n); }
    forall o ensures InconsistentDate(o) in after <==> DateClash(rows + [r], o) { ClashStep(orderDates, rows, r, o); }
  }

  ghost predicate AnyDuplicate(results: seq<Finding>) {
    exists f :: f in results && f.DuplicateIdentity?
  }

  ghost predicate AnyInconsistent(results: seq<Finding>) {
    exists f :: f in results && f.InconsistentDate?
  }

  lemma AnyStep(results: seq<Finding>, f: Finding)
    ensures AnyDuplicate(results + [f]) <==> AnyDuplicate(results) || f.DuplicateIdentity?
    ensures AnyInconsistent(results + [f]) <==> AnyInconsistent(results) || f.InconsistentDate?
  {
    assert forall g :: g in results + [f] <==> g in results || g == f;
  }

  /** The date of the last row of the order. */
  function DateBefore(rows: seq<Row>, order: string): Option<int> {
    if rows == [] then None
    else if rows[|rows| - 1].order == order then Some(rows[|rows| - 1].date)
    else DateBefore(rows[..|rows| - 1], order)
  }

  /** What one row adds after the rows before it: a repeated identity, then a date unlike the order's last. */
  ghost function RowFindings(rows: seq<Row>, r: Row): seq<Finding> {
    var date := DateBefore(rows, r.order);
    (if HasIdentity(rows, (r.order, r.line)) then [DuplicateIdentity(r.number)] else [])
    + if date.Some? && date.value != r.date then [InconsistentDate(r.order)] else []
  }

  /** The findings of the row loop, row by row. */
  ghost function Scanned(rows: seq<Row>): seq<Finding> {
    if rows == [] then [] else Scanned(rows[..|rows| - 1]) + RowFindings(rows[..|rows| - 1], rows[|rows| - 1])
  }

  lemma ScannedStep(rows: seq<Row>, r: Row)
    ensures Scanned(rows + [r]) == Scanned(rows) + RowFindings(rows, r)
    ensures forall o :: DateBefore(rows + [r], o) == if r.order == o then Some(r.date) else DateBefore(rows, o)
  {
    hide RowFindings;
    assert (rows + [r])[..|rows|] == rows;
  }

  /** The dictionary of dates holds the last date of each order. */
  ghost predicate Dated(orderDates: map<string, int>, rows: seq<Row>) {
    forall o :: DateBefore(rows, o) == if o in orderDates then Some(orderDates[o]) else None
  }

  lemma NothingScanned()
    ensures Scanned([]) == [] && Dated(map[], [])
  {}

  /** One repeated-identity finding for every row past the first of its identity. */
  lemma {:induction false} DuplicateCount(rows: seq<Row>)
    ensures Duplicates(Scanned(rows)) + |Identities(rows)| == |rows|
  {
    if rows == [] {
      assert Identities(rows) == {};
    } else {
      var n := |rows| - 1;
      var before, r := rows[..n], rows[n];
      hide HasIdentity, RowFindings, Duplicates, Identities;
      DuplicateCount(before);
      DuplicatesConcat(Scanned(before), RowFindings(before, r));
      RowDuplicates(before, r);
      NewIdentity(before, r);
      assert rows == before + [r];
    }
  }

  lemma NewIdentity(rows: seq<Row>, r: Row)
    ensures |Identities(rows + [r])| == |Identities(rows)| + if HasIdentity(rows, (r.order, r.line)) then 0 else 1
  {
    assert Identities(rows + [r]) == Identities(rows) + {(r.order, r.line)};
    assert HasIdentity(rows, (r.order, r.line)) <==> (r.order, r.line) in Identities(rows);
  }

  function Identities(rows: seq<Row>): set<(string, string)> {
    set r | r in rows :: (r.order, r.line)
  }

  function Duplicates(results: seq<Finding>): nat {
    if results == [] then 0
    else Duplicates(results[..|results| - 1]) + if results[|results| - 1].DuplicateIdentity? then 1 else 0
  }

  lemma {:induction false} DuplicatesConcat(a: seq<Finding>, b: seq<Finding>)
    ensures Duplicates(a + b) == Duplicates(a) + Duplicates(b)
  {
    if b == [] {
      assert a + b == a;
    } else {
      var n := |b| - 1;
      assert (a + b)[..|a| + n] == a + b[..n];
      DuplicatesConcat(a, b[..n]);
    }
  }

  lemma RowDuplicates(rows: seq<Row>, r: Row)
    ensures Duplicates(RowFindings(rows, r)) == if HasIdentity(rows, (r.order, r.line)) then 1 else 0
  {
    hide HasIdentity;
    var f := RowFindings(rows, r);
    var none: seq<Finding> := [];
    assert Duplicates(none) == 0;
    assert |f| > 0 ==> f[..1] == [f[0]] && [f[0]][..0] == none;
    assert |f| > 0 ==> Duplicates([f[0]]) == if f[0].DuplicateIdentity? then 1 else 0;
  }

  /** The row loop. */
  method ScanRows(rows: seq<Row>) returns (results: seq<Finding>, duplicate: bool, inconsistent: bool,
                                           productNames: map<string, set<string>>, currencies: set<string>)
    ensures results == Scanned(rows) && Found(rows, results)
    ensures duplicate == AnyDuplicate(results)
    ensures inconsistent == AnyInconsistent(results)
    ensures Tracks(productNames, rows) && currencies == Currencies(rows)
  {
    hide Found, Records, Tracks, HasIdentity, AnyDuplicate, AnyInconsistent, Currencies, Scanned, DateBefore;
    results, duplicate, inconsistent, productNames, currencies := [], false, false, map[], {};
    var identities: map<(string, string), int> := map[];
    var orderDates: map<string, int> := map[];
    NothingFound();
    NothingScanned();
    for i := 0 to |rows|
      invariant Found(rows[..i], results) && Records(orderDates, rows[..i]) && Tracks(productNames, rows[..i])
      invariant forall id :: id in identities <==> HasIdentity(rows[..i], id)
      invariant results == Scanned(rows[..i]) && Dated(orderDates, rows[..i])
      invariant duplicate == AnyDuplicate(results)
      invariant inconsistent == AnyInconsistent(results)
      invariant currencies == Currencies(rows[..i])
    {
      var row := rows[i];
      ghost var done, before := rows[..i + 1], results;
      assert done == rows[..i] + [row];
      var identity := (row.order, row.line);
      if identity in identities {
        duplicate := true;
        AnyStep(results, DuplicateIdentity(row.number));
        results := results + [DuplicateIdentity(row.number)];
      }
      identities := identities[identity := row.number];
      if row.order in orderDates && orderDates[row.order] != row.date {
        inconsistent := true;
        AnyStep(results, InconsistentDate(row.order));
        results := results + [InconsistentDate(row.order)];
      }
      FoundStep(rows[..i], row, before, results, orderDates);
      ScannedStep(rows[..i], row);
      assert results == before + RowFindings(rows[..i], row) by {
        assert DateBefore(rows[..i], row.order)
          == if row.order in orderDates then Some(orderDates[row.order]) else None;
      }
      RecordStep(orderDates, rows[..i], row);
      orderDates := orderDates[row.order := row.date];
      ghost var named := productNames;
      if row.name != "" {
        var names := if row.product in productNames then productNames[row.product] else {};
        productNames := productNames[row.product := names + {row.name}];
      }
      TrackStep(named, productNames, rows[..i], row);
      CurrencyStep(rows[..i], row);
      currencies := currencies + {row.currency};
      forall id ensures id in identities <==> HasIdentity(done, id) { IdentityStep(rows[..i], row, id); }
    }
    assert rows[..|rows|] == rows;
  }

  lemma CurrencyStep(rows: seq<Row>, r: Row)
    ensures Currencies(rows + [r]) == Currencies(rows) + {r.currency}
  {}

  lemma TrackStep(before: map<string, set<string>>, after: map<string, set<string>>, rows: seq<Row>, r: Row)
    requires Tracks(before, rows)
    requires after
      == if r.name == "" then before
      else before[r.product := (if r.product in before then before[r.product] else {}) + {r.name}]
    ensures Tracks(after, rows + [r])
  {
    hide NamesOf;
    forall p ensures (if p in after then after[p] else {}) == NamesOf(rows + [r], p) { NamesStep(rows, r, p); }
  }

  ghost predicate SeveralCurrencies(rows: seq<Row>) {
    exists r, s :: r in rows && s in rows && r.currency != s.currency
  }

  predicate OffBasis(rows: seq<Row>, basis: Option<string>) {
    basis.Some? && (rows == [] || rows[0].currency != basis.value)
  }

  predicate Unclassified(rows: seq<Row>) {
    exists r :: r in rows && r.category == UNCLASSIFIED
  }

  /** When a finding is due, said of pairs of rows. */
  ghost predicate Due(f: Finding, rows: seq<Row>, basis: Option<string>, requireCategory: bool) {
    match f
    case DuplicateIdentity(number) => Repeats(rows, number)
    case InconsistentDate(order) => DateClash(rows, order)
    case IdentityUnique => UniqueIdentities(rows)
    case DatesConsistent => forall o :: !DateClash(rows, o)
    case MixedCurrency => SeveralCurrencies(rows)
    case BasisMismatch => !SeveralCurrencies(rows) && OffBasis(rows, basis)
    case SingleBasis => !SeveralCurrencies(rows) && !OffBasis(rows, basis)
    case NameChanged(product) => Renamed(rows, product)
    case ContainsUnclassified =>
      requireCategory && exists r :: r in rows && r.category == "__COMMERCE_LENS_UNCLASSIFIED__"
  }

  function Money(rows: seq<Row>, basis: Option<string>): Finding {
    var currencies := Currencies(rows);
    if |currencies| > 1 then MixedCurrency else if basis.Some? && currencies != {basis.value} then BasisMismatch
      else SingleBasis
  }

  function NameFindings(products: seq<string>): seq<Finding> {
    seq(|products|, i requires 0 <= i < |products| => NameChanged(products[i]))
  }

  /**
   * The report in order: row findings, the two all-clears, the currency, renamed products by name, and the unclassified
   * note.
   */
  ghost predicate Reports(rows: seq<Row>, basis: Option<string>, requireCategory: bool, renamed: seq<string>,
                          results: seq<Finding>) {
    && StrictlySorted(renamed, StringLe) && (forall p :: p in renamed <==> Renamed(rows, p))
    && results == Scanned(rows) + Summary(!UniqueIdentities(rows), exists o :: DateClash(rows, o), Money(rows, basis))
         + NameFindings(renamed)
                  + if requireCategory && Unclassified(rows) then [ContainsUnclassified] else []
  }

  /** Where each kind of finding stands in the report. */
  function Place(f: Finding): nat {
    match f
    case DuplicateIdentity(_) => 0
    case InconsistentDate(_) => 0
    case IdentityUnique => 1
    case DatesConsistent => 2
    case MixedCurrency => 3
    case BasisMismatch => 3
    case SingleBasis => 3
    case NameChanged(_) => 4
    case ContainsUnclassified => 5
  }

  /** Kinds follow each other; after the row findings none repeats except renamed products, which are sorted. */
  ghost predicate InPlace(results: seq<Finding>) {
    forall i, j :: 0 <= i < j < |results| ==>
      && Place(results[i]) <= Place(results[j])
      && (Place(results[i]) == Place(results[j]) > 0 ==>
           results[i].NameChanged? && StringLe(results[i].product, results[j].product)
           && results[i].product != results[j].product)
  }

  lemma FoundRows(rows: seq<Row>, scanned: seq<Finding>)
    requires Found(rows, scanned)
    ensures forall f :: f in scanned ==> f.DuplicateIdentity? || f.InconsistentDate?
  {}

  lemma ReportInPlace(rows: seq<Row>, scanned: seq<Finding>, summary: seq<Finding>, renamed: seq<string>,
                      last: seq<Finding>, duplicate: bool, inconsistent: bool, money: Finding)
    requires forall f :: f in scanned ==> f.DuplicateIdentity? || f.InconsistentDate?
    requires summary == Summary(duplicate, inconsistent, money) && Place(money) == 3
    requires StrictlySorted(renamed, StringLe) && (last == [] || last == [ContainsUnclassified])
    ensures InPlace(scanned + summary + NameFindings(renamed) + last)
  {
    hide StringLe;
    var names := NameFindings(renamed);
    assert InPlace(scanned);
    assert InPlace(summary) && forall i :: 0 <= i < |summary| ==> 1 <= Place(summary[i]) <= 3;
    hide InPlace, NameFindings, Summary;
    NamesInPlace(renamed);
    AppendInPlace(scanned, summary, 0);
    AppendInPlace(scanned + summary, names, 3);
    LastInPlace(scanned + summary + names, last);
  }

  lemma NamesInPlace(renamed: seq<string>)
    requires StrictlySorted(renamed, StringLe)
    ensures InPlace(NameFindings(renamed))
    ensures forall i :: 0 <= i < |NameFindings(renamed)| ==> Place(NameFindings(renamed)[i]) == 4
  {
    hide StringLe;
  }

  ghost predicate UpTo(s: seq<Finding>, n: nat) {
    forall i :: 0 <= i < |s| ==> Place(s[i]) <= n
  }

  lemma AppendInPlace(a: seq<Finding>, b: seq<Finding>, n: nat)
    requires InPlace(a) && InPlace(b) && UpTo(a, n) && forall i :: 0 <= i < |b| ==> Place(b[i]) > n
    ensures InPlace(a + b) && forall m: nat :: n <= m && UpTo(b, m) ==> UpTo(a + b, m)
  {
    hide StringLe;
    assert forall i :: 0 <= i < |a + b| ==> (a + b)[i] == if i < |a| then a[i] else b[i - |a|];
  }

  lemma LastInPlace(a: seq<Finding>, last: seq<Finding>)
    requires InPlace(a) && UpTo(a, 4) && (last == [] || last == [ContainsUnclassified])
    ensures InPlace(a + last)
  {
    AppendInPlace(a, last, 4);
  }

  /** Exactly the findings that are due are reported, in their order and as often as the rows call for. */
  method CrossRowFindings(rows: seq<Row>, basis: Option<string>, requireCategory: bool) returns (results: seq<Finding>)
    ensures forall f :: f in results <==> Due(f, rows, basis, requireCategory)
    ensures exists renamed :: Reports(rows, basis, requireCategory, renamed, results)
    ensures InPlace(results)
  {
    hide InPlace, Repeats, DateClash, Renamed, UniqueIdentities, AnyDuplicate, AnyInconsistent, Tracks, Found, Due,
         Unclassified,
         Summary, Scanned, StringLe;
    var scanned, duplicate, inconsistent, productNames, currencies := ScanRows(rows);
    CurrencyCount(rows, currencies);
    UniqueExactly(rows, scanned);
    ClashExactly(rows, scanned);
    var money := if |currencies| > 1 then MixedCurrency
      else if basis.Some? && currencies != {basis.value} then BasisMismatch else SingleBasis;
    var renamed := ChangedNames(rows, productNames);
    var changed := NameFindings(renamed);
    var unclassified := requireCategory && Unclassified(rows);
    var summary := Summary(duplicate, inconsistent, money);
    var last := if unclassified then [ContainsUnclassified] else [];
    results := scanned + summary + changed + last;
    ReportInPlace(rows, scanned, summary, renamed, last, duplicate, inconsistent,
                  money) by { FoundRows(rows, scanned); }
    assert Reports(rows, basis, requireCategory, renamed, results);
    NameFindingsMembers(renamed);
    forall f ensures f in results <==> Due(f, rows, basis, requireCategory) {
      assert f in results <==> f in scanned || f in summary || f in changed || f in last;
      ScannedDue(rows, scanned, f, basis, requireCategory);
      SummaryDue(rows, scanned, duplicate, inconsistent, money, f, basis, requireCategory);
      OthersDue(rows, changed, f, basis, requireCategory);
    }
  }

  lemma NameFindingsMembers(products: seq<string>)
    ensures forall f :: f in NameFindings(products) ==> f.NameChanged?
    ensures forall p :: NameChanged(p) in NameFindings(products) <==> p in products
  {
    var s := NameFindings(products);
    forall p ensures NameChanged(p) in s <==> p in products {
      if p in products {
        var i :| 0 <= i < |products| && products[i] == p;
        assert s[i] == NameChanged(p);
      }
    }
  }

  lemma ScannedDue(rows: seq<Row>, scanned: seq<Finding>, f: Finding, basis: Option<string>, requireCategory: bool)
    requires Found(rows, scanned)
    ensures f in scanned <==> (f.DuplicateIdentity? || f.InconsistentDate?) && Due(f, rows, basis, requireCategory)
  {
    hide Repeats, DateClash;
  }

  lemma SummaryDue(rows: seq<Row>, scanned: seq<Finding>, duplicate: bool, inconsistent: bool, money: Finding,
                   f: Finding, basis: Option<string>, requireCategory: bool)
    requires Found(rows, scanned) && duplicate == AnyDuplicate(scanned) && inconsistent == AnyInconsistent(scanned)
    requires money
      == if SeveralCurrencies(rows) then MixedCurrency else if OffBasis(rows, basis) then BasisMismatch else SingleBasis
    ensures f in Summary(duplicate, inconsistent, money) <==>
      (f in {IdentityUnique, DatesConsistent, MixedCurrency, BasisMismatch, SingleBasis}
        && Due(f, rows, basis, requireCategory))
  {
    UniqueExactly(rows, scanned);
    ClashExactly(rows, scanned);
    SummaryMembers(duplicate, inconsistent, money);
    hide Repeats, DateClash, Summary, Found, UniqueIdentities, SeveralCurrencies, OffBasis;
  }

  lemma OthersDue(rows: seq<Row>, changed: seq<Finding>, f: Finding, basis: Option<string>, requireCategory: bool)
    requires forall g :: g in changed ==> g.NameChanged?
    requires forall p :: NameChanged(p) in changed <==> Renamed(rows, p)
    ensures f in changed <==> f.NameChanged? && Due(f, rows, basis, requireCategory)
    ensures f.ContainsUnclassified? ==>
      (Due(f, rows, basis, requireCategory) <==> requireCategory && Unclassified(rows))
  {
    hide Renamed;
  }

  function Summary(duplicate: bool, inconsistent: bool, money: Finding): seq<Finding> {
    (if duplicate then [] else [IdentityUnique]) + (if inconsistent then [] else [DatesConsistent]) + [money]
  }

  lemma SummaryMembers(duplicate: bool, inconsistent: bool, money: Finding)
    ensures forall f :: f in Summary(duplicate, inconsistent, money) <==>
      (f == IdentityUnique && !duplicate) || (f == DatesConsistent && !inconsistent) || f == money
  {}

  /** The products met, in order, each reported when it carries several names. */
  method ChangedNames(rows: seq<Row>, productNames: map<string, set<string>>) returns (changed: seq<string>)
    requires Tracks(productNames, rows)
    ensures StrictlySorted(changed, StringLe)
    ensures forall p :: p in changed <==> Renamed(rows, p)
  {
    hide NamesOf, Renamed, StringLe;
    var products := SortedStrings(productNames.Keys);
    changed := [];
    for i := 0 to |products|
      invariant forall p :: p in changed <==> p in products[..i] && |productNames[p]| > 1
      invariant StrictlySorted(changed, StringLe)
    {
      ghost var done := products[..i];
      assert products[..i + 1] == done + [products[i]] && products[i] in products;
      assert forall p :: p in done ==> StringLe(p, products[i]) && p != products[i];
      if |productNames[products[i]]| > 1 {
        assert forall k :: 0 <= k < |changed| ==> changed[k] in done;
        changed := changed + [products[i]];
      }
    }
    assert products[..|products|] == products;
    forall p ensures p in changed <==> Renamed(rows, p) {
      RenamedExactly(rows, p);
      assert p !in productNames ==> NamesOf(rows, p) == {};
    }
  }

  lemma SeveralElements<T>(s: set<T>)
    ensures |s| > 1 <==> exists x, y :: x in s && y in s && x != y
  {
    if |s| > 1 {
      var x :| x in s;
      assert |s - {x}| > 0;
      var y :| y in s - {x};
    }
    if x, y :| x in s && y in s && x != y {
      assert {x, y} <= s;
      SubsetSize({x, y}, s);
    }
  }

  lemma {:induction false} SubsetSize<T>(a: set<T>, b: set<T>)
    requires a <= b
    ensures |a| <= |b|
  {
    if a != {} {
      var x :| x in a;
      SubsetSize(a - {x}, b - {x});
    }
  }

  lemma RenamedExactly(rows: seq<Row>, product: string)
    ensures Renamed(rows, product) <==> |NamesOf(rows, product)| > 1
  {
    SeveralElements(NamesOf(rows, product));
    if Renamed(rows, product) {
      var r, s :| r in rows && s in rows && r.product == product == s.product && r.name != "" && s.name != ""
        && r.name != s.name;
      assert r.name in NamesOf(rows, product) && s.name in NamesOf(rows, product);
    }
    if x, y :| x in NamesOf(rows, product) && y in NamesOf(rows, product) && x != y {
      var r :| r in rows && r.product == product && r.name == x;
      var s :| s in rows && s.product == product && s.name == y;
    }
  }

  lemma CurrencyCount(rows: seq<Row>, currencies: set<string>)
    requires currencies == Currencies(rows)
    ensures |currencies| > 1 <==> SeveralCurrencies(rows)
    ensures |currencies| <= 1 ==> forall b: string :: (currencies != {b} <==> OffBasis(rows, Some(b)))
  {
    SeveralElements(currencies);
    assert rows != [] ==> rows[0] in rows && rows[0].currency in currencies;
    if r, s :| r in rows && s in rows && r.currency != s.currency {
      assert r.currency in currencies && s.currency in currencies;
    }
    if x, y :| x in currencies && y in currencies && x != y {
      var r :| r in rows && r.currency == x;
      var s :| s in rows && s.currency == y;
    }
  }

  /** Some row repeats an identity exactly when two rows share one. */
  lemma RepeatsExactly(rows: seq<Row>)
    ensures (exists n :: Repeats(rows, n)) <==> !UniqueIdentities(rows)
  {
    if n :| Repeats(rows, n) {
      var k :| RepeatsAt(rows, k) && rows[k].number == n;
      var r :| r in rows[..k] && (r.order, r.line) == (rows[k].order, rows[k].line);
      var j :| 0 <= j < k && rows[..k][j] == r;
    }
    if !UniqueIdentities(rows) {
      var i, j :| 0 <= i < j < |rows| && (rows[i].order, rows[i].line) == (rows[j].order, rows[j].line);
      assert rows[..j][i] in rows[..j];
      assert RepeatsAt(rows, j);
      assert Repeats(rows, rows[j].number);
    }
  }

  lemma UniqueExactly(rows: seq<Row>, results: seq<Finding>)
    requires Found(rows, results)
    ensures AnyDuplicate(results) <==> !UniqueIdentities(rows)
  {
    hide DateClash, Repeats, UniqueIdentities;
    RepeatsExactly(rows);
    if f :| f in results && f.DuplicateIdentity? { assert DuplicateIdentity(f.number) in results; }
    if n :| Repeats(rows, n) { assert DuplicateIdentity(n) in results; }
  }

  /**
   * The rows block canonicalisation exactly when an identity repeats, an order has two dates, or the currencies are not
   * the one basis.
   */
  lemma BlocksExactly(rows: seq<Row>, basis: Option<string>, requireCategory: bool)
    ensures (exists f :: IsBlocking(f) && Due(f, rows, basis, requireCategory)) <==>
      || !UniqueIdentities(rows)
      || (exists o :: DateClash(rows, o))
      || SeveralCurrencies(rows)
      || OffBasis(rows, basis)
  {
    hide Repeats, DateClash, UniqueIdentities, SeveralCurrencies, OffBasis;
    RepeatsExactly(rows);
    if n :| Repeats(rows, n) { assert Due(DuplicateIdentity(n), rows, basis, requireCategory); }
    if o :| DateClash(rows, o) { assert Due(InconsistentDate(o), rows, basis, requireCategory); }
    if SeveralCurrencies(rows) { assert Due(MixedCurrency, rows, basis, requireCategory); }
    if !SeveralCurrencies(rows) && OffBasis(rows, basis) { assert Due(BasisMismatch, rows, basis, requireCategory); }
  }

  lemma ClashExactly(rows: seq<Row>, results: seq<Finding>)
    requires Found(rows, results)
    ensures AnyInconsistent(results) <==> exists o :: DateClash(rows, o)
  {
    hide DateClash, Repeats;
    if f :| f in results && f.InconsistentDate? { assert InconsistentDate(f.order) in results; }
    if o :| DateClash(rows, o) { assert InconsistentDate(o) in results; }
  }
}
