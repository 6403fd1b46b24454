/** R4: the Revenue Change split by product entry, exit and continuation, in the default 28-digit decimal context. */
module Decomposition {
  import opened Common
  import opened Ordering
  import opened DecimalContext

  /** A canonical row; revenue is an integer number of units at the common scale. */
  datatype Row = Row(eligible: bool, day: int, order: string, product: string, revenue: int, currency: string,
                     fields: map<string, string>)

  datatype Scope = Scope(start: int, end: int, filters: seq<(string, string)>)

  datatype R4Error = CurrencyMismatch | MalformedProduct

  datatype Component = Entry | Exit | Continuing

  datatype TraceRow = TraceRow(product: string, inBaseline: bool, inComparison: bool, baselineRevenue: int,
                               comparisonRevenue: int, contribution: int, component: Component)

  datatype Outcome = Outcome(rows: seq<TraceRow>, entry: int, exit: int, continuing: int, componentSum: int,
                             reconciliation: int,
                             entryCount: nat, exitCount: nat, continuingCount: nat)

  // ---- The governed lines of a population ----

  predicate Selects(scope: Scope, row: Row) {
    && row.eligible && scope.start <= row.day <= scope.end
    && forall f :: f in scope.filters ==> f.0 in row.fields && row.fields[f.0] == f.1
  }

  /** The lines a population selects, in dataset order. */
  function Lines(scope: Scope, rows: seq<Row>): seq<Row> {
    if rows == [] then []
    else
      var n := |rows| - 1;
      Lines(scope, rows[..n]) + if Selects(scope, rows[n]) then [rows[n]] else []
  }

  function Total(lines: seq<Row>): int {
    if lines == [] then 0 else Total(lines[..|lines| - 1]) + lines[|lines| - 1].revenue
  }

  /** The revenue of the lines of some products. */
  function TotalOf(lines: seq<Row>, products: set<string>): int {
    if lines == [] then 0
    else
      var n := |lines| - 1;
      TotalOf(lines[..n], products) + if lines[n].product in products then lines[n].revenue else 0
  }

  function Products(lines: seq<Row>): set<string> {
    set l | l in lines :: l.product
  }

  // ---- GROUP BY product_id ----

  function Get(m: map<string, int>, k: string): int {
    if k in m then m[k] else 0
  }

  /** The revenue of each product, as the query groups it. */
  function Grouped(lines: seq<Row>): map<string, int> {
    if lines == [] then map[]
    else
      var n := |lines| - 1;
      var before := Grouped(lines[..n]);
      before[lines[n].product := Get(before, lines[n].product) + lines[n].revenue]
  }

  lemma {:induction false} GroupedKeys(lines: seq<Row>)
    ensures Grouped(lines).Keys == Products(lines)
  {
    if lines != [] {
      var n := |lines| - 1;
      GroupedKeys(lines[..n]);
      assert lines == lines[..n] + [lines[n]];
    }
  }

  function SumAt(keys: seq<string>, pick: set<string>, m: map<string, int>): int {
    if keys == [] then 0
    else
      var n := |keys| - 1;
      SumAt(keys[..n], pick, m) + if keys[n] in pick then Get(m, keys[n]) else 0
  }

  lemma {:induction false} SumAtUpdate(keys: seq<string>, pick: set<string>, m: map<string, int>, k: string, v: int)
    requires StrictlySorted(keys, StringLe)
    ensures SumAt(keys, pick, m[k := v]) == SumAt(keys, pick, m) + if k in keys && k in pick then v - Get(m, k) else 0
  {
    hide StringLe;
    if keys != [] {
      var n := |keys| - 1;
      LastKey(keys, pick);
      SumAtUpdate(keys[..n], pick, m, k, v);
    }
  }

  lemma {:induction false} SumAtNothing(keys: seq<string>, pick: set<string>, m: map<string, int>)
    requires pick !! m.Keys
    ensures SumAt(keys, pick, m) == 0
  {
    if keys != [] { SumAtNothing(keys[..|keys| - 1], pick, m); }
  }

  ghost function Members(keys: seq<string>): set<string> {
    set k | k in keys
  }

  /** Adding per-product sums back up gives the revenue of those products' lines. */
  lemma {:induction false} GroupedAddsUp(keys: seq<string>, pick: set<string>, lines: seq<Row>)
    requires StrictlySorted(keys, StringLe)
    ensures SumAt(keys, pick, Grouped(lines)) == TotalOf(lines, pick * Members(keys))
  {
    if lines == [] {
      SumAtNothing(keys, pick, map[]);
    } else {
      var n := |lines| - 1;
      var before := Grouped(lines[..n]);
      GroupedAddsUp(keys, pick, lines[..n]);
      SumAtUpdate(keys, pick, before, lines[n].product, Get(before, lines[n].product) + lines[n].revenue);
    }
  }

  // ---- _trace_rows ----

  /** comparison - baseline, as the source computes it. */
  function RowFor(k: string, b: map<string, int>, c: map<string, int>): TraceRow {
    TraceRow(k, k in b, k in c, Get(b, k), Get(c, k), InContext(Get(c, k) - Get(b, k)),
             if k in b && k in c then Continuing else if k in c then Entry else Exit)
  }

  function RowsFor(keys: seq<string>, b: map<string, int>, c: map<string, int>): seq<TraceRow> {
    if keys == [] then [] else RowsFor(keys[..|keys| - 1], b, c) + [RowFor(keys[|keys| - 1], b, c)]
  }

  /** The products of each component. */
  function ProductsOf(component: Component, b: map<string, int>, c: map<string, int>): set<string> {
    match component
    case Entry => c.Keys - b.Keys
    case Exit => b.Keys - c.Keys
    case Continuing => b.Keys * c.Keys
  }

  // ---- Component sums ----

  /** The contributions of one component added up from zero, every addition in the default context. */
  function ContextSum(rows: seq<TraceRow>, component: Component): int {
    if rows == [] then 0
    else
      var n := |rows| - 1;
      var before := ContextSum(rows[..n], component);
      if rows[n].component == component then InContext(before + rows[n].contribution) else before
  }

  function Count(rows: seq<TraceRow>, component: Component): nat {
    if rows == [] then 0
    else
      var n := |rows| - 1;
      Count(rows[..n], component) + if rows[n].component == component then 1 else 0
  }

  // ---- Bounds ----

  ghost predicate NonNegative(lines: seq<Row>) {
    forall l :: l in lines ==> l.revenue >= 0
  }

  lemma {:induction false} PartWithinTotal(lines: seq<Row>, products: set<string>)
    requires NonNegative(lines)
    ensures 0 <= TotalOf(lines, products) <= Total(lines)
  {
    if lines != [] {
      var n := |lines| - 1;
      assert forall l :: l in lines[..n] ==> l in lines;
      PartWithinTotal(lines[..n], products);
      assert lines[n] in lines;
    }
  }

  /** Both populations' lines are non-negative with totals of at most t units. */
  ghost predicate Bounded(baseline: seq<Row>, comparison: seq<Row>, t: int) {
    NonNegative(baseline) && NonNegative(comparison) && Total(baseline) <= t && Total(comparison) <= t
  }

  /** Totals up to 10^28. */
  ghost predicate WithinContext(baseline: seq<Row>, comparison: seq<Row>) {
    Bounded(baseline, comparison, Limit())
  }

  /** The exact contribution of some products. */
  ghost function Change(baseline: seq<Row>, comparison: seq<Row>, products: set<string>): int {
    TotalOf(comparison, products) - TotalOf(baseline, products)
  }

  lemma ChangeFits(baseline: seq<Row>, comparison: seq<Row>, products: set<string>)
    requires WithinContext(baseline, comparison)
    ensures -Total(baseline) <= Change(baseline, comparison, products) <= Total(comparison)
    ensures Fits(Change(baseline, comparison, products))
  {
    hide Limit;
    PartWithinTotal(baseline, products);
    PartWithinTotal(comparison, products);
  }

  lemma {:induction false} OneProduct(lines: seq<Row>, k: string)
    ensures TotalOf(lines, {k}) == Get(Grouped(lines), k)
  {
    GroupedAddsUp([k], {k}, lines);
    assert [k][..0] == [];
    assert SumAt([], {k}, Grouped(lines)) == 0;
    assert {k} * Members([k]) == {k};
  }

  lemma {:induction false} TotalOfUnion(lines: seq<Row>, p: set<string>, q: set<string>)
    requires p !! q
    ensures TotalOf(lines, p + q) == TotalOf(lines, p) + TotalOf(lines, q)
  {
    if lines != [] { TotalOfUnion(lines[..|lines| - 1], p, q); }
  }

  /**
   * No step of a component sum rounds: after any prefix of the rows it is the exact change of the products met so far.
   */
  lemma {:induction false} PrefixSumExact(keys: seq<string>, baseline: seq<Row>, comparison: seq<Row>,
                                          component: Component)
    requires StrictlySorted(keys, StringLe) && WithinContext(baseline, comparison)
    requires forall k :: k in keys ==> k in Products(baseline) + Products(comparison)
    ensures ContextSum(RowsFor(keys, Grouped(baseline), Grouped(comparison)), component)
         == Change(baseline, comparison, ProductsOf(component, Grouped(baseline), Grouped(comparison)) * Members(keys))
  {
    hide InContext, Fits, Grouped, RowFor, WithinContext, TotalOf, RowsFor, ContextSum, StringLe, ProductsOf;
    var b, c := Grouped(baseline), Grouped(comparison);
    var pick := ProductsOf(component, b, c);
    if keys == [] {
      NoProducts(baseline);
      NoProducts(comparison);
      assert pick * Members(keys) == {};
      assert RowsFor(keys, b, c) == [] by { RowsLength(keys, b, c); }
      assert ContextSum([], component) == 0 by { NoRows(component); }
    } else {
      var n := |keys| - 1;
      PrefixSumExact(keys[..n], baseline, comparison, component);
      LastKey(keys, pick);
      assert keys[n] in keys;
      SumStep(keys, n, b, c, component);
      RowExact(keys[n], baseline, comparison);
      LastRow(keys[n], baseline, comparison, component);
      var before := pick * Members(keys[..n]);
      if keys[n] in pick {
        TotalOfUnion(baseline, before, {keys[n]});
        TotalOfUnion(comparison, before, {keys[n]});
        ExactStep(baseline, comparison, before + {keys[n]});
      }
    }
  }

  lemma NoRows(component: Component)
    ensures ContextSum([], component) == 0
  {}

  /** One more row. */
  lemma {:induction false} SumStep(keys: seq<string>, n: nat, b: map<string, int>, c: map<string, int>,
                                   component: Component)
    requires |keys| == n + 1
    ensures var before, row := ContextSum(RowsFor(keys[..n], b, c), component), RowFor(keys[n], b, c);
      ContextSum(RowsFor(keys, b, c), component)
        == if row.component == component then InContext(before + row.contribution) else before
  {
    hide InContext, RowFor, RowsFor, ContextSum;
    RowAppended(keys, n, b, c);
    RowAdded(RowsFor(keys[..n], b, c), RowFor(keys[n], b, c), component);
  }

  lemma {:induction false} RowAppended(keys: seq<string>, n: nat, b: map<string, int>, c: map<string, int>)
    requires |keys| == n + 1
    ensures RowsFor(keys, b, c) == RowsFor(keys[..n], b, c) + [RowFor(keys[n], b, c)]
  {
    hide RowFor;
  }

  lemma RowAdded(rows: seq<TraceRow>, row: TraceRow, component: Component)
    ensures ContextSum(rows + [row], component) ==
      var before := ContextSum(rows, component); if row.component == component then InContext(before + row.contribution)
        else before
    ensures Count(rows + [row], component) == Count(rows, component) + if row.component == component then 1 else 0
  {
    hide InContext;
    assert (rows + [row])[..|rows|] == rows;
  }

  /** A product's row belongs to the component that its product set says. */
  lemma LastRow(k: string, baseline: seq<Row>, comparison: seq<Row>, component: Component)
    requires k in Products(baseline) + Products(comparison)
    ensures var b, c := Grouped(baseline), Grouped(comparison);
      RowFor(k, b, c).component == component <==> k in ProductsOf(component, b, c)
  {
    hide InContext, Grouped;
    GroupedKeys(baseline);
    GroupedKeys(comparison);
  }

  lemma LastKey(keys: seq<string>, pick: set<string>)
    requires StrictlySorted(keys, StringLe) && keys != []
    ensures var n := |keys| - 1;
      var before := pick * Members(keys[..n]);
      && pick * Members(keys) == (if keys[n] in pick then before + {keys[n]} else before)
      && keys[n] !in before && keys[n] !in keys[..n]
      && StrictlySorted(keys[..n], StringLe)
      && forall k :: k in keys <==> k in keys[..n] || k == keys[n]
  {
    hide StringLe;
    var n := |keys| - 1;
    assert keys == keys[..n] + [keys[n]];
  }

  lemma {:induction false} NoProducts(lines: seq<Row>)
    ensures TotalOf(lines, {}) == 0
  {
    if lines != [] { NoProducts(lines[..|lines| - 1]); }
  }

  lemma {:induction false} RowsLength(keys: seq<string>, b: map<string, int>, c: map<string, int>)
    ensures |RowsFor(keys, b, c)| == |keys|
    ensures forall i :: 0 <= i < |keys| ==> RowsFor(keys, b, c)[i] == RowFor(keys[i], b, c)
  {
    hide RowFor;
    if keys != [] {
      var n := |keys| - 1;
      RowsLength(keys[..n], b, c);
      assert forall i :: 0 <= i < n ==> keys[..n][i] == keys[i];
    }
  }

  lemma ExactStep(baseline: seq<Row>, comparison: seq<Row>, products: set<string>)
    requires WithinContext(baseline, comparison)
    ensures InContext(Change(baseline, comparison, products)) == Change(baseline, comparison, products)
  {
    hide InContext, Fits, WithinContext;
    ChangeFits(baseline, comparison, products);
    FittingUnchanged(Change(baseline, comparison, products));
  }

  lemma RowExact(k: string, baseline: seq<Row>, comparison: seq<Row>)
    requires WithinContext(baseline, comparison)
    ensures RowFor(k, Grouped(baseline), Grouped(comparison)).contribution == Change(baseline, comparison, {k})
  {
    hide InContext, Fits;
    OneProduct(baseline, k);
    OneProduct(comparison, k);
    ExactStep(baseline, comparison, {k});
  }

  // ---- The three components ----

  lemma {:induction false} AllProducts(lines: seq<Row>, products: set<string>)
    requires Products(lines) <= products
    ensures TotalOf(lines, products) == Total(lines)
  {
    if lines != [] {
      var n := |lines| - 1;
      assert lines[n] in lines && forall l :: l in lines[..n] ==> l in lines;
      assert lines[n].product in Products(lines);
      AllProducts(lines[..n], products);
    }
  }

  lemma {:induction false} AbsentProducts(lines: seq<Row>, products: set<string>)
    requires Products(lines) !! products
    ensures TotalOf(lines, products) == 0
  {
    if lines != [] {
      var n := |lines| - 1;
      assert lines[n] in lines && forall l :: l in lines[..n] ==> l in lines;
      assert lines[n].product in Products(lines);
      AbsentProducts(lines[..n], products);
    }
  }

  /** What the decomposition reports, said of the lines alone. */
  ghost predicate Decomposes(o: Outcome, baseline: seq<Row>, comparison: seq<Row>, observed: int) {
    var b, c := Products(baseline), Products(comparison);
    && o.entry == TotalOf(comparison, c - b)
    && o.exit == -TotalOf(baseline, b - c)
    && o.continuing == TotalOf(comparison, b * c) - TotalOf(baseline, b * c)
    && o.componentSum == o.entry + o.exit + o.continuing == Total(comparison) - Total(baseline)
    && (o.reconciliation == 0 <==> observed == Total(comparison) - Total(baseline))
  }

  /** The rows are one per product of either period, in product order, and each says what its product contributes. */
  ghost predicate Traces(rows: seq<TraceRow>, baseline: seq<Row>, comparison: seq<Row>) {
    && (forall i, j ::
         0 <= i < j < |rows| ==> StringLe(rows[i].product, rows[j].product) && rows[i].product != rows[j].product)
    && (forall p :: p in Products(baseline) + Products(comparison) <==>
         exists i :: 0 <= i < |rows| && rows[i].product == p)
    && (forall i :: 0 <= i < |rows| ==> RowTells(rows[i], baseline, comparison))
  }

  ghost predicate RowTells(r: TraceRow, baseline: seq<Row>, comparison: seq<Row>) {
    && r.inBaseline == (r.product in Products(baseline))
    && r.inComparison == (r.product in Products(comparison))
    && r.baselineRevenue == TotalOf(baseline, {r.product})
    && r.comparisonRevenue == TotalOf(comparison, {r.product})
    && r.contribution == InContext(r.comparisonRevenue - r.baselineRevenue)
    && (r.component == Entry <==> r.inComparison && !r.inBaseline)
    && (r.component == Exit <==> r.inBaseline && !r.inComparison)
  }

  lemma {:induction false} ComponentsExact(keys: seq<string>, baseline: seq<Row>, comparison: seq<Row>)
    requires StrictlySorted(keys, StringLe) && WithinContext(baseline, comparison)
    requires Members(keys) == Products(baseline) + Products(comparison)
    ensures var rows := RowsFor(keys, Grouped(baseline), Grouped(comparison));
            var b, c := Products(baseline), Products(comparison);
      && ContextSum(rows, Entry) == TotalOf(comparison, c - b)
      && ContextSum(rows, Exit) == -TotalOf(baseline, b - c)
      && ContextSum(rows, Continuing) == Change(baseline, comparison, b * c)
  {
    hide ContextSum, Grouped;
    var b, c := Products(baseline), Products(comparison);
    GroupedKeys(baseline);
    GroupedKeys(comparison);
    PrefixSumExact(keys, baseline, comparison, Entry);
    PrefixSumExact(keys, baseline, comparison, Exit);
    PrefixSumExact(keys, baseline, comparison, Continuing);
    assert (c - b) * Members(keys) == c - b && (b - c) * Members(keys) == b - c && (b * c) * Members(keys) == b * c;
    AbsentProducts(baseline, c - b);
    AbsentProducts(comparison, b - c);
  }

  lemma {:induction false} PartsAddUp(baseline: seq<Row>, comparison: seq<Row>)
    ensures var b, c := Products(baseline), Products(comparison);
      TotalOf(comparison, c - b) - TotalOf(baseline, b - c) + Change(baseline, comparison, b * c)
        == Total(comparison) - Total(baseline)
    ensures var b, c := Products(baseline), Products(comparison);
      TotalOf(comparison, c - b) - TotalOf(baseline, b - c) == Change(baseline, comparison, (b - c) + (c - b))
  {
    var b, c := Products(baseline), Products(comparison);
    TotalOfUnion(comparison, c - b, b * c);
    TotalOfUnion(baseline, b - c, b * c);
    assert (c - b) + b * c == c && (b - c) + b * c == b;
    AllProducts(comparison, c);
    AllProducts(baseline, b);
    TotalOfUnion(comparison, b - c, c - b);
    TotalOfUnion(baseline, b - c, c - b);
    AbsentProducts(comparison, b - c);
    AbsentProducts(baseline, c - b);
  }

  lemma NoRowCounts(b: map<string, int>, c: map<string, int>, component: Component)
    ensures Count(RowsFor([], b, c), component) == 0
  {}

  lemma {:induction false} CountStep(keys: seq<string>, n: nat, b: map<string, int>, c: map<string, int>,
                                     component: Component)
    requires |keys| == n + 1
    ensures Count(RowsFor(keys, b, c), component)
         == Count(RowsFor(keys[..n], b, c), component) + if RowFor(keys[n], b, c).component == component then 1 else 0
  {
    hide RowFor, RowsFor, Count;
    RowAppended(keys, n, b, c);
    RowAdded(RowsFor(keys[..n], b, c), RowFor(keys[n], b, c), component);
  }

  lemma {:induction false} CountIs(keys: seq<string>, b: map<string, int>, c: map<string, int>, component: Component)
    requires StrictlySorted(keys, StringLe) && forall k :: k in keys ==> k in b || k in c
    ensures Count(RowsFor(keys, b, c), component) == |ProductsOf(component, b, c) * Members(keys)|
  {
    hide InContext, StringLe, StrictlySorted, RowsFor, Count;
    var pick := ProductsOf(component, b, c);
    if keys == [] {
      assert pick * Members(keys) == {};
      NoRowCounts(b, c, component);
    } else {
      var n := |keys| - 1;
      LastKey(keys, pick);
      CountIs(keys[..n], b, c, component);
      CountStep(keys, n, b, c, component);
      assert keys[n] in keys;
      assert keys[n] in b || keys[n] in c;
    }
  }

  // ---- The operations ----

  /** Nothing but ASCII whitespace. */
  predicate Blank(s: string) {
    forall ch :: ch in s ==> ch == ' ' || '\t' <= ch <= '\r' || '\U{1C}' <= ch <= '\U{1F}'
  }

  predicate InCurrency(lines: seq<Row>, currency: string) {
    forall l :: l in lines ==> l.currency == currency
  }

  predicate Named(lines: seq<Row>) {
    forall l :: l in lines ==> !Blank(l.product)
  }

  lemma LinesOfNothing(scope: Scope, currency: string)
    ensures Lines(scope, []) == [] && Grouped([]) == map[] && InCurrency([], currency) && Named([])
  {}

  lemma LineAdded(lines: seq<Row>, l: Row, currency: string)
    ensures Grouped(lines + [l]) == Grouped(lines)[l.product := Get(Grouped(lines), l.product) + l.revenue]
    ensures InCurrency(lines + [l], currency) == (InCurrency(lines, currency) && l.currency == currency)
    ensures Named(lines + [l]) == (Named(lines) && !Blank(l.product))
  {
    hide Blank;
    assert (lines + [l])[..|lines|] == lines;
  }

  lemma LinesStep(scope: Scope, rows: seq<Row>, i: nat)
    requires i < |rows|
    ensures var before := Lines(scope, rows[..i]);
            Lines(scope, rows[..i + 1]) == if Selects(scope, rows[i]) then before + [rows[i]] else before
  {
    hide Selects;
    assert rows[..i + 1][..i] == rows[..i];
    assert Lines(scope, rows[..i]) + [] == Lines(scope, rows[..i]);
  }

  /** _trace_rows. */
  method TraceRows(b: map<string, int>, c: map<string, int>) returns (rows: seq<TraceRow>)
    ensures StrictlySorted(TracedProducts(rows), StringLe) && Members(TracedProducts(rows)) == b.Keys + c.Keys
    ensures rows == RowsFor(TracedProducts(rows), b, c)
  {
    hide RowFor;
    var products := SortedStrings(b.Keys + c.Keys);
    rows := [];
    for i := 0 to |products|
      invariant rows == RowsFor(products[..i], b, c)
    {
      assert products[..i + 1][..i] == products[..i];
      assert products[i] in products;
      var k := products[i];
      rows := rows + [RowFor(k, b, c)];
    }
    assert products[..|products|] == products;
    RowsName(products, b, c);
    RowsLength(products, b, c);
  }

  lemma {:induction false} RowsName(keys: seq<string>, b: map<string, int>, c: map<string, int>)
    ensures TracedProducts(RowsFor(keys, b, c)) == keys
  {
    hide InContext;
    RowsLength(keys, b, c);
  }

  /** The products of a trace, in row order. */
  function TracedProducts(rows: seq<TraceRow>): seq<string> {
    seq(|rows|, i requires 0 <= i < |rows| => rows[i].product)
  }

  // ---- The same, said of the rows of the dataset ----

  /** The row is eligible, dated in the period, and has the value that each filter asks for. */
  ghost predicate Counts(scope: Scope, r: Row) {
    && r.eligible && scope.start <= r.day && r.day <= scope.end
    && forall i :: 0 <= i < |scope.filters| ==>
         scope.filters[i].0 in r.fields && r.fields[scope.filters[i].0] == scope.filters[i].1
  }

  /** The products with a row that counts. */
  ghost function Sold(scope: Scope, rows: seq<Row>): set<string> {
    set r | r in rows && Counts(scope, r) :: r.product
  }

  /** The revenue of the rows that count and are of some products, each row once. */
  ghost function SoldRevenue(scope: Scope, rows: seq<Row>, products: set<string>): int {
    if rows == [] then 0
    else (if Counts(scope, rows[0]) && rows[0].product in products then rows[0].revenue else 0)
         + SoldRevenue(scope, rows[1..], products)
  }

  /** The revenue of all rows that count, each once. */
  ghost function ScopeRevenue(scope: Scope, rows: seq<Row>): int {
    if rows == [] then 0
    else (if Counts(scope, rows[0]) then rows[0].revenue else 0) + ScopeRevenue(scope, rows[1..])
  }

  /** Some character is no white space: its code point is not 9 to 13, nor 28 to 32. */
  ghost predicate HasText(s: string) {
    exists i :: 0 <= i < |s| && (s[i] as int < 9 || 13 < s[i] as int < 28 || s[i] as int > 32)
  }

  lemma BlankIs(s: string)
    ensures Blank(s) <==> !HasText(s)
  {
    if i :| 0 <= i < |s| && (s[i] as int < 9 || 13 < s[i] as int < 28 || s[i] as int > 32) { assert s[i] in s; }
    if !HasText(s) {
      forall ch | ch in s ensures ch == ' ' || '\t' <= ch <= '\r' || '\U{1C}' <= ch <= '\U{1F}' {
        var i :| 0 <= i < |s| && s[i] == ch;
      }
    }
  }

  /** Every row that counts has the currency and a product that is not blank. */
  ghost predicate Governed(scope: Scope, rows: seq<Row>, currency: string) {
    forall r :: r in rows && Counts(scope, r) ==> r.currency == currency && HasText(r.product)
  }

  /** Rows that count are non-negative and total at most t. */
  ghost predicate ScopeBounded(scope: Scope, rows: seq<Row>, t: int) {
    (forall r :: r in rows && Counts(scope, r) ==> r.revenue >= 0) && ScopeRevenue(scope, rows) <= t
  }

  /** One trace row per product that either period sold, in product order, with what each period sold of it. */
  ghost predicate TracesRows(trace: seq<TraceRow>, baseline: Scope, comparison: Scope, rows: seq<Row>) {
    && (forall i, j ::
         0 <= i < j < |trace| ==> StringLe(trace[i].product, trace[j].product) && trace[i].product != trace[j].product)
    && (forall p :: p in Sold(baseline, rows) + Sold(comparison, rows) <==>
         exists i :: 0 <= i < |trace| && trace[i].product == p)
    && forall i :: 0 <= i < |trace| ==> RowSays(trace[i], baseline, comparison, rows)
  }

  ghost predicate RowSays(t: TraceRow, baseline: Scope, comparison: Scope, rows: seq<Row>) {
    && t.inBaseline == (t.product in Sold(baseline, rows)) && t.inComparison == (t.product in Sold(comparison, rows))
    && t.baselineRevenue == SoldRevenue(baseline, rows, {t.product})
    && t.comparisonRevenue == SoldRevenue(comparison, rows, {t.product})
    && t.contribution == InContext(t.comparisonRevenue - t.baselineRevenue)
    && t.component == if !t.inBaseline then Entry else if !t.inComparison then Exit else Continuing
  }

  /**
   * The components are what entering, leaving and staying products sold, and they make up the observed change or not.
   */
  ghost predicate SplitsRows(o: Outcome, baseline: Scope, comparison: Scope, rows: seq<Row>, observed: int) {
    var b, c := Sold(baseline, rows), Sold(comparison, rows);
    && o.entry == SoldRevenue(comparison, rows, c - b)
    && o.exit == -SoldRevenue(baseline, rows, b - c)
    && o.continuing == SoldRevenue(comparison, rows, b * c) - SoldRevenue(baseline, rows, b * c)
    && o.componentSum == o.entry + o.exit + o.continuing
       == ScopeRevenue(comparison, rows) - ScopeRevenue(baseline, rows)
    && (o.reconciliation == 0 <==> observed == ScopeRevenue(comparison, rows) - ScopeRevenue(baseline, rows))
  }

  lemma CountsIsSelected(scope: Scope, r: Row)
    ensures Selects(scope, r) <==> Counts(scope, r)
  {
    if Counts(scope, r) {
      forall f | f in scope.filters ensures f.0 in r.fields && r.fields[f.0] == f.1 {
        var i :| 0 <= i < |scope.filters| && scope.filters[i] == f;
      }
    }
  }

  lemma {:induction false} LinesAre(scope: Scope, rows: seq<Row>)
    ensures forall r :: r in Lines(scope, rows) <==> r in rows && Counts(scope, r)
    ensures Products(Lines(scope, rows)) == Sold(scope, rows)
  {
    hide Selects, Counts;
    if rows != [] {
      var n := |rows| - 1;
      LinesAre(scope, rows[..n]);
      CountsIsSelected(scope, rows[n]);
      assert forall r :: r in rows <==> r in rows[..n] || r == rows[n];
    }
  }

  lemma {:induction false} SoldAppend(scope: Scope, rows: seq<Row>, r: Row, products: set<string>)
    ensures SoldRevenue(scope, rows + [r], products)
         == SoldRevenue(scope, rows, products) + if Counts(scope, r) && r.product in products then r.revenue else 0
    ensures ScopeRevenue(scope, rows + [r]) == ScopeRevenue(scope, rows) + if Counts(scope, r) then r.revenue else 0
  {
    hide Counts;
    if rows == [] {
      assert [] + [r] == [r] && [r][1..] == [];
    } else {
      assert (rows + [r])[1..] == rows[1..] + [r];
      SoldAppend(scope, rows[1..], r, products);
    }
  }

  lemma {:induction false} LinesRevenue(scope: Scope, rows: seq<Row>, products: set<string>)
    ensures TotalOf(Lines(scope, rows), products) == SoldRevenue(scope, rows, products)
    ensures Total(Lines(scope, rows)) == ScopeRevenue(scope, rows)
  {
    if rows != [] {
      var n := |rows| - 1;
      LinesRevenue(scope, rows[..n], products);
      assert rows == rows[..n] + [rows[n]];
      SoldAppend(scope, rows[..n], rows[n], products);
      CountsIsSelected(scope, rows[n]);
      hide Selects, Counts, SoldRevenue, ScopeRevenue;
      RevenueAppend(Lines(scope, rows[..n]), rows[n], products);
      assert Lines(scope, rows[..n]) + [] == Lines(scope, rows[..n]);
    }
  }

  lemma RevenueAppend(lines: seq<Row>, l: Row, products: set<string>)
    ensures TotalOf(lines + [l], products) == TotalOf(lines, products) + if l.product in products then l.revenue else 0
    ensures Total(lines + [l]) == Total(lines) + l.revenue
  {
    assert (lines + [l])[..|lines|] == lines;
  }

  lemma GovernedLines(scope: Scope, rows: seq<Row>, currency: string)
    ensures InCurrency(Lines(scope, rows), currency) && Named(Lines(scope, rows)) <==> Governed(scope, rows, currency)
  {
    hide Lines, Counts, Blank, HasText, Total, ScopeRevenue;
    forall s ensures Blank(s) <==> !HasText(s) { BlankIs(s); }
    LinesAre(scope, rows);
    LinesRevenue(scope, rows, {});
  }

  lemma BoundedLines(scope: Scope, rows: seq<Row>, t: int)
    ensures NonNegative(Lines(scope, rows)) && Total(Lines(scope, rows)) <= t <==> ScopeBounded(scope, rows, t)
  {
    hide Lines, Counts, Total, ScopeRevenue;
    LinesAre(scope, rows);
    LinesRevenue(scope, rows, {});
  }

  lemma TracesSay(trace: seq<TraceRow>, baseline: Scope, comparison: Scope, rows: seq<Row>)
    requires Traces(trace, Lines(baseline, rows), Lines(comparison, rows))
    ensures TracesRows(trace, baseline, comparison, rows)
  {
    hide Lines, Counts, TotalOf, SoldRevenue, InContext, StringLe, Products, Sold;
    LinesAre(baseline, rows);
    LinesAre(comparison, rows);
    forall i | 0 <= i < |trace| ensures RowSays(trace[i], baseline, comparison, rows) {
      LinesRevenue(baseline, rows, {trace[i].product});
      LinesRevenue(comparison, rows, {trace[i].product});
      assert RowTells(trace[i], Lines(baseline, rows), Lines(comparison, rows));
      TracedSold(trace, baseline, comparison, rows, i);
    }
  }

  lemma TracedSold(trace: seq<TraceRow>, baseline: Scope, comparison: Scope, rows: seq<Row>, i: nat)
    requires i < |trace| && Traces(trace, Lines(baseline, rows), Lines(comparison, rows))
    ensures trace[i].inBaseline || trace[i].inComparison
  {
    hide Lines, TotalOf, InContext, StringLe;
    assert trace[i].product in Products(Lines(baseline, rows)) + Products(Lines(comparison, rows));
    assert RowTells(trace[i], Lines(baseline, rows), Lines(comparison, rows));
  }

  lemma SplitsSay(o: Outcome, baseline: Scope, comparison: Scope, rows: seq<Row>, observed: int)
    requires Decomposes(o, Lines(baseline, rows), Lines(comparison, rows), observed)
    ensures SplitsRows(o, baseline, comparison, rows, observed)
  {
    hide Lines, Counts, TotalOf, Total, SoldRevenue, ScopeRevenue, Products, Sold;
    LinesAre(baseline, rows);
    LinesAre(comparison, rows);
    var b, c := Sold(baseline, rows), Sold(comparison, rows);
    LinesRevenue(comparison, rows, c - b);
    LinesRevenue(baseline, rows, b - c);
    LinesRevenue(comparison, rows, b * c);
    LinesRevenue(baseline, rows, b * c);
  }

  /** A row that does not count, put anywhere, changes neither what is sold nor its revenue. */
  lemma {:induction false} UncountedRow(scope: Scope, before: seq<Row>, r: Row, after: seq<Row>)
    requires !Counts(scope, r)
    ensures Lines(scope, before + [r] + after) == Lines(scope, before + after)
  {
    CountsIsSelected(scope, r);
    hide Selects, Counts;
    if after == [] {
      assert before + [r] + after == before + [r] && before + after == before && (before + [r])[..|before|] == before;
      assert Lines(scope, before) + [] == Lines(scope, before);
    } else {
      var n := |after| - 1;
      UncountedRow(scope, before, r, after[..n]);
      var with, without := before + [r] + after, before + after;
      assert with[..|with| - 1] == before + [r] + after[..n] && without[..|without| - 1] == before + after[..n];
    }
  }

  /** What Decompose answers. */
  ghost function Decomposed(baselineScope: Scope, comparisonScope: Scope, dataset: seq<Row>, currency: string,
                            observed: int): Result<Outcome, R4Error> {
    var b, c := Lines(baselineScope, dataset), Lines(comparisonScope, dataset);
    if !InCurrency(b, currency) then Err(CurrencyMismatch)
    else if !Named(b) then Err(MalformedProduct)
    else if !InCurrency(c, currency) then Err(CurrencyMismatch)
    else if !Named(c) then Err(MalformedProduct)
    else Ok(OutcomeOf(b, c, observed))
  }

  /** Rows that count for neither period may be put in or left out anywhere. */
  lemma UncountedRowsIgnored(b: Scope, c: Scope, before: seq<Row>, r: Row, after: seq<Row>, currency: string,
                             observed: int)
    requires !Counts(b, r) && !Counts(c, r)
    ensures Decomposed(b, c, before + [r] + after, currency, observed)
         == Decomposed(b, c, before + after, currency, observed)
  {
    hide Lines, Counts, OutcomeOf, InCurrency, Named;
    UncountedRow(b, before, r, after);
    UncountedRow(c, before, r, after);
  }

  lemma RevenuesSay(scope: Scope, rows: seq<Row>, currency: string)
    ensures var lines := Lines(scope, rows);
      && (InCurrency(lines, currency) && Named(lines) <==> Governed(scope, rows, currency))
      && (!InCurrency(lines, currency) <==> exists x :: x in rows && Counts(scope, x) && x.currency != currency)
      && Grouped(lines).Keys == Sold(scope, rows)
      && forall p :: p in Grouped(lines) ==> Grouped(lines)[p] == SoldRevenue(scope, rows, {p})
  {
    hide Lines, Grouped, Counts, Blank, SoldRevenue, TotalOf;
    var lines := Lines(scope, rows);
    GovernedLines(scope, rows, currency);
    LinesAre(scope, rows);
    GroupedKeys(lines);
    forall p | p in Grouped(lines) ensures Grouped(lines)[p] == SoldRevenue(scope, rows, {p}) {
      OneProduct(lines, p);
      LinesRevenue(scope, rows, {p});
    }
  }

  /** _product_revenues: a foreign currency is reported first, then an unnamed product. */
  method ProductRevenues(scope: Scope, rows: seq<Row>, currency: string) returns (r: Result<map<string, int>, R4Error>)
    ensures var lines := Lines(scope, rows);
      r == if !InCurrency(lines, currency) then Err(CurrencyMismatch) else if !Named(lines) then Err(MalformedProduct)
        else Ok(Grouped(lines))
    ensures r.Ok? <==> Governed(scope, rows, currency)
    ensures r == Err(CurrencyMismatch) <==> exists x :: x in rows && Counts(scope, x) && x.currency != currency
    ensures r.Ok? ==> r.value.Keys == Sold(scope, rows)
    ensures r.Ok? ==> forall p :: p in r.value ==> r.value[p] == SoldRevenue(scope, rows, {p})
  {
    hide Selects, Grouped, Lines, InCurrency, Named, Blank, Counts, Sold, SoldRevenue;
    RevenuesSay(scope, rows, currency);
    LinesOfNothing(scope, currency);
    var values: map<string, int> := map[];
    var inCurrency, named := true, true;
    for i := 0 to |rows|
      invariant values == Grouped(Lines(scope, rows[..i]))
      invariant inCurrency == InCurrency(Lines(scope, rows[..i]), currency)
      invariant named == Named(Lines(scope, rows[..i]))
    {
      LinesStep(scope, rows, i);
      if Selects(scope, rows[i]) {
        LineAdded(Lines(scope, rows[..i]), rows[i], currency);
        inCurrency := inCurrency && rows[i].currency == currency;
        named := named && !Blank(rows[i].product);
        values := values[rows[i].product := Get(values, rows[i].product) + rows[i].revenue];
      }
    }
    assert rows[..|rows|] == rows;
    r := if !inCurrency then Err(CurrencyMismatch) else if !named then Err(MalformedProduct) else Ok(values);
  }

  /** execute_r4_decomposition: the trace, its component sums, and the reconciliation against the observed change. */
  method Decompose(baselineScope: Scope, comparisonScope: Scope, dataset: seq<Row>, currency: string, observed: int)
    returns (r: Result<Outcome, R4Error>)
    ensures r == Decomposed(baselineScope, comparisonScope, dataset, currency, observed)
    ensures r.Ok? <==> Governed(baselineScope, dataset, currency) && Governed(comparisonScope, dataset, currency)
    ensures r.Ok? ==> TracesRows(r.value.rows, baselineScope, comparisonScope, dataset)
    ensures r.Ok? ==>
      var b, c := Sold(baselineScope, dataset), Sold(comparisonScope, dataset);
      r.value.entryCount == |c - b| && r.value.exitCount == |b - c| && r.value.continuingCount == |b * c|
    ensures
      r.Ok? && ScopeBounded(baselineScope, dataset, Limit()) && ScopeBounded(comparisonScope, dataset, Limit()) ==>
      SplitsRows(r.value, baselineScope, comparisonScope, dataset, observed)
  {
    hide Grouped, RowsFor, ContextSum, Count, InContext, Lines, InCurrency, Named, Traces, Decomposes, Counts, Sold,
         Governed, ScopeBounded, TracesRows, SplitsRows;
    GovernedLines(baselineScope, dataset, currency);
    GovernedLines(comparisonScope, dataset, currency);
    LinesAre(baselineScope, dataset);
    LinesAre(comparisonScope, dataset);
    BoundedLines(baselineScope, dataset, Limit());
    BoundedLines(comparisonScope, dataset, Limit());
    var baseline := ProductRevenues(baselineScope, dataset, currency);
    if baseline.Err? { return Err(baseline.error); }
    var comparison := ProductRevenues(comparisonScope, dataset, currency);
    if comparison.Err? { return Err(comparison.error); }
    var rows := TraceRows(baseline.value, comparison.value);
    ghost var keys := TracedProducts(rows);
    var o := Summary(rows, observed);
    ghost var b, c := Lines(baselineScope, dataset), Lines(comparisonScope, dataset);
    GroupedKeys(b);
    GroupedKeys(c);
    TraceTells(keys, b, c);
    CountsAre(keys, b, c);
    TracedKeysUnique(keys, b, c);
    TracesSay(rows, baselineScope, comparisonScope, dataset);
    if WithinContext(b, c) {
      SummaryExact(keys, b, c, observed);
      SplitsSay(o, baselineScope, comparisonScope, dataset, observed);
    }
    return Ok(o);
  }

  /** The products of some lines, one by one. */
  function Names(lines: seq<Row>): seq<string> {
    seq(|lines|, i requires 0 <= i < |lines| => lines[i].product)
  }

  /** The products of either period in order. */
  function TracedKeys(baseline: seq<Row>, comparison: seq<Row>): seq<string> {
    SortedSet(Names(baseline) + Names(comparison), StringLe)
  }

  lemma TracedKeysSpec(baseline: seq<Row>, comparison: seq<Row>)
    ensures StrictlySorted(TracedKeys(baseline, comparison), StringLe)
    ensures Members(TracedKeys(baseline, comparison)) == Products(baseline) + Products(comparison)
  {
    hide StringLe, SortedSet, StrictlySorted;
    StringOrder();
    SortedSetSpec(Names(baseline) + Names(comparison), StringLe);
    NamesAreProducts(baseline);
    NamesAreProducts(comparison);
  }

  lemma NamesAreProducts(lines: seq<Row>)
    ensures forall k :: k in Names(lines) <==> k in Products(lines)
  {
    forall k | k in Products(lines) ensures k in Names(lines) {
      var l :| l in lines && l.product == k;
      var i :| 0 <= i < |lines| && lines[i] == l;
      assert Names(lines)[i] == k;
    }
  }

  lemma TracedKeysUnique(keys: seq<string>, baseline: seq<Row>, comparison: seq<Row>)
    requires StrictlySorted(keys, StringLe) && Members(keys) == Products(baseline) + Products(comparison)
    ensures keys == TracedKeys(baseline, comparison)
  {
    hide StringLe, TracedKeys, StrictlySorted;
    StringOrder();
    TracedKeysSpec(baseline, comparison);
    var other := TracedKeys(baseline, comparison);
    assert forall k :: (k in keys <==> k in Members(keys)) && (k in other <==> k in Members(other));
    StrictlySortedUnique(keys, other, StringLe);
  }

  /** What the decomposition of two lists of lines reports. */
  function OutcomeOf(baseline: seq<Row>, comparison: seq<Row>, observed: int): Outcome {
    Summary(RowsFor(TracedKeys(baseline, comparison), Grouped(baseline), Grouped(comparison)), observed)
  }

  function Summary(rows: seq<TraceRow>, observed: int): Outcome {
    var entry, exit, continuing := ContextSum(rows, Entry), ContextSum(rows, Exit), ContextSum(rows, Continuing);
    var sum := InContext(InContext(entry + exit) + continuing);
    Outcome(rows, entry, exit, continuing, sum, InContext(observed - sum), Count(rows, Entry), Count(rows, Exit),
            Count(rows, Continuing))
  }

  lemma ProductRowTells(k: string, baseline: seq<Row>, comparison: seq<Row>)
    requires k in Products(baseline) + Products(comparison)
    ensures RowTells(RowFor(k, Grouped(baseline), Grouped(comparison)), baseline, comparison)
  {
    hide Grouped, InContext, TotalOf;
    GroupedKeys(baseline);
    GroupedKeys(comparison);
    OneProduct(baseline, k);
    OneProduct(comparison, k);
  }

  lemma TraceTells(keys: seq<string>, baseline: seq<Row>, comparison: seq<Row>)
    requires StrictlySorted(keys, StringLe) && Members(keys) == Products(baseline) + Products(comparison)
    ensures Traces(RowsFor(keys, Grouped(baseline), Grouped(comparison)), baseline, comparison)
  {
    hide Grouped, RowsFor, InContext, TotalOf, StringLe, RowTells;
    var b, c := Grouped(baseline), Grouped(comparison);
    var rows := RowsFor(keys, b, c);
    RowsLength(keys, b, c);
    forall i | 0 <= i < |rows| ensures RowTells(rows[i], baseline, comparison) {
      assert keys[i] in Members(keys);
      ProductRowTells(keys[i], baseline, comparison);
    }
    forall p | p in Products(baseline) + Products(comparison)
      ensures exists i :: 0 <= i < |rows| && rows[i].product == p
    {
      assert p in Members(keys);
      var i :| 0 <= i < |keys| && keys[i] == p;
      assert rows[i].product == p;
    }
  }

  lemma CountsAre(keys: seq<string>, baseline: seq<Row>, comparison: seq<Row>)
    requires StrictlySorted(keys, StringLe) && Members(keys) == Products(baseline) + Products(comparison)
    ensures var rows := RowsFor(keys, Grouped(baseline), Grouped(comparison));
            var b, c := Products(baseline), Products(comparison);
            Count(rows, Entry) == |c - b| && Count(rows, Exit) == |b - c| && Count(rows, Continuing) == |b * c|
  {
    hide Grouped, RowsFor, Count, StringLe, StrictlySorted;
    GroupedKeys(baseline);
    GroupedKeys(comparison);
    var b, c := Products(baseline), Products(comparison);
    assert forall k :: k in keys ==> k in Members(keys);
    CountIs(keys, Grouped(baseline), Grouped(comparison), Entry);
    CountIs(keys, Grouped(baseline), Grouped(comparison), Exit);
    CountIs(keys, Grouped(baseline), Grouped(comparison), Continuing);
    assert (c - b) * Members(keys) == c - b && (b - c) * Members(keys) == b - c && (b * c) * Members(keys) == b * c;
  }

  /**
   * Within 28 digits the summary is exact, and it reconciles exactly when the observed change is the difference of the
   * totals.
   */
  lemma SummaryExact(keys: seq<string>, baseline: seq<Row>, comparison: seq<Row>, observed: int)
    requires StrictlySorted(keys, StringLe) && Members(keys) == Products(baseline) + Products(comparison)
    requires WithinContext(baseline, comparison)
    ensures Decomposes(Summary(RowsFor(keys, Grouped(baseline), Grouped(comparison)), observed), baseline, comparison,
                       observed)
  {
    hide Grouped, RowsFor, ContextSum, Count, InContext, Fits, TotalOf, Total, WithinContext;
    var b, c := Products(baseline), Products(comparison);
    ComponentsExact(keys, baseline, comparison);
    PartsAddUp(baseline, comparison);
    ExactStep(baseline, comparison, (b - c) + (c - b));
    AllProducts(baseline, b + c);
    AllProducts(comparison, b + c);
    ExactStep(baseline, comparison, b + c);
    ContextZero(observed - (Total(comparison) - Total(baseline)));
  }

  // ---- How far the decomposition reconciles ----

  /** Measured against the difference of the ungrouped totals, the decomposition of the dataset leaves nothing over. */
  ghost predicate Reconciles(baselineScope: Scope, comparisonScope: Scope, dataset: seq<Row>) {
    OutcomeOf(Lines(baselineScope, dataset), Lines(comparisonScope, dataset),
              ScopeRevenue(comparisonScope, dataset) - ScopeRevenue(baselineScope, dataset)).reconciliation == 0
  }

  ghost predicate InBounds(baselineScope: Scope, comparisonScope: Scope, dataset: seq<Row>, t: int) {
    ScopeBounded(baselineScope, dataset, t) && ScopeBounded(comparisonScope, dataset, t)
  }

  /** All datasets with non-negative lines and both totals of at most t reconcile. */
  ghost predicate ReconcilesUpTo(t: int) {
    forall b, c, dataset :: InBounds(b, c, dataset, t) ==> Reconciles(b, c, dataset)
  }

  /** Ten to the 28th is exactly how far totals may go. */
  lemma ReconcilesExactlyUpTo(t: int)
    ensures ReconcilesUpTo(t) <==> t <= Limit()
  {
    hide Reconciles, InBounds, Limit;
    if t <= Limit() {
      forall b, c, dataset | InBounds(b, c, dataset, t) ensures Reconciles(b, c, dataset) {
        WithinReconciles(b, c, dataset, t);
      }
    } else {
      RoundsPastContext();
      Outside(t);
      assert !Reconciles(PAST, PRESENT, Unreconciled());
    }
  }

  lemma WithinReconciles(b: Scope, c: Scope, dataset: seq<Row>, t: int)
    requires InBounds(b, c, dataset, t) && t <= Limit()
    ensures Reconciles(b, c, dataset)
  {
    hide OutcomeOf, Lines, Total, Limit, ScopeRevenue, ScopeBounded;
    var baseline, comparison := Lines(b, dataset), Lines(c, dataset);
    BoundedLines(b, dataset, t);
    BoundedLines(c, dataset, t);
    LinesRevenue(b, dataset, {});
    LinesRevenue(c, dataset, {});
    OutcomeExact(baseline, comparison, Total(comparison) - Total(baseline));
  }

  /** Within bounds the outcome decomposes the difference of the totals. */
  lemma OutcomeExact(baseline: seq<Row>, comparison: seq<Row>, observed: int)
    requires WithinContext(baseline, comparison)
    ensures Decomposes(OutcomeOf(baseline, comparison, observed), baseline, comparison, observed)
  {
    hide WithinContext, Decomposes, TracedKeys, StrictlySorted, StringLe;
    TracedKeysSpec(baseline, comparison);
    SummaryExact(TracedKeys(baseline, comparison), baseline, comparison, observed);
  }

  const PAST: Scope := Scope(1, 1, [])
  const PRESENT: Scope := Scope(2, 2, [])

  /** Two products sold on the second day, for 10^28 units and for one. */
  function Unreconciled(): seq<Row> {
    [Row(true, 2, "1", "a", Limit(), "USD", map[]), Row(true, 2, "2", "b", 1, "USD", map[])]
  }

  lemma UnreconciledTotal()
    ensures Total(Unreconciled()) == Limit() + 1
  {
    hide Limit;
    var rows := Unreconciled();
    var none: seq<Row> := [];
    assert rows[..1] == [rows[0]] && [rows[0]][..0] == none;
    assert Total(none) == 0;
    assert Total([rows[0]]) == Limit();
  }

  lemma UnreconciledSelected()
    ensures forall r :: r in Unreconciled() ==> !Selects(PAST, r) && Selects(PRESENT, r) && r.revenue >= 0
  {
    hide Limit;
  }

  lemma UnreconciledLines()
    ensures Lines(PAST, Unreconciled()) == [] && Lines(PRESENT, Unreconciled()) == Unreconciled()
    ensures Total(Unreconciled()) == Limit() + 1 && NonNegative(Unreconciled())
  {
    hide Limit, Lines, Total, Selects, Grouped, InCurrency;
    var rows := Unreconciled();
    UnreconciledTotal();
    UnreconciledSelected();
    assert rows[0] in rows && rows[1] in rows;
    LinesOfNothing(PAST, "USD");
    LinesOfNothing(PRESENT, "USD");
    LinesStep(PAST, rows, 0);
    LinesStep(PAST, rows, 1);
    LinesStep(PRESENT, rows, 0);
    LinesStep(PRESENT, rows, 1);
    assert rows[..0] == [] && rows[..2] == rows;
  }

  lemma Outside(t: int)
    requires t > Limit()
    ensures InBounds(PAST, PRESENT, Unreconciled(), t)
  {
    hide Limit, Unreconciled, Lines, Total, ScopeRevenue, ScopeBounded;
    BoundedLines(PAST, Unreconciled(), t);
    BoundedLines(PRESENT, Unreconciled(), t);
    UnreconciledLines();
    LimitIsTens();
    assert Total([]) == 0 by { NothingTotal(); }
  }

  lemma NothingTotal()
    ensures Total([]) == 0
  {}

  /** That dataset is one unit past the limit; Decompose accepts it, and its component sum loses the unit. */
  lemma RoundsPastContext()
    ensures var rows := Unreconciled();
      && InCurrency(rows, "USD") && Named(rows) && Total(rows) == Limit() + 1
      && OutcomeOf([], rows, Limit() + 1).reconciliation == 1
    ensures !Reconciles(PAST, PRESENT, Unreconciled())
  {
    hide Limit, InContext, Summary, Lines, Grouped, Total, TracedKeys, ScopeRevenue;
    LinesRevenue(PAST, Unreconciled(), {});
    LinesRevenue(PRESENT, Unreconciled(), {});
    UnreconciledLines();
    NothingTotal();
    UnreconciledAccepted();
    UnreconciledRows();
    UnreconciledSummary();
  }

  lemma UnreconciledAccepted()
    ensures InCurrency(Unreconciled(), "USD") && Named(Unreconciled())
  {
    hide Limit;
    assert 'a' in "a" && 'b' in "b";
  }

  ghost function UnreconciledRow(product: string, revenue: int): TraceRow {
    TraceRow(product, false, true, 0, revenue, InContext(revenue), Entry)
  }

  lemma UnreconciledRows()
    ensures var rows := Unreconciled();
      RowsFor(TracedKeys([], rows), Grouped([]), Grouped(rows))
        == [UnreconciledRow("a", Limit()), UnreconciledRow("b", 1)]
  {
    hide InContext, Limit;
    var rows := Unreconciled();
    var keys := ["a", "b"];
    assert rows[..1] == [rows[0]] && [rows[0]][..0] == [];
    assert Grouped([]) == map[] && Grouped([rows[0]]) == map["a" := Limit()];
    assert Grouped(rows) == map["a" := Limit(), "b" := 1];
    assert StringLe("a", "b") && Products(rows) == {"a", "b"} && Products([]) == {} && Members(keys) == {"a", "b"};
    TracedKeysUnique(keys, [], rows);
    TwoRows("a", "b", Grouped([]), Grouped(rows));
  }

  lemma UnreconciledSummary()
    ensures Summary([UnreconciledRow("a", Limit()), UnreconciledRow("b", 1)], Limit() + 1).reconciliation == 1
  {
    hide Limit, InContext;
    LimitIsTens();
    FittingUnchanged(0);
    FittingUnchanged(1);
    FittingUnchanged(Limit());
    JustPastLimit(1);
    SumOfTwo([UnreconciledRow("a", Limit()), UnreconciledRow("b", 1)]);
  }

  lemma TwoRows(k: string, l: string, b: map<string, int>, c: map<string, int>)
    ensures RowsFor([k, l], b, c) == [RowFor(k, b, c), RowFor(l, b, c)]
  {
    hide RowFor;
    RowsLength([k, l], b, c);
  }

  lemma SumOfTwo(rows: seq<TraceRow>)
    requires |rows| == 2 && rows[0].component == rows[1].component == Entry
    ensures ContextSum(rows, Entry) == InContext(InContext(rows[0].contribution) + rows[1].contribution)
    ensures ContextSum(rows, Exit) == 0 && ContextSum(rows, Continuing) == 0
  {
    hide InContext;
    assert rows[..1] == [rows[0]] && [rows[0]][..0] == [];
    assert forall k :: ContextSum([], k) == 0;
    assert forall k :: ContextSum([rows[0]], k) == if k == Entry then InContext(rows[0].contribution) else 0;
  }
}
