/**
 * From rows to reconciliation: the plan's Revenues are sums over its populations' rows, and R4 splits their change
 * without remainder.
 */
module GovernedReconciliation {
  import opened Common
  import opened PlanModel
  import opened DecimalArithmetic
  import opened DecimalContext
  import opened PlanExecution
  import opened ExecutionGuarantees
  import opened GovernedExecution
  import D = Decomposition

  /** Period and filters of each population. */
  type Scopes = PopulationId -> D.Scope

  /** The revenue of a population's rows, and how many orders they belong to. */
  ghost function RevenueOver(dataset: seq<D.Row>, scopes: Scopes, p: Population): int {
    D.ScopeRevenue(scopes(p.id), dataset)
  }

  ghost function OrdersOver(dataset: seq<D.Row>, scopes: Scopes, p: Population): nat {
    |set r | r in dataset && D.Counts(scopes(p.id), r) :: r.order|
  }

  /** The two aggregate queries answer from the rows of the node's population. */
  ghost predicate AnswersFromRows(c: Context, dataset: seq<D.Row>, scopes: Scopes) {
    forall id: NodeId :: id.metric in {Revenue, Orders} && SinglePopulation(c, id).Some? ==>
      var p := SinglePopulation(c, id).value;
      c.foreign(id).total == RevenueOver(dataset, scopes, p) && c.foreign(id).orders == OrdersOver(dataset, scopes, p)
  }

  /** Revenue is the sum over the eligible rows of its population, and Orders their number of distinct orders. */
  lemma LeafFromRows(c: Context, dataset: seq<D.Row>, scopes: Scopes, executable: set<NodeId>, id: NodeId)
    requires AnswersFromRows(c, dataset, scopes) && id.metric in {Revenue, Orders} && Denote(c, executable, id).Some?
    ensures SinglePopulation(c, id).Some?
    ensures var p := SinglePopulation(c, id).value;
      && Describes(Denote(c, executable, id).value, id.metric, p)
      && Denote(c, executable, id).value.value
         == if id.metric == Revenue then MetricValue.Money(Decimal(RevenueOver(dataset, scopes, p), c.exponent))
            else Count(OrdersOver(dataset, scopes, p))
  {
    hide Denote, RevenueOver, OrdersOver, SinglePopulation;
    LeafCompletesExactly(c, executable, id);
  }

  /** AOV of a governed plan is the revenue of its population's rows over their number of orders. */
  lemma AovFromRows(registry: Registry, rank: MetricId -> nat, request: AnalysisRequest, sufficiency: SufficiencyResult,
                    plan: Plan, c: Context, i: nat, dataset: seq<D.Row>, scopes: Scopes)
    requires Planned(registry, rank, request, sufficiency, plan, c) && i < |plan.nodes| && plan.nodes[i].metric == Aov
    requires AnswersFromRows(c, dataset, scopes)
    ensures var id := plan.nodes[i].id;
      && SinglePopulation(c, id).Some?
      && var p := SinglePopulation(c, id).value;
         Denote(c, ExecutableSet(plan.nodes), id).Some? ==>
           AovIs(Denote(c, ExecutableSet(plan.nodes), id).value.value, RevenueOver(dataset, scopes, p), c.exponent,
                 OrdersOver(dataset, scopes, p))
  {
    AovPlanned(registry, rank, request, sufficiency, plan, c, i);
    hide Planned, Denote, AovIs, RevenueOver, OrdersOver, SinglePopulation, ExecutableSet;
    var id := plan.nodes[i].id;
    AovCompletesExactly(c, ExecutableSet(plan.nodes), id, id.deps[0], id.deps[1]);
  }

  lemma SameUnits(a: int, b: int, u: real)
    requires u > 0.0 && Times(a as real, u) == Times(b as real, u)
    ensures a == b
  {
    assert (a as real - b as real) * u == 0.0;
  }

  lemma TotalsWithin(dataset: seq<D.Row>, scope: D.Scope)
    requires D.ScopeBounded(scope, dataset, Limit())
    ensures 0 <= D.ScopeRevenue(scope, dataset) < Pow10(38)
  {
    hide Pow10, D.Total, D.ScopeBounded, D.ScopeRevenue, D.Lines;
    D.BoundedLines(scope, dataset, Limit());
    D.LinesRevenue(scope, dataset, {});
    D.PartWithinTotal(D.Lines(scope, dataset), {});
    PowBelow(CONTEXT, PRECISION);
  }

  lemma {:induction false} PowBelow(a: nat, b: nat)
    requires a < b
    ensures Pow10(a) < Pow10(b)
  {
    PowStep(b - 1);
    if a < b - 1 { PowBelow(a, b - 1); }
  }

  /** Read in units, the change is that of the populations' revenues, and fed to R4 it leaves nothing over. */
  ghost predicate ReconcilesChange(c: Context, dataset: seq<D.Row>, scopes: Scopes, past: Population,
                                   present: Population, v: MetricValue, observed: int) {
    && v.Money?
    && (Value(v.amount) == Times(observed as real, Unit(c.exponent)) <==>
         observed == RevenueOver(dataset, scopes, present) - RevenueOver(dataset, scopes, past))
    && (Value(v.amount) == Times(observed as real, Unit(c.exponent)) ==> forall currency ::
         var r := D.Decomposed(scopes(past.id), scopes(present.id), dataset, currency, observed);
         r.Ok? ==>
           D.SplitsRows(r.value, scopes(past.id), scopes(present.id), dataset, observed) && r.value.reconciliation == 0)
  }

  ghost predicate WithinLimit(dataset: seq<D.Row>, scopes: Scopes, past: Population, present: Population) {
    D.ScopeBounded(scopes(past.id), dataset, Limit()) && D.ScopeBounded(scopes(present.id), dataset, Limit())
  }

  /** The Revenue Change that a governed plan computes makes the decomposition of the same rows reconcile. */
  lemma ChangeReconciles(registry: Registry, rank: MetricId -> nat, request: AnalysisRequest,
                         sufficiency: SufficiencyResult, plan: Plan, c: Context, i: nat,
                         dataset: seq<D.Row>, scopes: Scopes, observed: int)
    requires Planned(registry, rank, request, sufficiency, plan, c) && i < |plan.nodes|
    requires plan.nodes[i].metric == RevenueChange
    requires AnswersFromRows(c, dataset, scopes)
    ensures PopulationPair(c, plan.nodes[i].id).Some?
    ensures var (past, present) := PopulationPair(c, plan.nodes[i].id).value;
      var result := Denote(c, ExecutableSet(plan.nodes), plan.nodes[i].id);
      WithinLimit(dataset, scopes, past, present) && result.Some? ==>
        ReconcilesChange(c, dataset, scopes, past, present, result.value.value, observed)
  {
    ChangePlanned(registry, rank, request, sufficiency, plan, c, i);
    var id := plan.nodes[i].id;
    ChangeFromRows(c, dataset, scopes, ExecutableSet(plan.nodes), id, id.deps[0], id.deps[1], observed);
    hide Planned, Denote, ExecutableSet;
  }

  lemma ChangeFromRows(c: Context, dataset: seq<D.Row>, scopes: Scopes, executable: set<NodeId>, id: NodeId,
                       before: NodeId, after: NodeId, observed: int)
    requires ChangeShape(c, id, before, after) && AnswersFromRows(c, dataset, scopes)
    ensures var (past, present) := PopulationPair(c, id).value;
      var result := Denote(c, executable, id);
      WithinLimit(dataset, scopes, past, present) && result.Some? ==>
        ReconcilesChange(c, dataset, scopes, past, present, result.value.value, observed)
  {
    hide Denote, SinglePopulation, PopulationPair, Value, Unit, Times, Pow10, D.ScopeBounded, D.ScopeRevenue,
         D.Decomposed, D.SplitsRows;
    var (past, present) := PopulationPair(c, id).value;
    ChangeCompletesExactly(c, executable, id, before, after);
    if WithinLimit(dataset, scopes, past, present) && Denote(c, executable, id).Some? {
      TotalsWithin(dataset, scopes(past.id));
      TotalsWithin(dataset, scopes(present.id));
      var change := RevenueOver(dataset, scopes, present) - RevenueOver(dataset, scopes, past);
      var amount := Denote(c, executable, id).value.value.amount;
      assert Value(amount) == Times(change as real, Unit(c.exponent));
      if Value(amount) == Times(observed as real, Unit(c.exponent)) {
        SameUnits(observed, change, Unit(c.exponent));
        forall currency | D.Decomposed(scopes(past.id), scopes(present.id), dataset, currency, observed).Ok?
          ensures var r := D.Decomposed(scopes(past.id), scopes(present.id), dataset, currency, observed);
            && D.SplitsRows(r.value, scopes(past.id), scopes(present.id), dataset, observed)
            && r.value.reconciliation == 0
        {
          SplitWithin(dataset, scopes(past.id), scopes(present.id), currency, observed);
        }
      }
    }
  }

  lemma SplitWithin(dataset: seq<D.Row>, past: D.Scope, present: D.Scope, currency: string, observed: int)
    requires D.ScopeBounded(past, dataset, Limit()) && D.ScopeBounded(present, dataset, Limit())
    requires D.Decomposed(past, present, dataset, currency, observed).Ok?
    requires observed == D.ScopeRevenue(present, dataset) - D.ScopeRevenue(past, dataset)
    ensures var o := D.Decomposed(past, present, dataset, currency, observed).value;
      D.SplitsRows(o, past, present, dataset, observed) && o.reconciliation == 0
  {
    hide D.ScopeBounded, D.ScopeRevenue, D.SoldRevenue, D.Sold, D.Lines, D.OutcomeOf, D.InCurrency, D.Named,
         D.Decomposes;
    var b, c := D.Lines(past, dataset), D.Lines(present, dataset);
    D.BoundedLines(past, dataset, Limit());
    D.BoundedLines(present, dataset, Limit());
    D.OutcomeExact(b, c, observed);
    D.SplitsSay(D.OutcomeOf(b, c, observed), past, present, dataset, observed);
  }
}
