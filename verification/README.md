# Commerce Lens: verified model of the deterministic engine

Commerce Lens answers questions about revenue with governed, reproducible numbers. This project models its deterministic
engine in Dafny and proves the guarantees that the rest of the system relies on:

- **Planning.** The memoised dependency compiler is proved equal to a plain tree recursion; the stack worklist authorizes
  exactly what eligible roots reach; everything the planner builds passes the separate structural validator, exactly when the
  requested metrics are distinct; and what a plan holds is said of its nodes alone, without the functions that build it
  (`PlanModel`, `PlanBuilder`, `PlanAuthorization`, `PlanValidation`, `PlanCompilation`, `ExecutionPlanning`, `PlanSelfCheck`,
  `PlanContents`, `PlanOrder`, `ApprovedRegistry`).
- **Execution.** The single pass with a result map is proved equal to a semantics that only follows dependencies; failures stay
  within the nodes that depend on them; every record is explained by the records before it; metric values are as exact as
  their decimal policy allows (`PlanExecution`, `ExecutionGuarantees`, `ExecutionRecords`, `GovernedExecution`,
  `DecimalArithmetic`).
- **R4.** The split of a revenue change by product entry, exit and continuation reconciles with the ungrouped totals, and with
  the Revenue Change that a governed plan computes from the same rows (`Decomposition`, `GovernedReconciliation`).
- **R7.** Tie-averaged ranks, Spearman's rho, full ISO weeks, the decision boundary, and how far the baseline median stays
  without influence on the outcome (`Ranks`, `Spearman`, `DiagnosticWeeks`, `DiagnosticResult`, `MedianInfluence`).
- **Canonical numerics and quality.** The decimal text normaliser, the DECIMAL allocator and the cross-row checks
  (`DecimalText`, `DecimalType`, `CrossRowQuality`).
- **Gates.** Stage traces over several chains, proposal grouping and deduplication, pre-test governance, scope filters
  (`StageTrace`, `Proposals`, `ProposalAccounting`, `Governance`, `ScopeFilters`).

`Common` and `Ordering` hold the result types and Python's sorting. Check everything with `dafny verify dfyconfig.toml`.

## How things are represented

- A content fingerprint is an injective function of its content. A plan node's identity is the content itself, so identities of
  different nodes differ by construction; a candidate's fingerprint is an arbitrary function, assumed injective only where a
  lemma says so.
- Money is an integer number of units at one common scale, and a `Decimal` is a coefficient and an exponent. Rounding is half-even
  and modelled wherever decimals are computed: 38 digits for AOV and Revenue Change, and Python's default 28 digits
  (`DecimalContext`) for R4's differences and sums and for R7's weekly sums, median and deviations. R7's median and deviations may
  need a tenth of a unit, so they are kept in tenths.
- Dates are day numbers, day 1 being a Monday.
- Rho is kept as an exact numerator and two sums of squares; `rho <= -1/2` becomes a comparison of squares, proved equal to
  comparing the quotient with the boundary.
- Queries over the canonical rows are folds over a sequence of rows. What other outside calls answer for a plan node is one
  arbitrary value per node (`PlanExecution.Foreign`).
- Metric registries are finite maps with a rank that decreases along dependencies; the approved registry is one of them and is
  proved to qualify.

## Where the code does not keep a promise

- A request that repeats a metric, and is otherwise admissible and constructible, makes the planner's closing self-check raise
  after all construction is done. `ApprovedRegistry.PlanRepeatedRequest` is an example taken through the planner,
  `PlanSelfCheck.BuilderSatisfiesValidator` the exact condition.
- `calculate_r7_result` indexes an empty list when some comparison week has rows and no baseline week has.
  `DiagnosticResult.IndexErrorExample` is an example; `DiagnosticResult.RaisesExactly` shows that these are all the failing inputs.
- R7's weekly sums, median and deviations run in the default decimal context. With non-negative lines, revenue is conserved for
  all inputs whose weekly totals stay within t units exactly when t is at most 10^28, and the order of transactions is
  irrelevant exactly up to 10^28 + 5 (`DiagnosticResult.ConservedExactlyUpTo`, `DiagnosticResult.OrderIrrelevantExactlyUpTo`).
  The median is exact for all values up to t, and so are the deviations from it, exactly when t is at most 10^27
  (`DiagnosticResult.ReferenceExactlyUpTo`, `DiagnosticResult.DeviationsExactlyUpTo`).
- Subtracting the baseline median is meant to keep the order of the weeks, and with it rho. For all inputs with non-negative
  lines and weekly totals within t it keeps the order, and the outcome that revenue itself would give, exactly when t is at
  most 10^27 + 2 (`MedianInfluence.DeviationsInOrderExactlyUpTo`, `MedianInfluence.OutcomeIgnoresMedianExactlyUpTo`).
  `MedianInfluence.MedianDecides` is a dataset of eight weeks one unit past that bound, taken through the calculation: two
  different revenues get equal deviations, and the outcome is contradicted where revenue itself would not meet the criterion.
- R4's sums run in the same context. All datasets with non-negative lines and both totals within t units reconcile exactly when t
  is at most 10^28 (`Decomposition.ReconcilesExactlyUpTo`); `Decomposition.RoundsPastContext` is a dataset one unit past it that
  does not. A single dataset past the bound may still reconcile.
- The decimal normaliser accepts a text with a newline before a closing parenthesis, and its output then is not a decimal's
  text: `(12\n)` becomes `-12\n`. `DecimalText.NewlineInside` is the example, `DecimalText.AcceptedShape` the exact condition.
- The DECIMAL allocator may refuse numbers that some column would hold: the number one with 38 zeros after the point
  (`DecimalType.RefusesRepresentable`), and the least number with 38 digits after the point (`DecimalType.FractionRefused`). Of
  the numbers it refuses, a column with a digit before the point holds exactly those that it would accept with their needless
  zeros dropped, and some column of at most 38 digits holds exactly those for which, so trimmed, the digits before the point of
  each fit beside the scale of every other (`DecimalType.RefusesNeedlesslyExactly`).
- The evidence check compares the filters of a Revenue Change's two populations with Python's equality, under which the number
  one and the truth value are equal: different filters may pass (`ScopeFilters.EqualNumbersAccepted`). Apart from such pairs
  populations are refused exactly when their canonical filters differ (`ScopeFilters.MismatchRefused`), and populations that
  pass select the same rows (`ScopeFilters.AcceptedSelectAlike`).

## Model

| member | source | states |
|---|---|---|
| `PlanBuilder.Builder.AddNode` | src/commerce_lens/engine/plan_builder.py:71-121 | Memoised compilation returns the node, or the error, of the plain tree recursion; it only appends, the keys it adds are exactly those reachable from the requested key, and the nodes it adds are those of the tree, dependencies first, that are not there yet. |
| `PlanBuilder.Builder.AddDependencies` | src/commerce_lens/engine/plan_builder.py:78-89 | The loop over dependencies and their period roles compiles the children in order and stops at the first error. |
| `PlanBuilder.Builder.Find` | src/commerce_lens/engine/plan_builder.py:73-75 | The lookup of a memoised key always finds a node, and it is the compiled one. |
| `PlanBuilder.Builder.Append` | src/commerce_lens/engine/plan_builder.py:119-121 | Appending keeps one node per key, with everything reachable from a key at or before its node. |
| `PlanBuilder.DependenciesEarlier` | src/commerce_lens/engine/plan_builder.py:71-128 | Every dependency of a node is the identity of a strictly earlier node. |
| `PlanBuilder.IdsDistinct` | src/commerce_lens/engine/plan_builder.py:93-105 | No two nodes of a plan share an identity, and an identity determines its key. |
| `PlanBuilder.CompileAllOk` | src/commerce_lens/engine/plan_builder.py:78-109 | A node's dependency list holds the compiled identity of each child key, in order. |
| `PlanAuthorization.AuthorizeClosure` | src/commerce_lens/engine/plan_builder.py:411-419 | The stack loop ends; the carriers of the metric grow by exactly what the root reaches, even when earlier roots shared dependencies, and no other metric changes. |
| `PlanAuthorization.AuthorizeRoots` | src/commerce_lens/engine/plan_builder.py:421-424 | After all roots of one metric its carriers have grown by exactly what the roots reach. |
| `PlanAuthorization.AuthorizeAll` | src/commerce_lens/engine/plan_builder.py:408-424 | A node carries a requested metric iff the metric is eligible and one of its roots reaches the node. |
| `PlanAuthorization.ReachClosed` | src/commerce_lens/engine/plan_builder.py:411-419 | What a root reaches is closed under dependencies, so the early continue never hides a node. |
| `PlanCompilation.GroupEntries` | src/commerce_lens/engine/plan_builder.py:495-499 | Every eligibility entry of a requested metric is filed under it, in order. |
| `PlanCompilation.EligibilityByMetric` | src/commerce_lens/engine/plan_builder.py:491-506 | Each requested metric has exactly one entry, or the request is refused with the right one of two errors. |
| `PlanCompilation.AddKeys` | src/commerce_lens/engine/plan_builder.py:126-128 | The root keys of one metric compile in order, and the memo table grows by exactly their closure. |
| `PlanCompilation.AddRoots` | src/commerce_lens/engine/plan_builder.py:123-128 | The root map lists exactly the compiled roots of every requested metric, the memo table holds exactly the keys they reach, and the nodes stand where a walk through the root trees first meets them; which roots a metric has is `PlanContents.RootKeysAre`. |
| `PlanCompilation.FinalizeNode` | src/commerce_lens/engine/plan_builder.py:435-467 | A node is blocked iff it carries nothing, iff it has failures; a blocked node names exactly its blocked dependencies, and why each ineligible metric it is a root of may not run. |
| `PlanCompilation.Finalize` | src/commerce_lens/engine/plan_builder.py:432-470 | Finalization keeps every draft node in place and the lookup of each dependency is defined. |
| `ExecutionPlanning.CheckMetrics` | src/commerce_lens/engine/plan_builder.py:53-59 | Requests pass iff every metric is governed at the governed version; otherwise the first offending metric decides the error. |
| `ExecutionPlanning.DefinePopulations` | src/commerce_lens/engine/populations.py:26-49 | Populations exist iff there is a canonical dataset and both records name the same dataset; then they are baseline and comparison for each governed grouping, in order. |
| `ExecutionPlanning.Admit` | src/commerce_lens/engine/plan_builder.py:42-66 | The tests before construction, in the order of the source, each with its own error. |
| `ExecutionPlanning.AdmissionExactly` | src/commerce_lens/engine/plan_builder.py:42-66 | A request is refused before construction iff it is not admissible. |
| `PlanContents.AdmissionMeans` | src/commerce_lens/engine/plan_builder.py:42-66 | A request is refused before construction for exactly the first reason there is, said of its metrics and eligibility entries. |
| `ExecutionPlanning.CoherentTopological` | src/commerce_lens/engine/plan_builder.py:71-121 | Builder output is topologically ordered with distinct identities. |
| `ExecutionPlanning.RootIsNode` | src/commerce_lens/engine/plan_builder.py:123-128 | Every root of a requested metric is a node of the plan, of that metric. |
| `ExecutionPlanning.Authorize` | src/commerce_lens/engine/plan_builder.py:400-470 | On the final nodes authorization is exact reachability from eligible roots, in the order of the request, and states and failures follow it. |
| `ExecutionPlanning.Construct` | src/commerce_lens/engine/plan_builder.py:42-177 | Construction ends with a plan holding one node per reachable key with exact authorization, or with an error: for a request that is not admissible, the error of the first test it fails. What such a plan holds is `PlanContents.BuiltDescribed`. |
| `PlanContents.BuiltDescribed` | src/commerce_lens/engine/plan_builder.py:31-179 | Of every plan construction ends with, over its nodes alone: both periods of each requested single-period metric and one node of any other, at the requested or required grouping; one node per metric, role and grouping; exactly the dependencies the definitions call for; each node's fields; whom each node serves; why each blocked node is blocked; and no other node. |
| `PlanContents.RootKeysAre` | src/commerce_lens/engine/plan_builder.py:282-332 | The roots of a metric are its nodes at both roles, or the one without a role, at the grouping it is planned at. |
| `PlanContents.ChildrenAre` | src/commerce_lens/engine/plan_builder.py:288-359 | The children of a node are exactly what its applicable dependencies call for: metric, role and grouping. |
| `PlanContents.CarriedExactly` | src/commerce_lens/engine/plan_builder.py:400-424 | A node carries exactly the eligible metrics that it, or a node depending on it, was requested for. |
| `PlanContents.NothingElse` | src/commerce_lens/engine/plan_builder.py:71-128 | Every node stands for a request or is a dependency of a node. |
| `PlanContents.WhyHolds` | src/commerce_lens/engine/plan_builder.py:435-467 | A blocked node's failures are exactly the reasons why its requests are denied, or that it serves none, and its blocked dependencies. |
| `PlanOrder.BuiltInOrder` | src/commerce_lens/engine/plan_builder.py:31-179 | The order of everything a plan lists: requested, eligible and blocked metrics, populations, each node's metrics, populations and dependencies, a baseline before its comparison. |
| `PlanOrder.NodesWalked` | src/commerce_lens/engine/plan_builder.py:71-128 | The nodes of a plan are those of the request's root trees, metric by metric and baseline before comparison, dependencies first, each where it is first met: the memo table changes nothing but repetitions. |
| `PlanOrder.ChildrenLabelled` | src/commerce_lens/engine/plan_builder.py:78-109 | The children of a node follow the entries of its definition; of one entry the baseline comes first. |
| `PlanValidation.Validate` | src/commerce_lens/engine/plan_builder.py:182-279 | The validator accepts exactly the sound plans: `Sound` says of the lists of nodes and populations what a plan has to be. |
| `PlanValidation.AcceptsExactly` | src/commerce_lens/engine/plan_builder.py:182-279 | The checks, made through lookup tables, hold iff every node is defined, serves eligible metrics its dependencies serve too, covers populations of its grouping and period, an AOV's dependencies share one scope, and a Revenue Change compares the Revenue of two roles; and the header and roots are right. |
| `PlanValidation.ComparesAccepted` | src/commerce_lens/engine/plan_builder.py:362-397 | The loop over seen roles accepts exactly when one dependency is the ungrouped Revenue of the one population and the other that of the other. |
| `PlanSelfCheck.StateHolds` | src/commerce_lens/engine/plan_builder.py:221-245 | In a built plan an executable node has authorization from eligible metrics only, and all its dependencies are executable with at least its authorization. |
| `PlanSelfCheck.AovHolds` | src/commerce_lens/engine/plan_builder.py:257-267 | The dependencies of a built AOV node share one population list and one period list. |
| `PlanSelfCheck.RevenueChangeHolds` | src/commerce_lens/engine/plan_builder.py:362-397 | A built Revenue Change node passes the baseline and comparison check of its two Revenue dependencies. |
| `PlanSelfCheck.PopulationRefsClosed` | src/commerce_lens/engine/plan_builder.py:305-314 | A node refers to its role's population for single-period metrics and to both for comparisons. |
| `PlanSelfCheck.HeaderHolds` | src/commerce_lens/engine/plan_builder.py:193-209 | The header checks of a built plan pass iff the requested metrics are distinct. |
| `PlanSelfCheck.RootHolds` | src/commerce_lens/engine/plan_builder.py:270-277 | Every eligible requested metric has an executable root that carries it. |
| `PlanSelfCheck.BuilderSatisfiesValidator` | src/commerce_lens/engine/plan_builder.py:61-178 | A plan whose construction reaches the end passes the validator iff the requested metrics are distinct. |
| `PlanSelfCheck.BuildExecutionPlan` | src/commerce_lens/engine/plan_builder.py:31-179 | The planner returns a built and sound plan; over a governed registry it fails iff construction refuses or a metric repeats, and a repeated metric alone ends in the self-check. |
| `PlanModel.UniqueLength` | src/commerce_lens/engine/plan_builder.py:199-202 | Comparing lengths before and after dropping repetitions detects exactly the repeated metrics. |
| `PlanModel.UniqueFirsts` | src/commerce_lens/engine/plan_builder.py:137-137 | Dropping repetitions keeps the first occurrences, in order. |
| `ApprovedRegistry.ConstructibleExactly` | src/commerce_lens/engine/plan_builder.py:316-359 | Over a closed registry construction succeeds iff the requested grouping is among those each requested metric supports, or the metric supports none and requires one. |
| `ApprovedRegistry.ApprovedQualifies` | src/commerce_lens/metrics/registry.py:214-555 | The approved registry has no cycle, is closed, and meets the shape that AOV and Revenue Change checks need. |
| `ApprovedRegistry.BuildGovernedPlan` | src/commerce_lens/engine/plan_builder.py:31-179 | Planning succeeds exactly for admissible requests, dataset references included, of distinct metrics at groupings they support; the plan is sound and holds exactly what was requested, in order. |
| `ApprovedRegistry.PlanRepeatedRequest` | src/commerce_lens/engine/plan_builder.py:178-202 | Revenue requested twice, admissible over the approved registry, is planned in full and then refused by the self-check. |
| `ApprovedRegistry.RepeatedAdmissible` | src/commerce_lens/engine/plan_builder.py:42-66 | That request passes every test before construction. |
| `PlanExecution.Executor.Execute` | src/commerce_lens/engine/execution.py:92-192 | The pass over a plan in any order accumulates what the fold over its executable nodes says. |
| `PlanExecution.RunRecords` | src/commerce_lens/engine/execution.py:92-192 | In any order each executable entry has one record, in plan order, and each completed record one result. |
| `PlanExecution.RunDenotes` | src/commerce_lens/engine/execution.py:92-192 | Over a topologically ordered plan the pass computes a semantics that only follows dependencies. |
| `PlanExecution.DependenciesDecide` | src/commerce_lens/engine/execution.py:395-411 | Which dependency results AOV and Revenue Change find depends only on the entries of their dependencies. |
| `PlanExecution.ResultsAgree` | src/commerce_lens/engine/execution.py:92-192 | In a topologically ordered plan the result map holds exactly what the dependencies denote when a node runs. |
| `PlanExecution.CompletionNeedsDependencies` | src/commerce_lens/engine/execution.py:395-569 | AOV and Revenue Change complete only if all their dependencies completed. |
| `PlanExecution.FailureIsolation` | src/commerce_lens/engine/execution.py:150-184 | Of two runs that differ in the answers for one node, every record of a node that does not depend on it is the same, failure detail included. |
| `ExecutionGuarantees.LeafCompletesExactly` | src/commerce_lens/engine/execution.py:257-330 | Revenue and Orders complete iff nothing outside fails and the node stands on one ungrouped population, whose identity and period the result carries. |
| `ExecutionGuarantees.AovCompletesExactly` | src/commerce_lens/engine/execution.py:331-411 | AOV completes iff it and both dependencies do, over its own population and period; its value is undefined at zero orders and otherwise the exact quotient to 38 significant digits, half to even. |
| `ExecutionGuarantees.ChangeCompletesExactly` | src/commerce_lens/engine/execution.py:414-569 | Revenue Change completes iff it and both Revenues do in one currency, over the comparison population; for non-negative totals of at most 38 digits it is the exact difference. |
| `ExecutionRecords.ExecutePlan` | src/commerce_lens/engine/execution.py:70-192 | Each executable entry has exactly one record, in plan order, and every record is explained by those before it; over a topologically ordered plan no node has two, and a record completes iff its node denotes a value. |
| `ExecutionRecords.StepExplained` | src/commerce_lens/engine/execution.py:92-184 | A completed node is one of the four metrics with a result of its own metric, population and value; a failed one gives the first true reason, and any other metric fails as unsupported whatever the outside answers. |
| `ExecutionRecords.RunExplained` | src/commerce_lens/engine/execution.py:92-192 | In any order, every record of a pass is explained by the completed records before it. |
| `ExecutionGuarantees.CompletedAre` | src/commerce_lens/engine/execution.py:186-190 | Each completed record contributes exactly one result. |
| `GovernedExecution.AovPlanned` | src/commerce_lens/metrics/registry.py:214-555 | Every AOV node of a plan over the approved registry depends on Revenue and Orders of its own period and population. |
| `GovernedExecution.ChangePlanned` | src/commerce_lens/engine/execution.py:475-511 | Every Revenue Change node of such a plan yields its baseline and comparison populations and depends on the Revenue of each. |
| `GovernedExecution.AovCompletes` | src/commerce_lens/engine/execution.py:331-411 | In a governed plan an executable AOV completes exactly when nothing outside fails for it, its Revenue and its Orders. |
| `GovernedExecution.ChangeCompletes` | src/commerce_lens/engine/execution.py:414-569 | In a governed plan an executable Revenue Change completes exactly when nothing outside fails for it and its Revenues, in one currency. |
| `GovernedExecution.PlanAndExecute` | src/commerce_lens/engine/execution.py:70-192 | Planning then executing over the approved registry: exactly when a plan exists, that it holds what was requested, and that its records are those of the dependency semantics, each explained by those before it. |
| `GovernedReconciliation.LeafFromRows` | src/commerce_lens/engine/execution.py:257-330 | When the two queries answer from the rows, Revenue is the sum over the rows that are eligible, dated in the period and meet the filters, and Orders the number of their distinct orders. |
| `GovernedReconciliation.AovFromRows` | src/commerce_lens/engine/execution.py:331-411 | AOV of a governed plan is the revenue of its population's rows over their number of orders, to 38 significant digits. |
| `GovernedReconciliation.ChangeReconciles` | src/commerce_lens/application/r4_service.py:205-213 | Within 10^28 the Revenue Change that a governed plan computes from the rows is the difference of their totals, and fed to R4 it leaves a reconciliation difference of zero. |
| `DecimalArithmetic.RoundedNearest` | src/commerce_lens/engine/execution.py:374-377 | Half-even rounding picks the nearest integer, the even one on a tie. |
| `DecimalArithmetic.QuotientAccurate` | src/commerce_lens/engine/execution.py:374-377 | Division gives the exact quotient to 38 significant digits, half to even, for either sign. |
| `DecimalArithmetic.FittingIsExact` | src/commerce_lens/engine/execution.py:443-446 | An integer of at most 38 digits is not rounded. |
| `DecimalArithmetic.RevenueChangeExact` | src/commerce_lens/engine/execution.py:443-446 | The difference of two non-negative totals of at most 38 digits at one scale is exact. |
| `Decomposition.ProductRevenues` | src/commerce_lens/engine/r4_execution.py:174-200 | Per-product revenues of the rows that are eligible, dated in the period and meet the filters; a foreign currency is reported first, then an unnamed product. |
| `Decomposition.LinesAre` | src/commerce_lens/engine/r4_execution.py:203-216 | The governed lines are exactly the rows that are eligible, dated in the period and meet every filter. |
| `Decomposition.LinesRevenue` | src/commerce_lens/engine/r4_execution.py:203-216 | Their revenue, in all and over any products, is the sum over the rows with those conditions written out. |
| `Decomposition.UncountedRowsIgnored` | src/commerce_lens/engine/r4_execution.py:203-216 | Rows that are excluded, dated outside both periods or fail a filter may be inserted anywhere without changing the outcome. |
| `Decomposition.GroupedAddsUp` | src/commerce_lens/engine/r4_execution.py:186-200 | Adding per-product sums over any products gives the revenue of the lines of those products. |
| `Decomposition.TraceRows` | src/commerce_lens/engine/r4_execution.py:219-265 | One row per product of either period, in strict product order. |
| `Decomposition.TraceTells` | src/commerce_lens/engine/r4_execution.py:226-262 | Each row tells its product's presence, revenues and component as the lines have them, and no product is missing. |
| `Decomposition.PrefixSumExact` | src/commerce_lens/engine/r4_execution.py:87-93 | With non-negative lines and totals up to 10^28 no step of a component sum rounds. |
| `Decomposition.CountIs` | src/commerce_lens/engine/r4_execution.py:106-108 | The component counts are the sizes of the product sets. |
| `Decomposition.Decompose` | src/commerce_lens/engine/r4_execution.py:51-134 | Said of the rows with eligibility, dates and filters written out: entry, exit and continuing are the revenues of entering, leaving and staying products; they add up to the difference of the ungrouped totals, and the reconciliation is zero iff the observed change is that difference. |
| `Decomposition.RoundsPastContext` | src/commerce_lens/engine/r4_execution.py:87-94 | A dataset of two lines, one unit past 10^28, that is accepted and leaves a difference of one. |
| `Decomposition.ReconcilesExactlyUpTo` | src/commerce_lens/engine/r4_execution.py:51-94 | All datasets with non-negative lines and both totals up to t reconcile iff t is at most 10^28. |
| `DecimalContext.FittingUnchanged` | src/commerce_lens/engine/r4_execution.py:87-94 | Up to 10^28 a result is not rounded. |
| `DecimalContext.JustPastLimit` | src/commerce_lens/engine/r4_execution.py:87-94 | Just past 10^28 the last digit is lost, half to even. |
| `DecimalContext.ContextRounds` | src/commerce_lens/engine/r4_execution.py:87-94 | Every result has at most 28 significant digits, is the nearest such number, and even on a tie. |
| `Ranks.AverageRanks` | src/commerce_lens/engine/r7_execution.py:45-58 | Each position gets the number of smaller values plus half of one more than the number of equal ones. |
| `Ranks.RanksSum` | src/commerce_lens/engine/r7_execution.py:45-58 | Ranks sum to n(n+1)/2 for any tie pattern. |
| `Ranks.RanksPreserveOrder` | src/commerce_lens/engine/r7_execution.py:45-58 | Ranks compare exactly as the values do. |
| `Ranks.RanksDependOnOrder` | src/commerce_lens/engine/r7_execution.py:45-58 | Vectors with the same order pattern have the same ranks. |
| `Ranks.RanksReflect` | src/commerce_lens/engine/r7_execution.py:45-58 | Reversing the order pattern reflects every rank. |
| `Ranks.RanksPermute` | src/commerce_lens/engine/r7_execution.py:45-58 | The rank of a value does not depend on the order of the input. |
| `Spearman.ComputeRho` | src/commerce_lens/engine/r7_execution.py:61-74 | Rho of two lists is undefined for different lengths and empty lists, and otherwise computed from their average ranks. |
| `Spearman.CauchySchwarz` | src/commerce_lens/engine/r7_execution.py:66-71 | The squared numerator is at most the product of the sums of squares. |
| `Spearman.RhoUndefinedExactly` | src/commerce_lens/engine/r7_execution.py:61-70 | Rho is undefined iff the lists differ in length, are empty, or one of them is constant. |
| `Spearman.WithinRoot` | src/commerce_lens/engine/r7_execution.py:69-74 | Whatever number bounds the root from above bounds the numerator in both directions, so the quotient never leaves [-1, 1]. |
| `Spearman.ClampIsIdentity` | src/commerce_lens/engine/r7_execution.py:71-74 | In exact arithmetic clamping to [-1, 1] changes nothing. |
| `Spearman.RhoDependsOnOrder` | src/commerce_lens/engine/r7_execution.py:61-74 | Rho depends only on the order patterns of the two lists. |
| `Spearman.IncreasingMapInvariant` | src/commerce_lens/engine/r7_execution.py:61-74 | Strictly increasing maps of either list leave rho unchanged. |
| `Spearman.RhoSymmetric` | src/commerce_lens/engine/r7_execution.py:61-74 | Exchanging the lists keeps the numerator and exchanges the two sums of squares. |
| `Spearman.DecreasingMapNegates` | src/commerce_lens/engine/r7_execution.py:61-74 | A strictly decreasing map of either list negates rho. |
| `Spearman.BoundaryByCuts` | src/commerce_lens/diagnostic/r7_evaluation.py:13-20 | The boundary tests hold iff the doubled numerator passes every number below the root, with no root assumed. |
| `Spearman.BoundaryExact` | src/commerce_lens/diagnostic/r7_evaluation.py:13-20 | The root-free boundary tests decide exactly as comparing the number with -1/2 and 1/2. |
| `Spearman.ReversalSwapsOutcome` | src/commerce_lens/diagnostic/r7_evaluation.py:13-20 | Reversing either list swaps CRITERION_MET with PROPOSITION_CONTRADICTED and nothing else. |
| `DiagnosticWeeks.FullIsoWeeks` | src/commerce_lens/engine/r7_execution.py:77-84 | Exactly the Monday to Sunday weeks (section 4.1.4 of ISO 8601:2004) inside the period, ascending and disjoint. |
| `DiagnosticWeeks.IsoWeeksUnique` | src/commerce_lens/engine/r7_execution.py:77-84 | That description determines the list of weeks. |
| `DiagnosticWeeks.ObservePeriod` | src/commerce_lens/engine/r7_execution.py:100-113 | The weeks of one period become observations and exclusions in order. |
| `DiagnosticWeeks.DistanceMeans` | src/commerce_lens/engine/r7_execution.py:108-112 | A week's distance lies between zero, iff its products are the baseline's, and one, iff they share none. |
| `DiagnosticResult.ObservedDistances` | src/commerce_lens/engine/r7_execution.py:101-112 | Of every calculated result, with B the products of the rows dated in the baseline period: each observation's products are those of the rows of its week, its distance times their union with B is the number of products in only one of the two, and excluded weeks have no rows. |
| `DiagnosticResult.ListedByWeek` | src/commerce_lens/engine/r7_execution.py:96-113 | Observations and exclusions are listed baseline first, each role's weeks ascending. |
| `DiagnosticResult.ResultRanks` | src/commerce_lens/engine/r7_execution.py:114-136 | The ranks are those among the listed distances and deviations, the deviations are from the median of the listed baseline revenues, and rho is that of the two lists exactly when no reason is given. |
| `DiagnosticWeeks.WeekAccounting` | src/commerce_lens/engine/r7_execution.py:100-113 | Each week of a period is observed or excluded exactly once. |
| `DiagnosticWeeks.SumWeek` | src/commerce_lens/engine/r7_execution.py:108-108 | A week's revenue is the running sum of its rows, every addition rounded to 28 digits. |
| `DiagnosticWeeks.WeekSumSaturates` | src/commerce_lens/engine/r7_execution.py:108-108 | With non-negative lines the running sum is exact up to 10^28 and stays there for totals up to five past it, in any order. |
| `DiagnosticWeeks.RevenueConserved` | src/commerce_lens/engine/r7_execution.py:104-113 | With non-negative lines and weekly totals up to 10^28, weekly revenues sum to the revenue of the rows dated in full weeks. |
| `DiagnosticResult.CalculateResult` | src/commerce_lens/engine/r7_execution.py:87-149 | The loops compute the result function that the lemmas below are about, with sums, median and deviations in the decimal context. |
| `DiagnosticResult.ReasonsDecideRho` | src/commerce_lens/engine/r7_execution.py:128-136 | For all inputs rho is defined iff no guard fires, and the denominator reason never arises. |
| `DiagnosticResult.ReasonsExactly` | src/commerce_lens/engine/r7_execution.py:128-136 | A result counts its weeks by role and gives exactly the reasons that hold of its observations, in order. |
| `DiagnosticResult.ReferenceExact` | src/commerce_lens/engine/r7_execution.py:114-115 | For revenues between zero and 10^27 the median does not round. |
| `DiagnosticResult.ReferenceExactlyUpTo` | src/commerce_lens/engine/r7_execution.py:114-115 | The median is exact for all values up to t iff t is at most 10^27. |
| `DiagnosticResult.DeviationsExactlyUpTo` | src/commerce_lens/engine/r7_execution.py:114-116 | The deviations from the median of the baseline revenues are exact for all weeks with revenues up to t iff t is at most 10^27. |
| `DiagnosticResult.ConclusiveRho` | src/commerce_lens/engine/r7_execution.py:128-136 | With weekly totals up to two past 10^27 a defined rho is the correlation of distance with revenue itself. |
| `DiagnosticResult.ConclusiveExactly` | src/commerce_lens/engine/r7_execution.py:128-136 | With weekly totals up to two past 10^27 a result is conclusive iff each role has four weeks and neither distances nor revenues are constant; the total-weeks reason never comes alone. |
| `DiagnosticResult.MedianHalves` | src/commerce_lens/engine/r7_execution.py:114-115 | At least half of the values are at most the exact median and at least half are at least it. |
| `DiagnosticResult.OutcomeIgnoresMedian` | src/commerce_lens/engine/r7_execution.py:114-118 | With weekly totals up to two past 10^27, subtracting the baseline median cannot change the outcome. |
| `MedianInfluence.DeviationsInOrderExactlyUpTo` | src/commerce_lens/engine/r7_execution.py:113-116 | All inputs with weekly totals up to t have their deviations in the order of the weekly revenues iff t is at most two past 10^27. |
| `MedianInfluence.OutcomeIgnoresMedianExactlyUpTo` | src/commerce_lens/engine/r7_execution.py:113-132 | All inputs with weekly totals up to t have the outcome of revenue itself iff t is at most two past 10^27. |
| `MedianInfluence.MedianDecides` | src/commerce_lens/engine/r7_execution.py:87-132 | Eight weeks with revenues up to three past 10^27, taken through the calculation: two different revenues deviate equally, and the outcome is not that of revenue. |
| `DiagnosticResult.StateMatchesOutcome` | src/commerce_lens/diagnostic/r7_evaluation.py:23-34 | The evaluation state is a validated outcome iff the outcome is evaluated. |
| `DiagnosticResult.RaisesExactly` | src/commerce_lens/engine/r7_execution.py:114-127 | The calculation raises iff some comparison week has rows and no baseline week has. |
| `DiagnosticResult.IndexErrorExample` | src/commerce_lens/engine/r7_execution.py:114-127 | One comparison sale and a baseline period without a full week: the calculation raises. |
| `DiagnosticResult.EachWeekOnce` | src/commerce_lens/engine/r7_execution.py:96-113 | Over both periods each full week is accounted for exactly once, under its role. |
| `DiagnosticResult.RevenueIsConserved` | src/commerce_lens/engine/r7_execution.py:96-113 | For non-overlapping periods and weekly totals up to 10^28, all weekly revenues sum to the revenue dated in full weeks. |
| `DiagnosticResult.ConservedExactlyUpTo` | src/commerce_lens/engine/r7_execution.py:96-113 | That holds for all inputs with weekly totals up to t iff t is at most 10^28. |
| `DiagnosticResult.TransactionOrderIrrelevant` | src/commerce_lens/engine/r7_execution.py:87-149 | With weekly totals up to five past 10^28, reordering the transactions changes nothing. |
| `DiagnosticResult.OrderIrrelevantExactlyUpTo` | src/commerce_lens/engine/r7_execution.py:87-149 | That holds for all inputs with weekly totals up to t iff t is at most 10^28 + 5. |
| `DecimalText.ParseDecimalText` | src/commerce_lens/canonical/service.py:716-760 | Rewriting text and sign step by step computes the parsing function that the lemmas below are about. |
| `DecimalText.CurrencyGreedy` | src/commerce_lens/canonical/service.py:52-52 | The currency expression matches iff some split into spaces and amount exists, and takes the split with the most spaces. |
| `DecimalText.ContinentalHasComma` | src/commerce_lens/canonical/service.py:754-756 | The last ambiguity test never succeeds where the source makes it. |
| `DecimalText.AcceptedIs` | src/commerce_lens/canonical/service.py:716-760 | Accepted text is its sign, then its digits and point in order with nothing lost, then a newline exactly when one survives. |
| `DecimalText.AcceptedShape` | src/commerce_lens/canonical/service.py:53-54 | Accepted output has the shape of a decimal iff no newline survives, a condition on the input. |
| `DecimalText.AcceptedExactly` | src/commerce_lens/canonical/service.py:744-757 | Once currency and signs are gone a text is accepted iff it is digits with an optional fraction, plain or grouped in threes from the right, give or take a final newline. |
| `DecimalText.FailsExactly` | src/commerce_lens/canonical/service.py:716-760 | A text fails with a code iff under its parentheses and signs it has a currency that the authority does not cover, another currency than its own, a comma with no point after it, or commas that do not group in threes. |
| `DecimalText.GroupedExactly` | src/commerce_lens/canonical/service.py:54-54 | The grouping expression matches only groupings in threes of more than three digits. |
| `DecimalText.NewlineInside` | src/commerce_lens/canonical/service.py:720-724 | An accepted text whose output is not a decimal's text. |
| `DecimalText.AcceptedIsFixed` | src/commerce_lens/canonical/service.py:716-760 | Accepted output parses to itself under any currency authority. |
| `DecimalText.GroupedRoundTrip` | src/commerce_lens/canonical/service.py:747-751 | Any digits grouped in threes, with any fraction, parse back to themselves. |
| `DecimalText.DecoratedRoundTrip` | src/commerce_lens/canonical/service.py:720-743 | Parentheses negate a grouped number; a matching currency code or sign changes nothing; a code without authority is refused. |
| `DecimalType.DecimalTypeFor` | src/commerce_lens/canonical/service.py:1142-1156 | The column has width at most 38 and holds every value exactly, with the largest scale and integer digits asked for; refusal happens iff a value is too precise or the two together are too wide. |
| `DecimalType.FittingIsHeld` | src/commerce_lens/canonical/service.py:1159-1169 | A value within a column's scale and integer digits is an exact multiple of the column's unit with no more digits than its width. |
| `DecimalType.RefusesRepresentable` | src/commerce_lens/canonical/service.py:1149-1150 | A refused number, written with needless zeros, that DECIMAL(1, 0) holds. |
| `DecimalType.HeldFits` | src/commerce_lens/canonical/service.py:1159-1169 | A column that holds a number written without needless zeros has its scale and its digits before the point. |
| `DecimalType.TrimKeeps` | src/commerce_lens/canonical/service.py:1159-1169 | Dropping needless zeros keeps the number denoted and leaves none. |
| `DecimalType.StorableExactly` | src/commerce_lens/canonical/service.py:1142-1156 | Some column of at most 38 digits, so many of them before the point, holds all the numbers iff they are finite and, with needless zeros dropped, the digits before the point of each, or that many, fit beside the scale of every other. |
| `DecimalType.RefusesNeedlesslyExactly` | src/commerce_lens/canonical/service.py:1142-1156 | Refused numbers have a column with a digit before the point iff they are accepted once trimmed, and any column at all iff they fit once trimmed. |
| `DecimalType.FractionRefused` | src/commerce_lens/canonical/service.py:1146-1155 | Without that digit refusal is not necessary: a number that DECIMAL(38, 38) holds is refused. |
| `CrossRowQuality.ScanRows` | src/commerce_lens/canonical/service.py:842-873 | One pass reports every repeated identity and every change of an order's date, row by row, and collects names and currencies. |
| `CrossRowQuality.DuplicateCount` | src/commerce_lens/canonical/service.py:850-861 | Repeated-identity findings and distinct identities together number the rows. |
| `CrossRowQuality.ClashStep` | src/commerce_lens/canonical/service.py:862-872 | Comparing each row with the last date of its order only still finds every clash. |
| `CrossRowQuality.CrossRowFindings` | src/commerce_lens/canonical/service.py:838-931 | A finding is reported iff the rows call for it, said of pairs of rows; the kinds follow each other in the source's order, none repeats after the row findings, and renamed products are sorted. |
| `CrossRowQuality.BlocksExactly` | src/commerce_lens/canonical/service.py:113-117 | Cross-row findings block canonicalisation iff an identity repeats, an order has two dates, or the rows do not share the one governed currency. |
| `StageTrace.ValidateFlow` | src/commerce_lens/fixture_runner/r5_manifest.py:444-455 | The pass with blocked stages per chain accepts iff every chain is reached*, or reached* blocked not_reached* naming that blocked stage. |
| `StageTrace.FollowIs` | src/commerce_lens/fixture_runner/r5_manifest.py:444-455 | The automaton of one chain accepts exactly the well-formed chains. |
| `StageTrace.UniqueByChain` | src/commerce_lens/fixture_runner/r5_manifest.py:438-441 | Counting distinct keys detects exactly a stage repeated within a chain. |
| `StageTrace.ValidateExpected` | src/commerce_lens/fixture_runner/r5_manifest.py:265-293 | An expected path is accepted iff it is not empty and its items, chain names, each chain, its blocker and its dispositions are right, each rule said without the tests that check it. |
| `StageTrace.HasFloatIs` | src/commerce_lens/fixture_runner/r5_manifest.py:427-435 | A float is rejected iff some position inside the value leads to it. |
| `StageTrace.InterleavingIrrelevant` | src/commerce_lens/fixture_runner/r5_manifest.py:438-481 | Acceptance does not change when the chains are interleaved differently. |
| `StageTrace.NoBlockerMeansAllReached` | src/commerce_lens/fixture_runner/r5_manifest.py:458-473 | With blocker NONE a path is accepted iff every stage is reached and the other rules hold. |
| `StageTrace.OneBlockerPerChain` | src/commerce_lens/fixture_runner/r5_manifest.py:444-455 | After a blocked stage every later stage of its chain is not reached because of it. |
| `ScopeFilters.CanonicalFilters` | src/commerce_lens/engine/populations.py:178-187 | Sorting and keeping the first filter of each key computes the canonical form. |
| `ScopeFilters.CanonicalIs` | src/commerce_lens/engine/populations.py:178-187 | The canonical form is strictly sorted and holds exactly the least filter of each field, operator, kind and text, the two float zeros counting as one. |
| `ScopeFilters.EachKept` | src/commerce_lens/engine/populations.py:178-187 | For every filter some filter of the canonical form has the same field, operator and kind, and the same text or both are float zeros. |
| `ScopeFilters.FirstDifference` | src/commerce_lens/engine/populations.py:178-187 | Filters are ordered by the first of field, operator, kind and text in which they differ. |
| `ScopeFilters.OrderIrrelevant` | src/commerce_lens/engine/populations.py:178-187 | It depends only on which filters there are. |
| `ScopeFilters.Idempotent` | src/commerce_lens/engine/populations.py:174-187 | Canonicalising twice changes nothing. |
| `ScopeFilters.SameRows` | src/commerce_lens/engine/populations.py:178-187 | It selects the same rows as the original conjunction, whatever meeting a filter is, as long as the two float zeros are met alike. |
| `ScopeFilters.CurrencyFiltersCanonical` | src/commerce_lens/engine/populations.py:152-159 | Canonicalising the currency filters again, as the currency basis does, changes nothing. |
| `ScopeFilters.RecordedMatchesEvidence` | src/commerce_lens/engine/execution.py:1045-1069 | The filters recorded for a node over governed populations are those the evidence check recomputes from any arrangement of the request's filters. |
| `ScopeFilters.MismatchRefused` | src/commerce_lens/engine/execution.py:1061-1068 | A completed Revenue Change is refused only if its two populations have different canonical filters, and always then unless different filters compare equal; when it is not completed nothing is recorded instead. |
| `ScopeFilters.AcceptedSelectAlike` | src/commerce_lens/engine/execution.py:1061-1068 | Populations that are not refused select the same rows, by any condition on filters that equal values meet alike. |
| `ScopeFilters.EqualNumbersAccepted` | src/commerce_lens/engine/execution.py:1061-1063 | The number one and the truth value: different filters that are not refused. |
| `ScopeFilters.TextOnlyItself` | src/commerce_lens/engine/execution.py:1061-1063 | A text equals nothing but itself, a number of the same spelling included. |
| `Proposals.Collect` | src/commerce_lens/diagnostic/generator.py:324-346 | Accepted items are grouped by proposition in batch order, and rejections are recorded in order. |
| `Proposals.ValidateAndConstruct` | src/commerce_lens/diagnostic/generator.py:320-379 | One retained proposition per identity in strict order, the diagnostics in order, and the requested families that no retained proposition covers. |
| `ProposalAccounting.EveryCandidateOnce` | src/commerce_lens/diagnostic/generator.py:320-379 | In every result each raw candidate is counted once, as a representative or in a duplicate or rejection diagnostic. |
| `ProposalAccounting.SameContentSharesProposition` | src/commerce_lens/diagnostic/generator.py:326-346 | Candidates of a batch that pass the gate and have the same content end alike: one retained proposition holds both, or both are rejected with one code. |
| `ProposalAccounting.CandidateEnds` | src/commerce_lens/diagnostic/generator.py:326-346 | A candidate is held by the retained proposition its normal form stands for, or rejected with the code of what it fails. |
| `ProposalAccounting.RetainedDescribed` | src/commerce_lens/diagnostic/generator.py:348-361 | Retained propositions are distinct, in order, and each is represented by a normal form with the content of a candidate of the batch. |
| `ProposalAccounting.DiagnosticsMean` | src/commerce_lens/diagnostic/generator.py:333-379 | Each diagnostic tells of a candidate that fails so, or that stands for the proposition it names as a duplicate of it; every duplicate has one, and a family is reported omitted iff it was requested and nothing retained has it. |
| `ProposalAccounting.PermutedRuns` | src/commerce_lens/diagnostic/generator.py:320-379 | Two runs on permuted batches give the same accepted propositions and omissions, and the same diagnostics up to their order. |
| `ProposalAccounting.Accounting` | src/commerce_lens/diagnostic/generator.py:324-365 | Every raw candidate ends exactly once as representative, recorded duplicate or rejection, and every duplicate has its diagnostic. |
| `ProposalAccounting.RetainedAre` | src/commerce_lens/diagnostic/generator.py:348-361 | Each proposition is represented by the item of least fingerprint in its group. |
| `ProposalAccounting.BatchOrderIrrelevant` | src/commerce_lens/diagnostic/generator.py:348-366 | Permuting the batch leaves the accepted propositions, representatives, duplicates and duplicate diagnostics unchanged. |
| `ProposalAccounting.SameIds` | src/commerce_lens/diagnostic/generator.py:348-349 | Permuting the batch leaves the retained identities unchanged. |
| `Proposals.NormaliseIdempotent` | src/commerce_lens/diagnostic/generator.py:491-503 | Normalising a candidate twice changes nothing. |
| `Proposals.NormaliseByContent` | src/commerce_lens/diagnostic/generator.py:491-503 | Candidates that name each slot once have one normal form iff they have the same content: family, slots up to the order inside unordered values, and sources. |
| `Proposals.NormaliseKeeps` | src/commerce_lens/diagnostic/generator.py:491-503 | Normalising keeps the content and ends with slots sorted by name, and unordered values and sources sorted without repetition. |
| `Governance.BuildJudgments` | src/commerce_lens/diagnostic/governance.py:1050-1107 | One judgment per decision and dependency, sorted by requirement, each meeting the judgment contract. |
| `Governance.OutcomeExactly` | src/commerce_lens/diagnostic/governance.py:1165-1191 | An assessment's outcome and reason are exactly those its fitness, availability, origin and admission call for. |
| `Governance.DecidedIs` | src/commerce_lens/diagnostic/governance.py:1050-1107 | What a judgment of a decision says: its requirement, dimension, class, outcome and reason. |
| `Governance.RequiredIs` | src/commerce_lens/diagnostic/governance.py:1050-1107 | What a judgment of a dependency says, supporting evidence not counting for families that only record missing evidence. |
| `Governance.AllMetExactly` | src/commerce_lens/diagnostic/governance.py:1056-1106 | All judgments are met iff every applicable requirement has supporting evidence and the family is not of the kind that only records missing evidence. |
| `Governance.EligibleExactly` | src/commerce_lens/diagnostic/governance.py:1235-1325 | Eligible iff the claim is diagnostic, every judgment is met, no conflict is unresolved and execution authority is present. |
| `Governance.VerdictTells` | src/commerce_lens/diagnostic/governance.py:1235-1325 | Which gate stops a claim, and the disposition and readiness each gate gives. |
| `Governance.BlockerControls` | src/commerce_lens/diagnostic/governance.py:1257-1300 | The first blocker is the external requirement of least reference, else the least failed requirement, else the least missing, else the least unresolved, else the least inadmissible one, else a later gate with nothing unmet. |
| `Governance.GovernPretest` | src/commerce_lens/diagnostic/governance.py:282-403 | Eligibility in terms of the inputs, for both routes; which gate stops the claim and what it disposes; the blocker controls; the handoff meets its contract, carries the result and lists exactly the unmet requirements. |
| `Governance.HandoffMeetsContract` | src/commerce_lens/contracts/hypotheses.py:189-202 | The handoff of any governed result is ready, unblocked and complete when eligible, and names its blocker otherwise. |
| `Governance.HandoffListsUnmet` | src/commerce_lens/application/r6_service.py:871-889 | When no judgment has class EITHER, the two lists together hold the requirement of every unmet judgment once, and nothing else. |
| `Governance.HandoffSays` | src/commerce_lens/application/r6_service.py:871-889 | The handoff carries the verdict and the authority, and lists the unmet internal and external requirements, each list sorted. |
| `Governance.ClassifiedJudgments` | src/commerce_lens/diagnostic/governance.py:900-931 | With dependencies classed internal or external and assessments of matching class, no judgment has class EITHER. |

## Left out

- Storage and foreign calls: DuckDB, parquet, SQLite, CSV and spreadsheet reading, artifact and metadata stores; queries are folds
  over rows and other answers are arbitrary values.
- SHA-256, canonical JSON bytes, UUIDs and timestamps: identities are their content; truncation of digests is not modelled.
- Binary floating point in R7: ranks, distances and rho are exact, so equality at the two boundaries is claimed for exact
  arithmetic only.
- Unicode digits, letters and whitespace beyond ASCII in texts and regular expressions.
- Fields that are only copied or compared with themselves: required inputs, validation references, output shape, plan
  fingerprint, execution status, and the long equality chains of evidence admission and of the R4 and R7 services.
- Registry identity checks that run before planning: the registry is a parameter, and the approved one is shown to qualify.
- Spearman.ClampIsIdentity: speaks of any positive number whose square is the product of the sums of squares, without showing
  that one exists, since Dafny's reals offer no way to construct a root; `Spearman.WithinRoot` assumes none.
- Spearman.BoundaryExact: speaks of such a number too; `Spearman.BoundaryByCuts` assumes none.
- Decomposition.PrefixSumExact: assumes non-negative line revenues, which single-field canonicalisation enforces; so do the R7 bounds.
- ProposalAccounting.BatchOrderIrrelevant: assumes that different raw candidates have different fingerprints.
- Plans assembled by hand: a plan node's fields are taken to agree with its content identity, as the builder makes them.
- The field gates of candidate validation before its normalising tail: they are one arbitrary verdict per candidate.
- Filters with a NaN value, which never equal themselves. What numbers of different types denote is an arbitrary function, so the
  theorems on comparing filters hold whatever it is.
- Dates near the ends of the calendar, where adding days overflows, and the printed form of ISO week names.
- The Pydantic contracts beyond those a row names, the command line, rendering, fixtures and adapters.
- CSV row parsing and single-field canonicalisation other than decimal text, which would add only independent case splits.
