# SmartStock inventory optimiser: a Dafny model

This project models the computational core of SmartStock, a capacitated
lot-sizing planner. It has two parts.

**The optimiser** (`inventory_optimizer.py`):
- `InventoryOptimizer.calculate_min_cost` fills, backwards from the last
  month, a cost table `min_cost[t][i]` and a policy table
  `optimal_order[t][i]` for each month `t` and starting stock `i`.
  - For each state, the scan over order sizes `j` forces the order up to
    the month's demand when `i + j` falls short.
  - The scan stops at the first `j` whose holding charge exceeds
    `max_storage`.
  - It keeps the first strict minimiser.
- `calculate_optimal_sol` walks the policy table forward into one order
  per month.
- `EOQCalculator.calculate_eoq` is the closed-form baseline.

**The reports** (`utils.py`):
- `calculate_detailed_costs`, `calculate_cost_breakdown` and
  `get_inventory_levels` re-walk a schedule against the demand, with a
  running stock that starts at 0.
- `validate_inputs` builds the ordered list of error messages.

## Files

| file | module | what it holds |
|---|---|---|
| `optional.dfy` | `Optional` | `Option`, the result of walks that can fail |
| `cost_model.dfy` | `CostModel` | instance, cost cells with infinity, the forced order, end stock, period charge, the storage test, the scanned range and the definition of an optimal cell |
| `optimizer.dfy` | `Optimizer` | the table build as methods with loop invariants, and lemmas about the finished tables |
| `reconstruction.dfy` | `Reconstruction` | `calculate_optimal_sol` as written |
| `carried.dfy` | `Carried` | the corrected reconstruction and its correctness theorems |
| `reconstruction_gap.dfy` | `ReconstructionGap` | a concrete instance on which the as-written reconstruction loses demand |
| `baseline.dfy` | `Baseline` | the policy of ordering exactly each month's demand, and the bound the optimum keeps against it |
| `literal_scenario.dfy` | `LiteralScenario` | a two-month instance whose optimum is worked out cell by cell |
| `reports.dfy` | `Reports` | the three report walks, with reference definitions they are proved against |
| `validation.dfy` | `Validation` | `validate_inputs` and its link to the optimiser's preconditions |
| `eoq.dfy` | `Eoq` | the EOQ radicand over `real` |

## Conventions

- Costs are integers. Months, demand values and capacities are integers
  in the application too. The three unit costs are floats there; this
  model takes integer-valued costs, and a holding cost of at least 1.
- The float infinity that starts each minimum becomes `Cost.Infinite`.
  Python's `<` on floats with infinity becomes `Below`.
- The number of months `n` is the length of `demand`.
- A schedule line `["for month k; order=", q]` is `Entry(k, q)`.
- `CostModel.Valid` is a sufficient condition, not a necessary one, for
  the optimiser's table writes and reads to stay inside the rows:
  - a non-empty demand;
  - `holding >= 1`;
  - `min(demand[n-1], max_storage + 3) <= max_order + 3`;
  - when `n >= 2`, `max_storage <= max_order + 3`.

  The policy rows are `max_order + 4` wide, but they are written at stock
  indices. The last clause is what the model's period fill needs, since it writes
  a policy cell for every stock from 0 to max_storage. The source writes a
  policy cell only on a strict improvement, and in period 0 only at stock 0,
  so it runs some inputs outside `Valid` without error (see "Left out").

## Model

| member | source | states |
|---|---|---|
| CostModel.Plus | inventory_optimizer.py:51 | adding a period cost to a successor cell is infinite exactly when the cell is, and otherwise adds the cost |
| CostModel.Effective | inventory_optimizer.py:35-40 | the placed order never leaves the period short of demand, is never below the scan index, and differs from it only when forced up to exactly the demand |
| CostModel.EndInventory | inventory_optimizer.py:50 | the end-of-period stock is the starting stock plus the placed order less the demand, and is never negative |
| CostModel.OptimalCellCost | inventory_optimizer.py:45-55 | a finite cell's cost is the period charge of the order it holds plus the successor's finite cost at the stock that order leaves |
| CostModel.AdmissibleEndFits | inventory_optimizer.py:41-51 | with holding at least 1, an end stock that passes the storage test is at most max_storage, so it indexes the successor cost row |
| CostModel.EndInventoryMonotone | inventory_optimizer.py:35-43 | once the order is no longer forced, the end stock grows with the scan index |
| CostModel.PruningIsExact | inventory_optimizer.py:41-43 | when the starting stock itself passes the storage test or already covers demand, the early break skips no index that passes the test |
| CostModel.PruningCanSkipAdmissible | inventory_optimizer.py:41-43 | otherwise the break can skip an index that would pass the storage test (holding 2, max_storage 3, demand 5, stock 2) |
| CostModel.OptimalCellUnique | inventory_optimizer.py:51-55 | the minimum and the first-minimiser order of a state are determined by the state and the successor row |
| Optimizer.FillLastPeriod | inventory_optimizer.py:21-27 | the last period orders exactly demand minus stock for every stock up to demand, at production plus setup with no holding; other cells keep 0 |
| Optimizer.ScanComplete | inventory_optimizer.py:32-43 | a scan that ran past max_order or stopped at a failing index has covered every scanned index |
| Optimizer.ScanOrders | inventory_optimizer.py:31-55 | the scan for one state yields the minimum over the scanned indices, and the order of the first index reaching it; infinity and order 0 when nothing was scanned, and period 0 evaluates only stock 0 |
| Optimizer.FillPeriod | inventory_optimizer.py:30-55 | every stock 0..max_storage of an earlier period gets its optimal cell, and the cells beyond stay 0 |
| Optimizer.CalculateMinCost | inventory_optimizer.py:15-56 | both tables have n + 1 rows of widths max_storage + 4 and max_order + 4; the last period's rows are the base case and every earlier period's rows are optimal over its successor |
| Optimizer.PeriodZeroOnlyFromEmptyStock | inventory_optimizer.py:31-34 | in period 0 every stock above 0 keeps an infinite cost and a 0 order |
| Optimizer.StorableStockIsFinite | inventory_optimizer.py:29-55 | every evaluated state whose stock passes the storage test has a finite minimum cost |
| Optimizer.SolvedSuffixUnique | inventory_optimizer.py:15-56 | two table pairs that both meet Solved agree from any period on |
| Optimizer.SolvedTablesUnique | inventory_optimizer.py:15-56 | the tables are determined by the instance |
| Reconstruction.Gap | inventory_optimizer.py:64-67 | the column is the absolute difference between last month's order and demand |
| Reconstruction.Held | inventory_optimizer.py:70-73 | the held column is 0 after a month that orders nothing and the column read otherwise, and stays inside the row |
| Reconstruction.ColumnsFrom | inventory_optimizer.py:63-73 | the continued walk follows the policy rule, reaches n months and keeps the columns already read; None where the source raises IndexError |
| Reconstruction.Columns | inventory_optimizer.py:60-73 | the walk starts at column 0 of row 0 and follows the policy rule for max(n, 1) months |
| Reconstruction.CalculateOptimalSol | inventory_optimizer.py:58-74 | the schedule has max(n, 1) lines, the first orders optimal_order[0][0], and each line k orders row k at the walk's column |
| Reconstruction.PrefixFollowsPolicy | inventory_optimizer.py:63-73 | every non-empty prefix of a walk is a walk |
| Reconstruction.FollowsPolicyUnique | inventory_optimizer.py:63-73 | two walks of the same length over the same table and demand are equal |
| Reconstruction.ColumnsFromStep | inventory_optimizer.py:63-73 | continuing from a prefix of a complete walk gives the same result as continuing from that prefix extended by the complete walk's next column |
| Reconstruction.ColumnsFromComplete | inventory_optimizer.py:63-73 | continuing any prefix of a complete walk yields that walk |
| Reconstruction.OptimalSolComplete | inventory_optimizer.py:58-74 | when a complete walk exists inside the table, calculate_optimal_sol returns the schedule read along it |
| Reconstruction.GapIsStorable | inventory_optimizer.py:64-67 | the gap left by an order held at a storable state passes the storage test |
| Reconstruction.ExtendFollowsPolicy | inventory_optimizer.py:63-73 | appending the next column keeps a walk a walk |
| Reconstruction.OptimizerNextColumn | inventory_optimizer.py:63-69 | on the optimiser's tables the next column passes the storage test, fits the policy row and names a finite cost cell |
| Reconstruction.OptimizerWalkStep | inventory_optimizer.py:63-73 | one more month of the walk on the optimiser's tables stays a walk over storable, finite cells |
| Reconstruction.ExtendOptimizerWalk | inventory_optimizer.py:63-73 | the walk on the optimiser's tables extends to all n months |
| Reconstruction.OptimizerScheduleInTable | inventory_optimizer.py:58-74 | on the optimiser's tables calculate_optimal_sol raises no IndexError, returns n lines with non-negative orders, and reads only storable, finite cells |
| Carried.LevelExtends | inventory_optimizer.py:63-73 | appending a month leaves the stock after earlier months unchanged |
| Carried.ExtendCarries | inventory_optimizer.py:63-73 | appending the order read at the carried stock keeps the schedule carrying and moves the stock by order minus demand |
| Carried.CarryFrom | inventory_optimizer.py:58-74 | the corrected walk reads every month's row at the stock carried into it, returns n months and keeps the prefix; None off the table |
| Carried.CarriedSchedule | inventory_optimizer.py:58-74 | the corrected walk from an empty stock: n months, each ordering its row's entry at the stock it actually carries |
| Carried.CarriesUnique | inventory_optimizer.py:58-74 | a carried schedule is determined by the table |
| Carried.OptimizerOrderKeepsStock | inventory_optimizer.py:35-55 | at a storable stock the optimiser's order leaves a stock that is non-negative and passes the storage test, in every period including the last |
| Carried.ExtendFeasible | inventory_optimizer.py:63-73 | appending an order that leaves a storable stock keeps a carried schedule feasible |
| Carried.OptimizerKeepsStock | inventory_optimizer.py:29-55 | from every evaluated storable stock the policy table's order leaves a storable stock |
| Carried.KeepsStockCarryFrom | inventory_optimizer.py:58-74 | on such a table the corrected walk never leaves the table and keeps every month's stock storable |
| Carried.OptimizerCarriedScheduleFeasible | inventory_optimizer.py:58-74 | on the optimiser's tables the corrected walk returns n months, orders nothing negative, and never runs short of demand or over storage |
| Carried.OptimizerStepCost | inventory_optimizer.py:45-55 | in an earlier period a storable state's cost is the charge of the policy's order plus the next period's finite cost at the stock it leaves |
| Carried.RowStepCost | inventory_optimizer.py:45-55 | the same, for one period's rows |
| Carried.OptimizerLastCost | inventory_optimizer.py:21-27 | in the last period a storable state's cost is the charge of the policy's order less the holding on what is left, which the row does not charge |
| Carried.MonthlyCostIsCharge | utils.py:18-21 | the report's monthly cost equals the optimiser's period charge when the stock after demand is not negative |
| Carried.OptimizerCostsFollow | inventory_optimizer.py:21-55 | every evaluated storable state's cost decomposes into its month's charge and its successor's cost |
| Carried.CarriedCostFrom | inventory_optimizer.py:21-55 | from any month on, the corrected walk's monthly costs add up to the cost cell of the stock it carries, plus the holding on the final stock |
| Carried.OptimizerCarriedScheduleCost | inventory_optimizer.py:58-74 | the corrected schedule's detailed total is min_cost[0][0] plus the holding on stock left after the last month, and the breakdown's total agrees |
| ReconstructionGap.Example | inventory_optimizer.py:15 | the counterexample instance meets the optimiser's preconditions |
| ReconstructionGap.ExampleLastRow | inventory_optimizer.py:21-27 | on the example the last period costs 12, 11, 0 at stocks 0, 1, 2 and orders 2 and 0 at stocks 0 and 2 |
| ReconstructionGap.ExampleRowOneEmpty | inventory_optimizer.py:29-55 | month 2 from an empty stock costs 15 and orders 3 |
| ReconstructionGap.ExampleRowOneHolding | inventory_optimizer.py:29-55 | month 2 with one unit costs 12 and orders nothing |
| ReconstructionGap.ExampleRowOneFull | inventory_optimizer.py:29-55 | month 2 with two units costs at least 12 |
| ReconstructionGap.ExampleRowZeroCell | inventory_optimizer.py:29-55 | month 1 costs 25 and orders 2 |
| ReconstructionGap.ExampleTables | inventory_optimizer.py:15-56 | the table cells both walks read on the example |
| ReconstructionGap.AbsoluteGapLosesDemand | inventory_optimizer.py:63-73 | as written the walk emits 2, 0, 0 against demand 1, 1, 2: two units short, with a detailed total of 13 while the optimum is 25 |
| ReconstructionGap.CarriedWalkMeetsDemand | inventory_optimizer.py:58-74 | the corrected walk emits 2, 0, 2, meets all demand, and its detailed total is the optimum 25 |
| Baseline.BaselineCarriesNothing | utils.py:7-36 | ordering exactly each month's demand leaves the report's running stock at 0 after every month |
| Baseline.BaselineCostSplits | utils.py:7-36 | the report's running total over the first m months of that schedule plus the baseline's cost of the remaining months is the whole baseline cost |
| Baseline.BaselineReportCost | utils.py:1-37 | the detailed report of that schedule totals production and setup on each month's demand, with no holding |
| Baseline.EmptyStockBound | inventory_optimizer.py:30-55 | from an empty stock an earlier month's minimum is finite and at most the charge for ordering exactly its demand plus the next month's minimum from an empty stock |
| Baseline.BaselineBoundFrom | inventory_optimizer.py:21-55 | from every month on, the minimum from an empty stock is finite and at most the baseline's cost of the remaining months |
| Baseline.OptimumBeatsBaseline | inventory_optimizer.py:15-56 | the optimiser's min_cost[0][0] is finite and never exceeds the detailed report's total for ordering exactly each month's demand |
| LiteralScenario.Scenario | inventory_optimizer.py:15 | demand 10, 10 with max_order 20, max_storage 20, production 1, setup 5, holding 1 meets the optimiser's preconditions |
| LiteralScenario.ScenarioLastRow | inventory_optimizer.py:21-27 | on that instance the last month costs 15 - e from stock e below 10, 0 from stock 10, and orders 10 from an empty stock |
| LiteralScenario.ScenarioCandidateBound | inventory_optimizer.py:33-51 | every scan index of the first month totals at least 30, and index 0 totals exactly 30 |
| LiteralScenario.ScenarioFirstCell | inventory_optimizer.py:45-55 | the first month costs 30 and orders 10 |
| LiteralScenario.ScenarioOptimum | inventory_optimizer.py:15-74 | the optimum is 30; both walks emit 10, 10, which meets all demand and totals 30 in the detailed report, while ordering 20 up front totals 35 |
| Reports.DetailedFrom | utils.py:7-35 | the rows from month k + 1 on carry the month, demand and order, chain before, after-order and after-demand stock, charge the monthly cost, and add to the total |
| Reports.CalculateDetailedCosts | utils.py:1-37 | one row per line; stock starts at 0 and each row's before-order stock is the previous row's after-demand stock; after-demand stock is orders minus demand so far; the total is the sum of the monthly costs |
| Reports.ProductionSum | utils.py:41 | total production is the production cost times the units ordered |
| Reports.SetupSum | utils.py:42 | total setup is the setup cost times the number of ordering months |
| Reports.HoldingFrom | utils.py:45-50 | the holding loop accumulates the holding charged on positive end-of-month stock |
| Reports.CalculateCostBreakdown | utils.py:39-57 | production, setup and holding are as above, and the total is their sum |
| Reports.LevelsFrom | utils.py:62-65 | from month k + 1 on, each level is the stock after that month's demand, floored at 0 |
| Reports.GetInventoryLevels | utils.py:59-66 | one level per line, never negative, equal to orders minus demand so far floored at 0 |
| Reports.CostSplits | utils.py:18-23 | with no negative order, the monthly costs add up to production plus setup plus holding |
| Reports.BreakdownAgreesWithDetailed | utils.py:39-57 | with no negative order, the breakdown's total equals the detailed report's total |
| Reports.AgreementNeedsNonNegativeOrders | utils.py:41 | a single order of -1 against demand 0 makes the two totals differ |
| Reports.HeldIsChargedOnLevels | utils.py:44-50 | the holding charged over the first m months is the holding cost times the sum of the first m reported levels |
| Reports.BreakdownHoldingMatchesLevels | utils.py:59-66 | the breakdown's holding is the holding cost times the sum of get_inventory_levels |
| Validation.Collect | utils.py:70-91 | the collected checks are exactly the given checks that fail, no more of them, and in the given order |
| Validation.HeadRanksFirst | utils.py:72-91 | putting the head of a rank-ordered check list in front of checks drawn from its tail keeps them in rank order |
| Validation.ChecksComplete | utils.py:72-91 | the check sequence is in rank order and contains all seven checks |
| Validation.CollectChecks | utils.py:68-93 | collecting over the seven checks reports exactly the failing ones, in order, and nothing exactly when every argument is positive |
| Validation.CheckRuns | utils.py:72-91 | each of the seven checks sits in the check sequence at its rank |
| Validation.AcceptedIffNothingFails | utils.py:68-93 | all arguments positive exactly when no check fails |
| Validation.ValidateInputs | utils.py:68-93 | at most seven errors; an error is reported exactly when its check fails; errors come in check order; the list is empty exactly when every argument is positive |
| Validation.ValidateInputMessages | utils.py:68-93 | one message per error, the k-th message being the k-th failing check's in the fixed check order; a check's message is present exactly when the check fails; no messages exactly when every argument is positive |
| Validation.MessageInjective | utils.py:73-91 | two checks report the same message only when they are the same check |
| Validation.MessageLengthsDiffer | utils.py:73-91 | messages of different checks differ in length |
| Validation.MessageLength | utils.py:73-91 | the length of each check's message |
| Validation.ToInstance | inventory_optimizer.py:15 | accepted inputs become an optimiser instance with the same demand |
| Validation.AcceptedInputsValidIffWidthsFit | inventory_optimizer.py:16-27 | for accepted inputs with n equal to the demand length, the optimiser's preconditions hold exactly when the table-width conditions hold |
| Validation.AcceptedInputsCanOverrunPolicyTable | inventory_optimizer.py:21-27 | one month of demand 10 with max_order 1 and max_storage 10 passes validation but overruns the 5-wide policy row |
| Eoq.Radicand | inventory_optimizer.py:9-11 | the division fails exactly when the holding cost is 0; otherwise the radicand times the holding cost is 2 times total demand times production cost, and it is non-negative for non-negative inputs |
| Eoq.EoqUnique | inventory_optimizer.py:11 | at most one non-negative number squares to the radicand, so the returned value is determined |
| Eoq.EoqIgnoresSetup | inventory_optimizer.py:9-11 | changing the setup cost does not change the result |
| Eoq.EoqLiteralScenario | inventory_optimizer.py:9-11 | six months of demand 100, production cost 10 and holding cost 2 give the radicand 6000 |

## Left out

- `app.py`, `ui_components.py` and `visualizations.py` are not part of this model: they are Streamlit widgets and Plotly figures. The demand-pattern generator in `app.py` uses NumPy trigonometry and random numbers and is also left out.
- Floating-point arithmetic: costs are integers in the optimiser and reports, and exact reals in the EOQ radicand.
- A holding cost strictly between 0 and 1 is excluded by `CostModel.Valid` (holding at least 1). With such a cost, an end stock that passes the storage test can exceed max_storage + 3 and index past the cost row.
- The square root of `calculate_eoq` (`** 0.5`) is stated as a relation (`Eoq.IsEoq`), not computed. The complex result Python gives for a negative radicand is not modelled.
- The scratch array `a` of `calculate_min_cost` is held in one period charge (`CostModel.Charge`). It is written and read within one step.
- The IndexError of `calculate_min_cost` when a policy row is narrower than the stocks written into it is excluded by `CostModel.Valid`, which also excludes some inputs that do not raise it (the `CostModel.Valid` line below). `Validation.AcceptedInputsCanOverrunPolicyTable` shows that validation alone does not exclude it.
- Widening max_order or max_storage is not shown never to raise `min_cost[0][0]`. That statement compares the tables of two instances whose rows have different widths, and with the early break of the scan a wider storage limit also changes which indices are scanned. It is not stated.
- The "unique feasible schedule" at the smallest max_order or max_storage that admits one is not stated in general. Its feasibility is covered by `Carried.OptimizerCarriedScheduleFeasible`, and no input that meets `CostModel.Valid` makes the model fail.
- The forced order (`i + j < demand` raises the order to the whole demand) can exceed max_order. The model keeps this as the source has it: `CostModel.Effective` ignores max_order, and only the scan index is bounded by it.
- CostModel.Valid: requires max_storage <= max_order + 3 whenever n >= 2, which is more than the source needs. With n == 2 the source writes period 0's policy row only at stock 0, because inventory_optimizer.py:33-34 break before any write for a larger stock. So demand [1, 1] with max_order 1, max_storage 10 and holding 1 runs without error in the source but is outside the model. With n >= 3, whether a middle period writes a policy cell past the row depends on whether a finite candidate exists there, which depends on demand and holding. The model's `Optimizer.FillPeriod` writes every policy cell from 0 to max_storage in every earlier period and so needs the clause.
- Reports.CalculateDetailedCosts, Reports.DetailedFrom: require at least as many demand values as schedule lines. The source raises IndexError at utils.py:10 otherwise. The application never reaches that case: it takes n >= 1 (app.py:102), builds exactly n demand values (app.py:146-154, 180-190), and passes the schedule of `calculate_optimal_sol`, which has n lines on the optimiser's tables (`Reconstruction.OptimizerScheduleInTable`).
- Reports.CalculateCostBreakdown, Reports.HoldingFrom: require at least as many demand values as schedule lines, for the same reason. The source raises IndexError at utils.py:48 otherwise.
- Reports.GetInventoryLevels, Reports.LevelsFrom: require at least as many demand values as schedule lines, for the same reason. The source raises IndexError at utils.py:64 otherwise.
- Optimizer.CalculateMinCost: takes `n` to be the length of `demand`. It returns the cost table as well as the policy table, so that the cost table's contents can be stated.
- Reconstruction.CalculateOptimalSol: returns None where the source raises IndexError. On the optimiser's own tables this never happens (`Reconstruction.OptimizerScheduleInTable`).
- Reports.BreakdownAgreesWithDetailed: requires no negative order, because the breakdown charges production on negative orders and the detailed report does not (`Reports.AgreementNeedsNonNegativeOrders`). The optimiser never emits a negative order.
- Carried.OptimizerCarriedScheduleCost: states the detailed total as `min_cost[0][0]` plus the holding on stock left after the last month. The last period's cells above its demand are never written and stay 0, so they charge no holding. Whether an optimal schedule can end with stock is not stated.
- Eoq.Radicand: `sum` over floats is an exact sum over reals.
- Validation.ToInstance: costs are taken as integers, where the application passes floats.

## Findings

| source | as written | input that shows it | evidently intended | confidence | as-written member | corrected member |
|---|---|---|---|---|---|---|
| inventory_optimizer.py:63-73 | month t + 1 reads the policy row at the absolute difference between month t's order and demand, and at column 0 whenever the order read was 0, so it reads cells for stocks the schedule never holds | demand [1, 1, 2], max_order 3, max_storage 2, production 1, setup 10, holding 1: the tables say 2, 0, 2 at cost 25, but the walk emits 2, 0, 0, leaving month 3 two units short | read each month's row at the stock actually carried into it (orders so far minus demand so far) | not executed | ReconstructionGap.AbsoluteGapLosesDemand | Carried.OptimizerCarriedScheduleCost |
