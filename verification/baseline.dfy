/** The baseline policy the optimiser is measured against: order exactly
    each month's demand, so that no stock is ever carried. */
module Baseline {
  import opened CostModel
  import opened Optimizer
  import opened Reconstruction
  import opened Reports
  import opened Carried

  /** What the baseline pays from month t + 1 on: production and setup on
      each month's demand, and no holding. */
  function BaselineFrom(inst: Instance, t: nat): int
    requires t <= |inst.demand|
    decreases |inst.demand| - t
  {
    if t == |inst.demand| then 0
    else Charge(inst, inst.demand[t], 0) + BaselineFrom(inst, t + 1)
  }

  /** The baseline schedule: month k + 1 orders demand[k]. */
  function BaselineSchedule(demand: seq<nat>): (r: seq<Entry>)
    ensures |r| == |demand|
    ensures forall k :: 0 <= k < |r| ==> r[k] == Entry(k + 1, demand[k])
  {
    seq(|demand|, k requires 0 <= k < |demand| => Entry(k + 1, demand[k]))
  }

  /** The baseline never carries stock. */
  lemma {:induction false} BaselineCarriesNothing(demand: seq<nat>, m: nat)
    requires m <= |demand|
    ensures Level(BaselineSchedule(demand), demand, m) == 0
  {
    if m > 0 {
      BaselineCarriesNothing(demand, m - 1);
    }
  }

  /** The detailed report's running total over the first m months of the
      baseline, plus the baseline's cost of the rest, is the whole
      baseline cost. */
  lemma {:induction false} BaselineCostSplits(inst: Instance, m: nat)
    requires m <= |inst.demand|
    ensures var c := UnitCosts(inst.production, inst.setup, inst.holding);
            CostUpTo(BaselineSchedule(inst.demand), inst.demand, c, m) + BaselineFrom(inst, m)
            == BaselineFrom(inst, 0)
  {
    if m > 0 {
      BaselineCostSplits(inst, m - 1);
      BaselineCarriesNothing(inst.demand, m);
      MonthlyCostIsCharge(inst, inst.demand[m - 1], 0);
    }
  }

  /** The detailed report of the baseline schedule totals the baseline
      cost. */
  lemma BaselineReportCost(inst: Instance)
    ensures var c := UnitCosts(inst.production, inst.setup, inst.holding);
            CalculateDetailedCosts(BaselineSchedule(inst.demand), inst.demand, c).1
            == BaselineFrom(inst, 0)
  {
    BaselineCostSplits(inst, |inst.demand|);
  }

  /** From an empty stock, an earlier period's minimum is at most the
      charge for ordering exactly its demand plus the next period's
      minimum from an empty stock: scan index 0 forces that order, leaves
      no stock and passes the storage test. */
  lemma EmptyStockBound(inst: Instance, t: nat, next: seq<Cost>, best: Cost, choice: int)
    requires t < |inst.demand|
    requires OptimalCell(inst, t, 0, next, best, choice)
    requires |next| > 0 && next[0].Finite?
    ensures best.Finite? && best.value <= Charge(inst, inst.demand[t], 0) + next[0].value
  {
    assert Admissible(inst, t, 0, 0);
    assert Scanned(inst, t, 0, 0);
    assert Candidate(inst, t, 0, 0, next) == Plus(Charge(inst, inst.demand[t], 0), next[0]);
  }

  /** From month t + 1 on, the minimum cost from an empty stock is finite
      and at most the baseline's cost. */
  lemma {:induction false} BaselineBoundFrom(inst: Instance, minCost: seq<seq<Cost>>,
                                             optimalOrder: seq<seq<nat>>, t: nat)
    requires Valid(inst) && Solved(inst, minCost, optimalOrder)
    requires t < |inst.demand|
    ensures 0 < |minCost[t]| && minCost[t][0].Finite?
    ensures minCost[t][0].value <= BaselineFrom(inst, t)
    decreases |inst.demand| - t
  {
    if t == inst.Last() {
      assert LastPeriodRows(inst, minCost[t], optimalOrder[t]);
    } else {
      BaselineBoundFrom(inst, minCost, optimalOrder, t + 1);
      assert PeriodRows(inst, t, minCost[t + 1], minCost[t], optimalOrder[t]);
      EmptyStockBound(inst, t, minCost[t + 1], minCost[t][0], optimalOrder[t][0]);
    }
  }

  /** The optimiser's minimum never exceeds what the detailed report
      charges for ordering exactly each month's demand. */
  lemma OptimumBeatsBaseline(inst: Instance, minCost: seq<seq<Cost>>, optimalOrder: seq<seq<nat>>)
    requires Valid(inst) && Solved(inst, minCost, optimalOrder)
    ensures var c := UnitCosts(inst.production, inst.setup, inst.holding);
            && minCost[0][0].Finite?
            && minCost[0][0].value
               <= CalculateDetailedCosts(BaselineSchedule(inst.demand), inst.demand, c).1
  {
    BaselineBoundFrom(inst, minCost, optimalOrder, 0);
    BaselineReportCost(inst);
  }
}
