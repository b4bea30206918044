/** The report arithmetic of utils.py: each function walks a schedule
    against the demand with a running inventory that starts at 0. */
module Reports {
  import opened Reconstruction

  /** The three unit costs the reports charge. */
  datatype UnitCosts = UnitCosts(production: int, setup: int, holding: int)

  /** One row of calculate_detailed_costs' results_data. */
  datatype Row = Row(
    month: nat,
    demand: int,
    order: int,
    beforeOrder: int,
    afterOrder: int,
    afterDemand: int,
    monthlyCost: int)

  /** The dictionary calculate_cost_breakdown returns. */
  datatype Breakdown = Breakdown(production: int, setup: int, holding: int, total: int)

  // Reference definitions, by the number m of months counted.

  /** Stock after the first m months: orders minus demand so far, from an
      empty start. */
  function Level(schedule: seq<Entry>, demand: seq<int>, m: nat): int
    requires m <= |schedule| && m <= |demand|
  {
    if m == 0 then 0
    else Level(schedule, demand, m - 1) + schedule[m - 1].order - demand[m - 1]
  }

  /** The holding charge on an end-of-month stock: only positive stock is
      charged. */
  function HoldingOn(holding: int, stock: int): int
  {
    if stock > 0 then holding * stock else 0
  }

  /** One month's cost: production and setup when the month orders
      something, plus holding on positive stock after demand. */
  function MonthlyCost(c: UnitCosts, order: int, afterDemand: int): int
  {
    (if order > 0 then c.production * order else 0)
    + (if order > 0 then c.setup else 0)
    + HoldingOn(c.holding, afterDemand)
  }

  /** Units ordered in the first m months. */
  function OrderedUpTo(schedule: seq<Entry>, m: nat): int
    requires m <= |schedule|
  {
    if m == 0 then 0 else OrderedUpTo(schedule, m - 1) + schedule[m - 1].order
  }

  /** Months among the first m that order something. */
  function OrderingMonthsUpTo(schedule: seq<Entry>, m: nat): nat
    requires m <= |schedule|
  {
    if m == 0 then 0
    else OrderingMonthsUpTo(schedule, m - 1) + (if schedule[m - 1].order > 0 then 1 else 0)
  }

  /** Holding charged over the first m months. */
  function HeldUpTo(schedule: seq<Entry>, demand: seq<int>, holding: int, m: nat): int
    requires m <= |schedule| && m <= |demand|
  {
    if m == 0 then 0
    else HeldUpTo(schedule, demand, holding, m - 1) + HoldingOn(holding, Level(schedule, demand, m))
  }

  /** Monthly costs of the first m months. */
  function CostUpTo(schedule: seq<Entry>, demand: seq<int>, c: UnitCosts, m: nat): int
    requires m <= |schedule| && m <= |demand|
  {
    if m == 0 then 0
    else CostUpTo(schedule, demand, c, m - 1)
         + MonthlyCost(c, schedule[m - 1].order, Level(schedule, demand, m))
  }

  function SumUpTo(s: seq<int>, m: nat): int
    requires m <= |s|
  {
    if m == 0 then 0 else SumUpTo(s, m - 1) + s[m - 1]
  }

  // The walks as utils.py writes them.

  /** The loop of calculate_detailed_costs from month k + 1 on, with the
      running inventory `before` and the running total `total`. */
  function DetailedFrom(schedule: seq<Entry>, demand: seq<int>, c: UnitCosts,
                        k: nat, before: int, total: int): (r: (seq<Row>, int))
    requires k <= |schedule| <= |demand|
    requires before == Level(schedule, demand, k)
    ensures |r.0| == |schedule| - k
    ensures forall m :: 0 <= m < |r.0| ==>
              && r.0[m].month == k + m + 1
              && r.0[m].demand == demand[k + m]
              && r.0[m].order == schedule[k + m].order
              && r.0[m].beforeOrder == Level(schedule, demand, k + m)
              && r.0[m].afterOrder == r.0[m].beforeOrder + r.0[m].order
              && r.0[m].afterDemand == r.0[m].afterOrder - r.0[m].demand
              && r.0[m].afterDemand == Level(schedule, demand, k + m + 1)
              && r.0[m].monthlyCost == MonthlyCost(c, r.0[m].order, r.0[m].afterDemand)
    ensures r.1 == total + CostUpTo(schedule, demand, c, |schedule|) - CostUpTo(schedule, demand, c, k)
    decreases |schedule| - k
  {
    if k == |schedule| then ([], total)
    else
      var order := schedule[k].order;
      var afterOrder := before + order;
      var afterDemand := afterOrder - demand[k];
      var monthCost := MonthlyCost(c, order, afterDemand);
      var row := Row(k + 1, demand[k], order, before, afterOrder, afterDemand, monthCost);
      var rest := DetailedFrom(schedule, demand, c, k + 1, afterDemand, total + monthCost);
      ([row] + rest.0, rest.1)
  }

  /** calculate_detailed_costs: one row per month and the total cost. */
  function CalculateDetailedCosts(schedule: seq<Entry>, demand: seq<int>, c: UnitCosts): (r: (seq<Row>, int))
    requires |schedule| <= |demand|
    ensures |r.0| == |schedule|
    ensures forall k :: 0 <= k < |r.0| ==>
              && r.0[k].month == k + 1
              && r.0[k].demand == demand[k]
              && r.0[k].order == schedule[k].order
              && r.0[k].afterOrder == r.0[k].beforeOrder + r.0[k].order
              && r.0[k].afterDemand == r.0[k].afterOrder - r.0[k].demand
              && r.0[k].monthlyCost == MonthlyCost(c, r.0[k].order, r.0[k].afterDemand)
    ensures |r.0| > 0 ==> r.0[0].beforeOrder == 0
    ensures forall k :: 0 <= k < |r.0| - 1 ==> r.0[k + 1].beforeOrder == r.0[k].afterDemand
    ensures forall k :: 0 <= k < |r.0| ==> r.0[k].afterDemand == Level(schedule, demand, k + 1)
    ensures r.1 == CostUpTo(schedule, demand, c, |schedule|)
  {
    var r := DetailedFrom(schedule, demand, c, 0, 0, 0);
    forall k | 0 <= k < |r.0|
      ensures r.0[k].beforeOrder == Level(schedule, demand, k)
      ensures r.0[k].afterDemand == Level(schedule, demand, k + 1)
    {
      assert 0 + k == k;
    }
    r
  }

  /** sum(production_cost * sol[1] for sol in optimal_sol), over the first m
      entries. */
  function ProductionSum(schedule: seq<Entry>, production: int, m: nat): (r: int)
    requires m <= |schedule|
    ensures r == production * OrderedUpTo(schedule, m)
  {
    if m == 0 then 0
    else ProductionSum(schedule, production, m - 1) + production * schedule[m - 1].order
  }

  /** sum(setup_cost if sol[1] > 0 else 0 for sol in optimal_sol), over the
      first m entries. */
  function SetupSum(schedule: seq<Entry>, setup: int, m: nat): (r: int)
    requires m <= |schedule|
    ensures r == setup * OrderingMonthsUpTo(schedule, m)
  {
    if m == 0 then 0
    else SetupSum(schedule, setup, m - 1) + (if schedule[m - 1].order > 0 then setup else 0)
  }

  /** The holding loop of calculate_cost_breakdown from month k + 1 on, with
      the running inventory and the holding accumulated so far. */
  function HoldingFrom(schedule: seq<Entry>, demand: seq<int>, holding: int,
                       k: nat, running: int, acc: int): (r: int)
    requires k <= |schedule| <= |demand|
    requires running == Level(schedule, demand, k)
    ensures r == acc + HeldUpTo(schedule, demand, holding, |schedule|)
                     - HeldUpTo(schedule, demand, holding, k)
    decreases |schedule| - k
  {
    if k == |schedule| then acc
    else
      var next := running + schedule[k].order - demand[k];
      HoldingFrom(schedule, demand, holding, k + 1, next,
                  if next > 0 then acc + holding * next else acc)
  }

  /** calculate_cost_breakdown: production on every unit ordered, setup per
      ordering month, holding on positive end-of-month stock, and their
      total. */
  function CalculateCostBreakdown(schedule: seq<Entry>, demand: seq<int>, c: UnitCosts): (b: Breakdown)
    requires |schedule| <= |demand|
    ensures b.production == c.production * OrderedUpTo(schedule, |schedule|)
    ensures b.setup == c.setup * OrderingMonthsUpTo(schedule, |schedule|)
    ensures b.holding == HeldUpTo(schedule, demand, c.holding, |schedule|)
    ensures b.total == b.production + b.setup + b.holding
  {
    var production := ProductionSum(schedule, c.production, |schedule|);
    var setup := SetupSum(schedule, c.setup, |schedule|);
    var holding := HoldingFrom(schedule, demand, c.holding, 0, 0, 0);
    Breakdown(production, setup, holding, production + setup + holding)
  }

  /** The loop of get_inventory_levels from month k + 1 on. */
  function LevelsFrom(schedule: seq<Entry>, demand: seq<int>, k: nat, running: int): (r: seq<int>)
    requires k <= |schedule| <= |demand|
    requires running == Level(schedule, demand, k)
    ensures |r| == |schedule| - k
    ensures forall m :: 0 <= m < |r| ==>
              r[m] == (if Level(schedule, demand, k + m + 1) > 0
                       then Level(schedule, demand, k + m + 1) else 0)
    decreases |schedule| - k
  {
    if k == |schedule| then []
    else
      var next := running + schedule[k].order - demand[k];
      [if next > 0 then next else 0] + LevelsFrom(schedule, demand, k + 1, next)
  }

  /** get_inventory_levels: the stock after each month's demand, floored at
      0. */
  function GetInventoryLevels(schedule: seq<Entry>, demand: seq<int>): (r: seq<int>)
    requires |schedule| <= |demand|
    ensures |r| == |schedule|
    ensures forall k :: 0 <= k < |r| ==> r[k] >= 0
    ensures forall k :: 0 <= k < |r| ==>
              r[k] == (if Level(schedule, demand, k + 1) > 0 then Level(schedule, demand, k + 1) else 0)
  {
    LevelsFrom(schedule, demand, 0, 0)
  }

  /** With no negative order, the month-by-month costs split into
      production on the units ordered, setup per ordering month and
      holding. */
  lemma {:induction false} CostSplits(schedule: seq<Entry>, demand: seq<int>, c: UnitCosts, m: nat)
    requires m <= |schedule| <= |demand|
    requires forall k :: 0 <= k < |schedule| ==> schedule[k].order >= 0
    ensures CostUpTo(schedule, demand, c, m)
            == c.production * OrderedUpTo(schedule, m)
             + c.setup * OrderingMonthsUpTo(schedule, m)
             + HeldUpTo(schedule, demand, c.holding, m)
  {
    if m > 0 {
      CostSplits(schedule, demand, c, m - 1);
      var o := schedule[m - 1].order;
      assert (if o > 0 then c.production * o else 0) == c.production * o;
      assert c.production * OrderedUpTo(schedule, m)
             == c.production * OrderedUpTo(schedule, m - 1) + c.production * o;
    }
  }

  /** The breakdown's total equals the detailed report's total cost on the
      same schedule, when no order is negative. */
  lemma BreakdownAgreesWithDetailed(schedule: seq<Entry>, demand: seq<int>, c: UnitCosts)
    requires |schedule| <= |demand|
    requires forall k :: 0 <= k < |schedule| ==> schedule[k].order >= 0
    ensures CalculateCostBreakdown(schedule, demand, c).total
            == CalculateDetailedCosts(schedule, demand, c).1
  {
    CostSplits(schedule, demand, c, |schedule|);
  }

  /** A negative order breaks the agreement: the breakdown charges
      production on it, the detailed report does not. */
  lemma AgreementNeedsNonNegativeOrders()
    ensures var schedule, demand, c := [Entry(1, -1)], [0], UnitCosts(1, 1, 1);
            CalculateCostBreakdown(schedule, demand, c).total
            != CalculateDetailedCosts(schedule, demand, c).1
  {
    var schedule, demand, c := [Entry(1, -1)], [0], UnitCosts(1, 1, 1);
    assert Level(schedule, demand, 1) == -1;
    assert OrderedUpTo(schedule, 1) == -1;
  }

  /** The holding in the breakdown is the holding cost times the sum of the
      inventory levels get_inventory_levels reports. */
  lemma {:induction false} HeldIsChargedOnLevels(schedule: seq<Entry>, demand: seq<int>, holding: int, m: nat)
    requires m <= |schedule| <= |demand|
    ensures HeldUpTo(schedule, demand, holding, m)
            == holding * SumUpTo(GetInventoryLevels(schedule, demand), m)
  {
    if m > 0 {
      HeldIsChargedOnLevels(schedule, demand, holding, m - 1);
      var levels := GetInventoryLevels(schedule, demand);
      assert holding * SumUpTo(levels, m)
             == holding * SumUpTo(levels, m - 1) + holding * levels[m - 1];
    }
  }

  lemma BreakdownHoldingMatchesLevels(schedule: seq<Entry>, demand: seq<int>, c: UnitCosts)
    requires |schedule| <= |demand|
    ensures var levels := GetInventoryLevels(schedule, demand);
            CalculateCostBreakdown(schedule, demand, c).holding == c.holding * SumUpTo(levels, |levels|)
  {
    HeldIsChargedOnLevels(schedule, demand, c.holding, |schedule|);
  }
}
