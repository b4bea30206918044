/** The reconstruction calculate_optimal_sol evidently intends: each month
    reads the policy table at the stock actually carried into it (orders so
    far minus demand so far), instead of at the distance between last
    month's order and demand. */
module Carried {
  import opened Optional
  import opened CostModel
  import opened Optimizer
  import opened Reconstruction
  import opened Reports

  /** A stock that is non-negative and passes the storage test. */
  predicate Storable(inst: Instance, stock: int)
  {
    0 <= stock && inst.holding * stock <= inst.maxStorage
  }

  /** Month k + 1 of the schedule orders what row k of the table holds at
      the stock carried into it. */
  predicate CarriesAt(table: seq<seq<int>>, demand: seq<int>, schedule: seq<Entry>, k: nat)
    requires k < |schedule| <= |demand| && |schedule| <= |table|
  {
    && schedule[k].month == k + 1
    && 0 <= Level(schedule, demand, k) < |table[k]|
    && schedule[k].order == table[k][Level(schedule, demand, k)]
  }

  /** Every month of the schedule orders what its row of the table holds at
      the stock carried into it. */
  ghost predicate Carries(table: seq<seq<int>>, demand: seq<int>, schedule: seq<Entry>)
  {
    && |schedule| <= |demand|
    && |schedule| <= |table|
    && forall k {:trigger CarriesAt(table, demand, schedule, k)} ::
         0 <= k < |schedule| ==> CarriesAt(table, demand, schedule, k)
  }

  /** Appending a month leaves the stock of the earlier months unchanged. */
  lemma {:induction false} LevelExtends(schedule: seq<Entry>, demand: seq<int>, e: Entry, k: nat)
    requires k <= |schedule| < |demand|
    ensures Level(schedule + [e], demand, k) == Level(schedule, demand, k)
  {
    if k > 0 {
      LevelExtends(schedule, demand, e, k - 1);
      assert (schedule + [e])[k - 1] == schedule[k - 1];
    }
  }

  /** Appending the month the walk reads next keeps a carrying schedule
      carrying. */
  lemma ExtendCarries(table: seq<seq<int>>, demand: seq<int>, schedule: seq<Entry>, order: int)
    requires Carries(table, demand, schedule)
    requires |schedule| < |demand| && |schedule| < |table|
    requires 0 <= Level(schedule, demand, |schedule|) < |table[|schedule|]|
    requires order == table[|schedule|][Level(schedule, demand, |schedule|)]
    ensures Carries(table, demand, schedule + [Entry(|schedule| + 1, order)])
    ensures Level(schedule + [Entry(|schedule| + 1, order)], demand, |schedule| + 1)
            == Level(schedule, demand, |schedule|) + order - demand[|schedule|]
  {
    var e := Entry(|schedule| + 1, order);
    var s := schedule + [e];
    forall k | 0 <= k < |s|
      ensures CarriesAt(table, demand, s, k)
    {
      LevelExtends(schedule, demand, e, k);
      if k < |schedule| {
        assert CarriesAt(table, demand, schedule, k);
      }
    }
    LevelExtends(schedule, demand, e, |schedule|);
  }

  /** The walk from month |schedule| + 1 on, carrying `stock` into it; None
      where the table has no cell for the carried stock. */
  function CarryFrom(table: seq<seq<int>>, demand: seq<int>, n: nat,
                     schedule: seq<Entry>, stock: int): (r: Option<seq<Entry>>)
    requires Carries(table, demand, schedule) && |schedule| <= n
    requires stock == Level(schedule, demand, |schedule|)
    ensures r.Some? ==> Carries(table, demand, r.value) && |r.value| == n
    ensures r.Some? ==> r.value[..|schedule|] == schedule
    decreases n - |schedule|
  {
    var t := |schedule|;
    if t == n then Some(schedule)
    else if t >= |demand| || t >= |table| || stock < 0 || stock >= |table[t]| then None
    else
      var order := table[t][stock];
      ExtendCarries(table, demand, schedule, order);
      var r := CarryFrom(table, demand, n, schedule + [Entry(t + 1, order)],
                         stock + order - demand[t]);
      assert (schedule + [Entry(t + 1, order)])[..t] == schedule;
      assert r.Some? ==> r.value[..t] == r.value[..t + 1][..t];
      r
  }

  /** The corrected calculate_optimal_sol: n months from an empty stock,
      each reading the policy table at the stock carried into it. */
  function CarriedSchedule(table: seq<seq<int>>, demand: seq<int>, n: nat): (r: Option<seq<Entry>>)
    ensures r.Some? ==> |r.value| == n && Carries(table, demand, r.value)
  {
    CarryFrom(table, demand, n, [], 0)
  }

  /** A carrying schedule is determined by the table: two of the same
      length are equal. */
  lemma {:induction false} CarriesUnique(table: seq<seq<int>>, demand: seq<int>,
                                         s1: seq<Entry>, s2: seq<Entry>, m: nat)
    requires Carries(table, demand, s1) && Carries(table, demand, s2)
    requires m <= |s1| && m <= |s2|
    ensures s1[..m] == s2[..m]
    ensures Level(s1, demand, m) == Level(s2, demand, m)
  {
    if m > 0 {
      CarriesUnique(table, demand, s1, s2, m - 1);
      assert CarriesAt(table, demand, s1, m - 1) && CarriesAt(table, demand, s2, m - 1);
      assert s1[m - 1] == s2[m - 1];
      assert s1[..m] == s1[..m - 1] + [s1[m - 1]];
      assert s2[..m] == s2[..m - 1] + [s2[m - 1]];
    }
  }

  /** The stock carried into each of the first m + 1 months (and out of the
      m-th) is non-negative and passes the storage test. */
  ghost predicate Feasible(inst: Instance, schedule: seq<Entry>, m: nat)
    requires m <= |schedule| && m <= |inst.demand|
  {
    forall k :: 0 <= k <= m ==> Storable(inst, Level(schedule, inst.demand, k))
  }

  /** On the optimizer's tables the policy at a storable stock leaves a
      storable, non-negative stock: the order is the effective order of a
      scan index that passed the storage test, or, in the last period, the
      order that meets demand exactly (or 0 when the stock already exceeds
      it). */
  lemma OptimizerOrderKeepsStock(inst: Instance, minCost: seq<seq<Cost>>, optimalOrder: seq<seq<nat>>,
                                 t: nat, i: nat)
    requires Valid(inst) && Solved(inst, minCost, optimalOrder)
    requires t < |inst.demand| && (t >= 1 || i == 0)
    requires inst.holding * i <= inst.maxStorage
    ensures i < |optimalOrder[t]|
    ensures var e := i + optimalOrder[t][i] - inst.demand[t];
            e >= 0 && inst.holding * e <= inst.maxStorage
  {
    var d := inst.demand[t];
    MulMonotone(i, 1, inst.holding);
    if t < inst.Last() {
      StorableStockIsFinite(inst, minCost, optimalOrder, t, i);
      var next := minCost[t + 1];
      assert PeriodRows(inst, t, next, minCost[t], optimalOrder[t]);
      assert OptimalCell(inst, t, i, next, minCost[t][i], optimalOrder[t][i]);
      var j: nat :| FirstMinimiser(inst, t, i, next, minCost[t][i], optimalOrder[t][i], j);
      assert Admissible(inst, t, i, j);
    } else {
      assert LastPeriodRows(inst, minCost[t], optimalOrder[t]);
      if i > d {
        MulMonotone(inst.holding, i - d, i);
      }
    }
  }

  /** Appending an order that leaves a storable stock keeps a carrying,
      feasible schedule carrying and feasible. */
  lemma ExtendFeasible(inst: Instance, table: seq<seq<int>>, schedule: seq<Entry>, order: int)
    requires Carries(table, inst.demand, schedule) && Feasible(inst, schedule, |schedule|)
    requires |schedule| < |inst.demand| && |schedule| < |table|
    requires 0 <= Level(schedule, inst.demand, |schedule|) < |table[|schedule|]|
    requires order == table[|schedule|][Level(schedule, inst.demand, |schedule|)]
    requires Storable(inst, Level(schedule, inst.demand, |schedule|) + order - inst.demand[|schedule|])
    ensures var s := schedule + [Entry(|schedule| + 1, order)];
            && Carries(table, inst.demand, s) && Feasible(inst, s, |s|)
            && Level(s, inst.demand, |s|)
               == Level(schedule, inst.demand, |schedule|) + order - inst.demand[|schedule|]
  {
    var t := |schedule|;
    var e := Entry(t + 1, order);
    ExtendCarries(table, inst.demand, schedule, order);
    forall k | 0 <= k <= t
      ensures Level(schedule + [e], inst.demand, k) == Level(schedule, inst.demand, k)
    {
      LevelExtends(schedule, inst.demand, e, k);
    }
    assert Level(schedule + [e], inst.demand, t + 1)
           == Level(schedule, inst.demand, t) + order - inst.demand[t];
  }

  /** At month t with stock i the table has a cell, and its order leaves a
      storable stock. */
  predicate StepKeepsStock(inst: Instance, table: seq<seq<int>>, t: nat, i: nat)
    requires t < |inst.demand| && t < |table|
  {
    i < |table[t]| && Storable(inst, i + table[t][i] - inst.demand[t])
  }

  /** From every evaluated storable stock, the table's order leaves a
      storable stock. */
  ghost predicate KeepsStock(inst: Instance, table: seq<seq<int>>)
  {
    && |table| >= |inst.demand|
    && forall t: nat, i: nat {:trigger StepKeepsStock(inst, table, t, i)} ::
         t < |inst.demand| && (t >= 1 || i == 0) && Storable(inst, i) ==>
         StepKeepsStock(inst, table, t, i)
  }

  lemma OptimizerKeepsStock(inst: Instance, minCost: seq<seq<Cost>>, optimalOrder: seq<seq<nat>>)
    requires Valid(inst) && Solved(inst, minCost, optimalOrder)
    ensures KeepsStock(inst, optimalOrder)
  {
    forall t: nat, i: nat | t < |inst.demand| && (t >= 1 || i == 0) && Storable(inst, i)
      ensures StepKeepsStock(inst, optimalOrder, t, i)
    {
      OptimizerOrderKeepsStock(inst, minCost, optimalOrder, t, i);
    }
  }

  lemma {:induction false} KeepsStockCarryFrom(inst: Instance, table: seq<seq<int>>,
                                               schedule: seq<Entry>, stock: int)
    requires KeepsStock(inst, table)
    requires Carries(table, inst.demand, schedule) && Feasible(inst, schedule, |schedule|)
    requires stock == Level(schedule, inst.demand, |schedule|)
    ensures var r := CarryFrom(table, inst.demand, |inst.demand|, schedule, stock);
            r.Some? && Feasible(inst, r.value, |inst.demand|)
    decreases |inst.demand| - |schedule|
  {
    var t := |schedule|;
    if t < |inst.demand| {
      assert Storable(inst, stock);
      assert t >= 1 || stock == 0;
      assert StepKeepsStock(inst, table, t, stock);
      var order := table[t][stock];
      ExtendFeasible(inst, table, schedule, order);
      KeepsStockCarryFrom(inst, table, schedule + [Entry(t + 1, order)], stock + order - inst.demand[t]);
    }
  }

  /** On the tables the optimizer builds, the corrected walk returns n
      months, orders nothing negative, and keeps the stock after every
      month's demand non-negative and within the storage test. */
  lemma OptimizerCarriedScheduleFeasible(inst: Instance, minCost: seq<seq<Cost>>,
                                         optimalOrder: seq<seq<nat>>)
    requires Valid(inst) && Solved(inst, minCost, optimalOrder)
    ensures var r := CarriedSchedule(optimalOrder, inst.demand, |inst.demand|);
            && r.Some?
            && |r.value| == |inst.demand|
            && (forall k :: 0 <= k < |r.value| ==> r.value[k].order >= 0)
            && (forall k :: 0 <= k <= |inst.demand| ==> Storable(inst, Level(r.value, inst.demand, k)))
  {
    OptimizerKeepsStock(inst, minCost, optimalOrder);
    KeepsStockCarryFrom(inst, optimalOrder, [], 0);
    var r := CarriedSchedule(optimalOrder, inst.demand, |inst.demand|);
    forall k | 0 <= k < |r.value|
      ensures r.value[k].order >= 0
    {
      assert CarriesAt(optimalOrder, inst.demand, r.value, k);
    }
  }

  /** In an earlier period the cost cell of a storable stock i is the
      period's charge for the policy's order plus the next period's cost at
      the stock that order leaves. */
  lemma OptimizerStepCost(inst: Instance, minCost: seq<seq<Cost>>, optimalOrder: seq<seq<nat>>,
                          t: nat, i: nat)
    requires Valid(inst) && Solved(inst, minCost, optimalOrder)
    requires t < inst.Last() && (t >= 1 || i == 0)
    requires inst.holding * i <= inst.maxStorage
    ensures i < |optimalOrder[t]| && i < |minCost[t]|
    ensures var e := i + optimalOrder[t][i] - inst.demand[t];
            && 0 <= e < |minCost[t + 1]|
            && minCost[t][i].Finite? && minCost[t + 1][e].Finite?
            && minCost[t][i].value == Charge(inst, optimalOrder[t][i], e) + minCost[t + 1][e].value
  {
    MulMonotone(i, 1, inst.holding);
    StorableStockIsFinite(inst, minCost, optimalOrder, t, i);
    assert PeriodRows(inst, t, minCost[t + 1], minCost[t], optimalOrder[t]);
    RowStepCost(inst, t, i, minCost[t + 1], minCost[t], optimalOrder[t]);
  }

  lemma RowStepCost(inst: Instance, t: nat, i: nat, next: seq<Cost>, costs: seq<Cost>, policy: seq<nat>)
    requires Valid(inst) && t < inst.Last() && PeriodRows(inst, t, next, costs, policy)
    requires i <= inst.maxStorage && costs[i].Finite?
    ensures i < |policy|
    ensures var e := i + policy[i] - inst.demand[t];
            && 0 <= e < |next| && next[e].Finite?
            && costs[i].value == Charge(inst, policy[i], e) + next[e].value
  {
    OptimalCellCost(inst, t, i, next, costs[i], policy[i]);
  }

  /** In the last period the cost cell of a storable stock i is the charge
      for the policy's order, less the holding on what is left after demand:
      the row charges no holding at all. */
  lemma OptimizerLastCost(inst: Instance, minCost: seq<seq<Cost>>, optimalOrder: seq<seq<nat>>, i: nat)
    requires Valid(inst) && Solved(inst, minCost, optimalOrder)
    requires inst.Last() >= 1 || i == 0
    requires inst.holding * i <= inst.maxStorage
    ensures i < |optimalOrder[inst.Last()]| && i < |minCost[inst.Last()]|
    ensures var t := inst.Last();
            var e := i + optimalOrder[t][i] - inst.demand[t];
            && e >= 0 && minCost[t][i].Finite?
            && minCost[t][i].value + inst.holding * e == Charge(inst, optimalOrder[t][i], e)
  {
    var t := inst.Last();
    OptimizerOrderKeepsStock(inst, minCost, optimalOrder, t, i);
    MulMonotone(i, 1, inst.holding);
    assert LastPeriodRows(inst, minCost[t], optimalOrder[t]);
  }

  /** The report charges a month exactly what the cost model charges when
      the stock after demand is not negative. */
  lemma MonthlyCostIsCharge(inst: Instance, order: nat, end: int)
    requires end >= 0
    ensures MonthlyCost(UnitCosts(inst.production, inst.setup, inst.holding), order, end)
            == Charge(inst, order, end)
  {
  }

  /** At month t with stock i the cost cell is finite and is the month's
      charge for the policy's order plus the next month's cell at the stock
      it leaves; in the last month, the charge less the holding on that
      stock. */
  predicate StepCost(inst: Instance, minCost: seq<seq<Cost>>, table: seq<seq<nat>>, t: nat, i: nat)
    requires t < |inst.demand| && t < |minCost| && t < |table|
  {
    && i < |table[t]| && i < |minCost[t]| && minCost[t][i].Finite?
    && var e := i + table[t][i] - inst.demand[t];
       && 0 <= e
       && if t + 1 < |inst.demand| then
            && t + 1 < |minCost| && e < |minCost[t + 1]| && minCost[t + 1][e].Finite?
            && minCost[t][i].value == Charge(inst, table[t][i], e) + minCost[t + 1][e].value
          else
            minCost[t][i].value + inst.holding * e == Charge(inst, table[t][i], e)
  }

  /** StepCost holds at every evaluated storable stock. */
  ghost predicate CostsFollow(inst: Instance, minCost: seq<seq<Cost>>, table: seq<seq<nat>>)
  {
    && |minCost| >= |inst.demand| && |table| >= |inst.demand|
    && forall t: nat, i: nat {:trigger StepCost(inst, minCost, table, t, i)} ::
         t < |inst.demand| && (t >= 1 || i == 0) && Storable(inst, i) ==>
         StepCost(inst, minCost, table, t, i)
  }

  lemma OptimizerCostsFollow(inst: Instance, minCost: seq<seq<Cost>>, optimalOrder: seq<seq<nat>>)
    requires Valid(inst) && Solved(inst, minCost, optimalOrder)
    ensures CostsFollow(inst, minCost, optimalOrder)
  {
    forall t: nat, i: nat | t < |inst.demand| && (t >= 1 || i == 0) && Storable(inst, i)
      ensures StepCost(inst, minCost, optimalOrder, t, i)
    {
      if t < inst.Last() {
        OptimizerStepCost(inst, minCost, optimalOrder, t, i);
      } else {
        OptimizerLastCost(inst, minCost, optimalOrder, i);
      }
    }
  }

  /** From month k + 1 on, the corrected walk's monthly costs add up to the
      cost cell of the stock it carries into month k + 1, plus the holding
      on the stock it leaves after the last month. */
  lemma {:induction false} CarriedCostFrom(inst: Instance, minCost: seq<seq<Cost>>,
                                           table: seq<seq<nat>>, s: seq<Entry>, k: nat)
    requires CostsFollow(inst, minCost, table)
    requires |s| == |inst.demand| && Carries(table, inst.demand, s)
    requires forall m :: 0 <= m <= |s| ==> Storable(inst, Level(s, inst.demand, m))
    requires k < |s|
    ensures 0 <= Level(s, inst.demand, k) < |minCost[k]|
    ensures minCost[k][Level(s, inst.demand, k)].Finite?
    ensures var c := UnitCosts(inst.production, inst.setup, inst.holding);
            CostUpTo(s, inst.demand, c, |s|) - CostUpTo(s, inst.demand, c, k)
            == minCost[k][Level(s, inst.demand, k)].value + inst.holding * Level(s, inst.demand, |s|)
    decreases |s| - k
  {
    var d := inst.demand;
    var x := Level(s, d, k);
    assert Storable(inst, x);
    assert k >= 1 || x == 0;
    assert CarriesAt(table, d, s, k);
    assert StepCost(inst, minCost, table, k, x);
    assert Level(s, d, k + 1) == x + s[k].order - d[k];
    MonthlyCostIsCharge(inst, table[k][x], Level(s, d, k + 1));
    if k < |s| - 1 {
      CarriedCostFrom(inst, minCost, table, s, k + 1);
    }
  }

  /** The corrected walk realises the optimum: on the optimizer's tables
      its detailed total is the minimum cost from month 1 with an empty
      stock, plus the holding on any stock left after the last month, which
      the last period's cost row does not charge; the cost breakdown's total
      agrees with it. */
  lemma OptimizerCarriedScheduleCost(inst: Instance, minCost: seq<seq<Cost>>,
                                     optimalOrder: seq<seq<nat>>)
    requires Valid(inst) && Solved(inst, minCost, optimalOrder)
    ensures var r := CarriedSchedule(optimalOrder, inst.demand, |inst.demand|);
            var c := UnitCosts(inst.production, inst.setup, inst.holding);
            && r.Some?
            && minCost[0][0].Finite?
            && CalculateDetailedCosts(r.value, inst.demand, c).1
               == minCost[0][0].value + inst.holding * Level(r.value, inst.demand, |inst.demand|)
            && CalculateCostBreakdown(r.value, inst.demand, c).total
               == CalculateDetailedCosts(r.value, inst.demand, c).1
  {
    var r := CarriedSchedule(optimalOrder, inst.demand, |inst.demand|);
    var c := UnitCosts(inst.production, inst.setup, inst.holding);
    OptimizerCarriedScheduleFeasible(inst, minCost, optimalOrder);
    OptimizerCostsFollow(inst, minCost, optimalOrder);
    CarriedCostFrom(inst, minCost, optimalOrder, r.value, 0);
    BreakdownAgreesWithDetailed(r.value, inst.demand, c);
  }
}
