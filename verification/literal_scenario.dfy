/** A two-month instance worked by hand: demand [10, 10], max_order 20,
    max_storage 20, production 1, setup 5, holding 1.
    Ordering 10 in each month costs 2 * 5 + 20 = 30; ordering 20 up front
    costs 5 + 20 + 10 of holding = 35. */
module LiteralScenario {
  import opened Optional
  import opened CostModel
  import opened Optimizer
  import opened Reconstruction
  import opened Reports
  import opened Carried

  function Scenario(): (inst: Instance)
    ensures Valid(inst)
  {
    Instance([10, 10], 20, 20, 1, 5, 1)
  }

  /** The last month's cost row: from stock e < 10 it orders 10 - e at
      cost 15 - e, from stock 10 it orders nothing. */
  predicate LastCosts(next: seq<Cost>)
  {
    && |next| == 24
    && (forall e :: 0 <= e < 10 ==> next[e] == Finite(15 - e))
    && next[10] == Finite(0)
  }

  lemma ScenarioLastRow(minCost: seq<seq<Cost>>, optimalOrder: seq<seq<nat>>)
    requires Solved(Scenario(), minCost, optimalOrder)
    ensures LastCosts(minCost[1])
    ensures optimalOrder[1][0] == 10
  {
    var inst := Scenario();
    assert LastPeriodRows(inst, minCost[1], optimalOrder[1]);
    forall e | 0 <= e < 10
      ensures minCost[1][e] == Finite(15 - e)
    {
      assert minCost[1][e] == Finite(Charge(inst, 10 - e, 0));
    }
    assert minCost[1][10] == Finite(Charge(inst, 0, 0));
  }

  /** Every index the first month scans costs at least 30 in total: below
      10 the order is forced to 10 and nothing is held; from 10 to 19 it
      holds j - 10 units, costing j + 20; at 20 it costs 35. */
  lemma ScenarioCandidateBound(next: seq<Cost>, j: nat)
    requires LastCosts(next) && j <= 20
    ensures var c := Candidate(Scenario(), 0, 0, j, next);
            c.Finite? && c.value >= 30 && (j == 0 ==> c.value == 30)
  {
    var inst := Scenario();
    if j < 10 {
      assert EndInventory(0, j, 10) == 0;
    } else if j < 20 {
      assert next[j - 10] == Finite(15 - (j - 10));
    }
  }

  /** The first month's cell: cost 30, and the order of the first
      minimiser, scan index 0, which the forced order raises to 10. */
  lemma ScenarioFirstCell(next: seq<Cost>, best: Cost, choice: int)
    requires LastCosts(next) && OptimalCell(Scenario(), 0, 0, next, best, choice)
    ensures best == Finite(30) && choice == 10
  {
    var inst := Scenario();
    assert Scanned(inst, 0, 0, 0);
    ScenarioCandidateBound(next, 0);
    var j: nat :| FirstMinimiser(inst, 0, 0, next, best, choice, j);
    ScenarioCandidateBound(next, j);
  }

  /** On this instance the optimiser's minimum is 30; both walks emit
      10, 10, whose detailed total is that minimum and meets all demand,
      while ordering 20 up front totals 35. */
  lemma ScenarioOptimum(minCost: seq<seq<Cost>>, optimalOrder: seq<seq<nat>>)
    requires Solved(Scenario(), minCost, optimalOrder)
    ensures minCost[0][0] == Finite(30)
    ensures var demand := Scenario().demand;
            var c := UnitCosts(1, 5, 1);
            && CarriedSchedule(optimalOrder, demand, 2) == Some([Entry(1, 10), Entry(2, 10)])
            && CalculateOptimalSol(optimalOrder, demand, 2) == Some([Entry(1, 10), Entry(2, 10)])
            && Level([Entry(1, 10), Entry(2, 10)], demand, 2) == 0
            && CalculateDetailedCosts([Entry(1, 10), Entry(2, 10)], demand, c).1 == 30
            && CalculateDetailedCosts([Entry(1, 20), Entry(2, 0)], demand, c).1 == 35
  {
    var inst := Scenario();
    var demand := inst.demand;
    ScenarioLastRow(minCost, optimalOrder);
    assert PeriodRows(inst, 0, minCost[1], minCost[0], optimalOrder[0]);
    assert OptimalCell(inst, 0, 0, minCost[1], minCost[0][0], optimalOrder[0][0]);
    ScenarioFirstCell(minCost[1], minCost[0][0], optimalOrder[0][0]);

    OptimizerCarriedScheduleFeasible(inst, minCost, optimalOrder);
    var s := CarriedSchedule(optimalOrder, demand, 2).value;
    assert CarriesAt(optimalOrder, demand, s, 0);
    assert CarriesAt(optimalOrder, demand, s, 1);
    assert Level(s, demand, 0) == 0;
    assert s[0] == Entry(1, 10);
    assert Level(s, demand, 1) == 0;
    assert s[1] == Entry(2, 10);
    assert s == [Entry(1, 10), Entry(2, 10)];

    var cols: seq<nat> := [0, 0];
    assert Held(optimalOrder, cols, 0) == 0;
    assert FollowsPolicy(optimalOrder, demand, cols);
    OptimalSolComplete(optimalOrder, demand, cols);
    var sol := CalculateOptimalSol(optimalOrder, demand, 2);
    assert sol.value == [Entry(1, 10), Entry(2, 10)];

    var c := UnitCosts(1, 5, 1);
    assert Level(s, demand, 1) == 0;
    assert CostUpTo(s, demand, c, 1) == 15;
    var up := [Entry(1, 20), Entry(2, 0)];
    assert Level(up, demand, 1) == 10;
    assert Level(up, demand, 2) == 0;
    assert CostUpTo(up, demand, c, 1) == 35;
  }
}
