/** A three-month instance on which calculate_optimal_sol, as written, loses
    demand: it indexes the policy table with the distance between last
    month's order and demand, and resets that index to 0 after a month that
    orders nothing, so it can read a cell for a stock the schedule never
    carries. The instance passes validate_inputs and meets Valid.

    demand [1, 1, 2], max_order 3, max_storage 2, production 1, setup 10,
    holding 1. The optimum (cost 25) orders 2, 0, 2. The as-written walk
    emits 2, 0, 0: after month 2 orders nothing it reads row 1 at stock 0
    (order 3, gap 2) and then row 2 at stock 2, whose order is 0. */
module ReconstructionGap {
  import opened Optional
  import opened CostModel
  import opened Optimizer
  import opened Reconstruction
  import opened Reports
  import opened Carried

  function Example(): (inst: Instance)
    ensures Valid(inst)
  {
    Instance([1, 1, 2], 3, 2, 1, 10, 1)
  }

  /** The last period orders the demand left uncovered: 2, 1 or 0 units at
      cost 12, 11 or 0. */
  lemma ExampleLastRow(minCost: seq<seq<Cost>>, optimalOrder: seq<seq<nat>>)
    requires Solved(Example(), minCost, optimalOrder)
    ensures minCost[2][0] == Finite(12) && minCost[2][1] == Finite(11) && minCost[2][2] == Finite(0)
    ensures optimalOrder[2][0] == 2 && optimalOrder[2][2] == 0
  {
    var inst := Example();
    assert LastPeriodRows(inst, minCost[2], optimalOrder[2]);
    assert 0 < |minCost[2]| && 2 < |minCost[2]|;
  }

  /** The last period's cost row as ExampleLastRow states it. */
  predicate LastCosts(next: seq<Cost>)
  {
    |next| == 6 && next[0] == Finite(12) && next[1] == Finite(11) && next[2] == Finite(0)
  }

  /** Month 2 from an empty stock: ordering 3 and holding 2 (cost 15) beats
      ordering 1 now and 2 next month (11 + 12) and ordering 2 (13 + 11). */
  lemma ExampleRowOneEmpty(next: seq<Cost>, best: Cost, choice: int)
    requires LastCosts(next) && OptimalCell(Example(), 1, 0, next, best, choice)
    ensures best == Finite(15) && choice == 3
  {
    var inst := Example();
    assert Scanned(inst, 1, 0, 3);
    assert Candidate(inst, 1, 0, 3, next) == Finite(15);
    assert Candidate(inst, 1, 0, 0, next) == Finite(23);
    assert Candidate(inst, 1, 0, 1, next) == Finite(23);
    assert Candidate(inst, 1, 0, 2, next) == Finite(24);
    var j: nat :| FirstMinimiser(inst, 1, 0, next, best, choice, j);
  }

  /** Month 2 with one unit in stock orders nothing (cost 0 + 12). */
  lemma ExampleRowOneHolding(next: seq<Cost>, best: Cost, choice: int)
    requires LastCosts(next) && OptimalCell(Example(), 1, 1, next, best, choice)
    ensures best == Finite(12) && choice == 0
  {
    var inst := Example();
    assert Scanned(inst, 1, 1, 0);
    assert Candidate(inst, 1, 1, 0, next) == Finite(12);
    assert Candidate(inst, 1, 1, 1, next) == Finite(23);
    assert Candidate(inst, 1, 1, 2, next) == Finite(14);
    assert !Admissible(inst, 1, 1, 3);
    var j: nat :| FirstMinimiser(inst, 1, 1, next, best, choice, j);
  }

  /** Month 2 with two units in stock costs at least 12. */
  lemma ExampleRowOneFull(next: seq<Cost>, best: Cost, choice: int)
    requires LastCosts(next) && OptimalCell(Example(), 1, 2, next, best, choice)
    ensures best.Finite? && best.value >= 12
  {
    var inst := Example();
    assert Scanned(inst, 1, 2, 0);
    assert Candidate(inst, 1, 2, 0, next) == Finite(12);
    assert Candidate(inst, 1, 2, 1, next) == Finite(13);
    assert !Admissible(inst, 1, 2, 2);
    var j: nat :| FirstMinimiser(inst, 1, 2, next, best, choice, j);
  }

  /** Month 1 orders 2 (cost 13 + 12 = 25): ordering 1 costs 11 + 15 and
      ordering 3 costs 15 + at least 12. */
  lemma ExampleRowZeroCell(next: seq<Cost>, best: Cost, choice: int)
    requires |next| == 6 && next[0] == Finite(15) && next[1] == Finite(12)
    requires next[2].Finite? && next[2].value >= 12
    requires OptimalCell(Example(), 0, 0, next, best, choice)
    ensures best == Finite(25) && choice == 2
  {
    var inst := Example();
    assert Scanned(inst, 0, 0, 2);
    assert Candidate(inst, 0, 0, 0, next) == Finite(26);
    assert Candidate(inst, 0, 0, 1, next) == Finite(26);
    assert Candidate(inst, 0, 0, 2, next) == Finite(25);
    assert Candidate(inst, 0, 0, 3, next).value >= 27;
    var j: nat :| FirstMinimiser(inst, 0, 0, next, best, choice, j);
  }

  /** The cells of the example's tables that the two walks read. */
  lemma ExampleTables(minCost: seq<seq<Cost>>, optimalOrder: seq<seq<nat>>)
    requires Solved(Example(), minCost, optimalOrder)
    ensures minCost[0][0] == Finite(25) && optimalOrder[0][0] == 2
    ensures optimalOrder[1][0] == 3 && optimalOrder[1][1] == 0
    ensures optimalOrder[2][0] == 2 && optimalOrder[2][2] == 0
  {
    var inst := Example();
    ExampleLastRow(minCost, optimalOrder);
    var next := minCost[2];
    assert PeriodRows(inst, 1, next, minCost[1], optimalOrder[1]);
    assert OptimalCell(inst, 1, 0, next, minCost[1][0], optimalOrder[1][0]);
    assert OptimalCell(inst, 1, 1, next, minCost[1][1], optimalOrder[1][1]);
    assert OptimalCell(inst, 1, 2, next, minCost[1][2], optimalOrder[1][2]);
    ExampleRowOneEmpty(next, minCost[1][0], optimalOrder[1][0]);
    ExampleRowOneHolding(next, minCost[1][1], optimalOrder[1][1]);
    ExampleRowOneFull(next, minCost[1][2], optimalOrder[1][2]);
    assert PeriodRows(inst, 0, minCost[1], minCost[0], optimalOrder[0]);
    assert OptimalCell(inst, 0, 0, minCost[1], minCost[0][0], optimalOrder[0][0]);
    ExampleRowZeroCell(minCost[1], minCost[0][0], optimalOrder[0][0]);
  }

  /** On the example, calculate_optimal_sol as written emits 2, 0, 0: four
      units of demand against two ordered, so the detailed report ends month
      3 two units short and totals 13 instead of the optimum 25. */
  lemma AbsoluteGapLosesDemand(minCost: seq<seq<Cost>>, optimalOrder: seq<seq<nat>>)
    requires Solved(Example(), minCost, optimalOrder)
    ensures var sol := CalculateOptimalSol(optimalOrder, Example().demand, 3);
            && sol == Some([Entry(1, 2), Entry(2, 0), Entry(3, 0)])
            && Level(sol.value, Example().demand, 3) == -2
            && CalculateDetailedCosts(sol.value, Example().demand, UnitCosts(1, 10, 1)).1 == 13
            && minCost[0][0] == Finite(25)
  {
    var inst := Example();
    var demand := inst.demand;
    ExampleTables(minCost, optimalOrder);
    var cols: seq<nat> := [0, 1, 2];
    assert Held(optimalOrder, cols, 0) == 0;
    assert Held(optimalOrder, cols, 1) == 0;
    assert FollowsPolicy(optimalOrder, demand, cols);
    OptimalSolComplete(optimalOrder, demand, cols);
    var sol := CalculateOptimalSol(optimalOrder, demand, 3);
    assert sol.value == [Entry(1, 2), Entry(2, 0), Entry(3, 0)];
    var c := UnitCosts(1, 10, 1);
    assert Level(sol.value, demand, 1) == 1;
    assert Level(sol.value, demand, 2) == 0;
    assert CostUpTo(sol.value, demand, c, 1) == 13;
    assert CostUpTo(sol.value, demand, c, 2) == 13;
  }

  /** On the same tables the carried walk emits the optimum 2, 0, 2: it
      meets every month's demand and its detailed total is the table's
      minimum, 25. */
  lemma CarriedWalkMeetsDemand(minCost: seq<seq<Cost>>, optimalOrder: seq<seq<nat>>)
    requires Solved(Example(), minCost, optimalOrder)
    ensures var sol := CarriedSchedule(optimalOrder, Example().demand, 3);
            && sol == Some([Entry(1, 2), Entry(2, 0), Entry(3, 2)])
            && Level(sol.value, Example().demand, 3) == 0
            && CalculateDetailedCosts(sol.value, Example().demand, UnitCosts(1, 10, 1)).1
               == minCost[0][0].value
  {
    var inst := Example();
    var demand := inst.demand;
    ExampleTables(minCost, optimalOrder);
    OptimizerCarriedScheduleFeasible(inst, minCost, optimalOrder);
    var sol := CarriedSchedule(optimalOrder, demand, 3);
    var s := sol.value;
    assert CarriesAt(optimalOrder, demand, s, 0);
    assert CarriesAt(optimalOrder, demand, s, 1);
    assert CarriesAt(optimalOrder, demand, s, 2);
    assert Level(s, demand, 0) == 0;
    assert s[0] == Entry(1, 2);
    assert Level(s, demand, 1) == 1;
    assert s[1] == Entry(2, 0);
    assert Level(s, demand, 2) == 0;
    assert s[2] == Entry(3, 2);
    assert s == [Entry(1, 2), Entry(2, 0), Entry(3, 2)];
    var c := UnitCosts(1, 10, 1);
    assert CostUpTo(s, demand, c, 1) == 13;
    assert CostUpTo(s, demand, c, 2) == 13;
    assert CostUpTo(s, demand, c, 3) == 25;
  }
}
