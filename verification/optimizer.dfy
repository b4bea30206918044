/** The backward dynamic program of InventoryOptimizer.calculate_min_cost:
    it fills the cost table min_cost[t][i] and the policy table
    optimal_order[t][i] for every period t and starting inventory i. */
module Optimizer {
  import opened CostModel

  function ZeroCosts(w: nat): (r: seq<Cost>)
    ensures |r| == w && forall i :: 0 <= i < w ==> r[i] == Finite(0)
  {
    seq(w, _ => Finite(0))
  }

  function ZeroOrders(w: nat): (r: seq<nat>)
    ensures |r| == w && forall i :: 0 <= i < w ==> r[i] == 0
  {
    seq(w, _ => 0)
  }

  /** The last period's rows. For every starting inventory i up to its
      demand d (and inside the cost row) the period orders exactly d - i and
      pays production and setup on it, with no holding term. Cells above d
      are never written and keep their initial 0. */
  ghost predicate LastPeriodRows(inst: Instance, costs: seq<Cost>, policy: seq<nat>)
    requires Valid(inst)
  {
    var d := inst.demand[inst.Last()];
    && |costs| == inst.maxStorage + 4
    && |policy| == inst.maxOrder + 4
    && (forall i :: 0 <= i < |costs| && i <= d ==>
          policy[i] == d - i && costs[i] == Finite(Charge(inst, d - i, 0)))
    && (forall i :: d < i < |costs| ==> costs[i] == Finite(0))
    && (forall i :: Min(d, inst.maxStorage + 3) < i < |policy| ==> policy[i] == 0)
  }

  /** The rows of an earlier period t, given the successor cost row `next`:
      every inventory 0..max_storage holds its OptimalCell, the cells beyond
      keep their initial 0. */
  ghost predicate PeriodRows(inst: Instance, t: nat, next: seq<Cost>,
                             costs: seq<Cost>, policy: seq<nat>)
    requires Valid(inst) && t < inst.Last()
  {
    && |costs| == inst.maxStorage + 4
    && |policy| == inst.maxOrder + 4
    && (forall i :: 0 <= i <= inst.maxStorage ==>
          OptimalCell(inst, t, i, next, costs[i], policy[i]))
    && (forall i :: inst.maxStorage < i < |costs| ==> costs[i] == Finite(0))
    && (forall i :: inst.maxStorage < i < |policy| ==> policy[i] == 0)
  }

  /** Both tables as calculate_min_cost leaves them: n + 1 rows each, the
      last period's rows as LastPeriodRows, every earlier period's rows
      computed from its successor's cost row, and row n untouched. */
  ghost predicate Solved(inst: Instance, minCost: seq<seq<Cost>>, optimalOrder: seq<seq<nat>>)
    requires Valid(inst)
  {
    var n := |inst.demand|;
    && |minCost| == n + 1
    && |optimalOrder| == n + 1
    && (forall t :: 0 <= t <= n ==>
          |minCost[t]| == inst.maxStorage + 4 && |optimalOrder[t]| == inst.maxOrder + 4)
    && LastPeriodRows(inst, minCost[n - 1], optimalOrder[n - 1])
    && (forall t :: 0 <= t < n - 1 ==>
          PeriodRows(inst, t, minCost[t + 1], minCost[t], optimalOrder[t]))
    && minCost[n] == ZeroCosts(inst.maxStorage + 4)
    && optimalOrder[n] == ZeroOrders(inst.maxOrder + 4)
  }

  /** The base case: the loop over i < min(demand[n-1] + 1, max_storage + 4). */
  method FillLastPeriod(inst: Instance) returns (costs: seq<Cost>, policy: seq<nat>)
    requires Valid(inst)
    ensures LastPeriodRows(inst, costs, policy)
  {
    var d := inst.demand[inst.Last()];
    costs := ZeroCosts(inst.maxStorage + 4);
    policy := ZeroOrders(inst.maxOrder + 4);
    var bound := Min(d + 1, inst.maxStorage + 4);
    var i := 0;
    while i < bound
      invariant i <= bound
      invariant |costs| == inst.maxStorage + 4 && |policy| == inst.maxOrder + 4
      invariant forall k :: 0 <= k < i ==>
                  policy[k] == d - k && costs[k] == Finite(Charge(inst, d - k, 0))
      invariant forall k :: i <= k < |costs| ==> costs[k] == Finite(0)
      invariant forall k :: i <= k < |policy| ==> policy[k] == 0
    {
      var ordered := d - i;
      if ordered > 0 {
        costs := costs[i := Finite(inst.production * ordered + inst.setup)];
      } else {
        costs := costs[i := Finite(0)];
      }
      policy := policy[i := ordered];
      i := i + 1;
    }
  }

  /** The state of the scan after indices 0..j-1: all of them passed the
      storage test, best is at most each of their candidates, and when finite
      it is reached first at index `first`, whose order is `choice`. */
  ghost predicate ScanProgress(inst: Instance, t: nat, i: nat, next: seq<Cost>,
                               j: nat, best: Cost, choice: nat, first: nat)
    requires t < |inst.demand|
  {
    && j <= inst.maxOrder + 1
    && (forall k :: 0 <= k < j ==> Admissible(inst, t, i, k))
    && (forall k :: 0 <= k < j ==> AtMost(best, Candidate(inst, t, i, k, next)))
    && (best.Infinite? ==> choice == 0)
    && (best.Finite? ==>
          && first < j
          && Candidate(inst, t, i, first, next) == best
          && choice == Effective(i, first, inst.demand[t])
          && forall k :: 0 <= k < first ==> Candidate(inst, t, i, k, next) != best)
  }

  /** A scan that ran past max_order, or stopped at an index failing the
      storage test, has seen every scanned index. */
  lemma ScanComplete(inst: Instance, t: nat, i: nat, next: seq<Cost>,
                     j: nat, best: Cost, choice: nat, first: nat)
    requires t < |inst.demand| && !(t == 0 && i > 0)
    requires ScanProgress(inst, t, i, next, j, best, choice, first)
    requires j == inst.maxOrder + 1 || !Admissible(inst, t, i, j)
    ensures OptimalCell(inst, t, i, next, best, choice)
  {
    forall k: nat | Scanned(inst, t, i, k)
      ensures AtMost(best, Candidate(inst, t, i, k, next))
    {
      assert k < j;
    }
    if best.Finite? {
      assert FirstMinimiser(inst, t, i, next, best, choice, first);
    }
  }

  /** The scan over order sizes j for one state (t, i), t < n - 1, with the
      early exit at the first storage failure and the strict-improvement
      update. The period-0 test of the source sits inside the j loop and
      fires on its first iteration, so it is hoisted here. */
  method ScanOrders(inst: Instance, t: nat, i: nat, next: seq<Cost>) returns (best: Cost, choice: nat)
    requires Valid(inst) && t < inst.Last() && |next| == inst.maxStorage + 4
    ensures OptimalCell(inst, t, i, next, best, choice)
  {
    best, choice := Infinite, 0;
    if t == 0 && i > 0 {
      return;
    }
    var d := inst.demand[t];
    ghost var first: nat := 0;
    var j := 0;
    while j <= inst.maxOrder
      invariant ScanProgress(inst, t, i, next, j, best, choice, first)
    {
      var ordered := if i + j < d then d else j;
      var nextInventory := i + ordered - d;
      var totalHolding := inst.holding * nextInventory;
      if totalHolding > inst.maxStorage {
        break;
      }
      AdmissibleEndFits(inst, t, i, j);
      var totalMin := Plus(Charge(inst, ordered, nextInventory), next[nextInventory]);
      assert totalMin == Candidate(inst, t, i, j, next);
      if Below(totalMin, best) {
        best, choice := totalMin, ordered;
        first := j;
      }
      j := j + 1;
    }
    ScanComplete(inst, t, i, next, j, best, choice, first);
  }

  /** One period t < n - 1: the loop over i in 0..max_storage. */
  method FillPeriod(inst: Instance, t: nat, next: seq<Cost>) returns (costs: seq<Cost>, policy: seq<nat>)
    requires Valid(inst) && t < inst.Last() && |next| == inst.maxStorage + 4
    ensures PeriodRows(inst, t, next, costs, policy)
  {
    costs := ZeroCosts(inst.maxStorage + 4);
    policy := ZeroOrders(inst.maxOrder + 4);
    var i := 0;
    while i <= inst.maxStorage
      invariant i <= inst.maxStorage + 1
      invariant |costs| == inst.maxStorage + 4 && |policy| == inst.maxOrder + 4
      invariant forall k :: 0 <= k < i ==> OptimalCell(inst, t, k, next, costs[k], policy[k])
      invariant forall k :: i <= k < |costs| ==> costs[k] == Finite(0)
      invariant forall k :: i <= k < |policy| ==> policy[k] == 0
    {
      var best, choice := ScanOrders(inst, t, i, next);
      costs := costs[i := best];
      policy := policy[i := choice];
      i := i + 1;
    }
  }

  /** calculate_min_cost: the last period first, then periods n - 2 down to
      0, each from its successor's cost row. The source returns only the
      policy table; the cost table is returned as well so that its contents
      can be stated. */
  method CalculateMinCost(inst: Instance) returns (minCost: seq<seq<Cost>>, optimalOrder: seq<seq<nat>>)
    requires Valid(inst)
    ensures |minCost| == |inst.demand| + 1 && |optimalOrder| == |inst.demand| + 1
    ensures LastPeriodRows(inst, minCost[inst.Last()], optimalOrder[inst.Last()])
    ensures forall t :: 0 <= t < inst.Last() ==>
              PeriodRows(inst, t, minCost[t + 1], minCost[t], optimalOrder[t])
    ensures Solved(inst, minCost, optimalOrder)
  {
    var n := |inst.demand|;
    minCost := seq(n + 1, _ => ZeroCosts(inst.maxStorage + 4));
    optimalOrder := seq(n + 1, _ => ZeroOrders(inst.maxOrder + 4));
    var lastCosts, lastPolicy := FillLastPeriod(inst);
    minCost := minCost[n - 1 := lastCosts];
    optimalOrder := optimalOrder[n - 1 := lastPolicy];
    var t := n - 1;
    while t > 0
      invariant 0 <= t <= n - 1
      invariant |minCost| == n + 1 && |optimalOrder| == n + 1
      invariant forall u :: 0 <= u <= n ==>
                  |minCost[u]| == inst.maxStorage + 4 && |optimalOrder[u]| == inst.maxOrder + 4
      invariant LastPeriodRows(inst, minCost[n - 1], optimalOrder[n - 1])
      invariant forall u :: t <= u < n - 1 ==>
                  PeriodRows(inst, u, minCost[u + 1], minCost[u], optimalOrder[u])
      invariant minCost[n] == ZeroCosts(inst.maxStorage + 4)
      invariant optimalOrder[n] == ZeroOrders(inst.maxOrder + 4)
    {
      t := t - 1;
      var costs, policy := FillPeriod(inst, t, minCost[t + 1]);
      minCost := minCost[t := costs];
      optimalOrder := optimalOrder[t := policy];
    }
  }

  /** Period 0 evaluates only an empty starting stock: every other cell of
      its cost row stays infinite and its policy cell stays 0. */
  lemma PeriodZeroOnlyFromEmptyStock(inst: Instance, minCost: seq<seq<Cost>>, optimalOrder: seq<seq<nat>>)
    requires Valid(inst) && |inst.demand| >= 2
    requires Solved(inst, minCost, optimalOrder)
    ensures forall i :: 0 < i <= inst.maxStorage ==>
              minCost[0][i] == Infinite && optimalOrder[0][i] == 0
  {
    forall i | 0 < i <= inst.maxStorage
      ensures minCost[0][i] == Infinite && optimalOrder[0][i] == 0
    {
      assert PeriodRows(inst, 0, minCost[1], minCost[0], optimalOrder[0]);
      assert OptimalCell(inst, 0, i, minCost[1], minCost[0][i], optimalOrder[0][i]);
    }
  }

  /** Every evaluated state whose stock passes the storage test
      (holding * i <= max_storage) has a finite minimum cost: ordering with
      index 0 keeps the stock at or below i, and the successor state is again
      such a state. */
  lemma {:induction false} StorableStockIsFinite(inst: Instance, minCost: seq<seq<Cost>>,
                                                 optimalOrder: seq<seq<nat>>, t: nat, i: nat)
    requires Valid(inst) && Solved(inst, minCost, optimalOrder)
    requires t < |inst.demand| && (t >= 1 || i == 0)
    requires inst.holding * i <= inst.maxStorage
    ensures i < |minCost[t]| && minCost[t][i].Finite?
    decreases |inst.demand| - t
  {
    MulMonotone(i, 1, inst.holding);
    if t < inst.Last() {
      var d := inst.demand[t];
      var next := minCost[t + 1];
      var e := EndInventory(i, 0, d);
      MulMonotone(inst.holding, e, i);
      assert Admissible(inst, t, i, 0);
      assert Scanned(inst, t, i, 0);
      StorableStockIsFinite(inst, minCost, optimalOrder, t + 1, e);
      assert Candidate(inst, t, i, 0, next).Finite?;
      assert PeriodRows(inst, t, next, minCost[t], optimalOrder[t]);
      assert OptimalCell(inst, t, i, next, minCost[t][i], optimalOrder[t][i]);
    }
  }

  /** The tables are determined by the instance: any two pairs of tables
      that both meet Solved are equal, row by row from the last period
      back. */
  lemma {:induction false} SolvedSuffixUnique(inst: Instance,
                                              m1: seq<seq<Cost>>, o1: seq<seq<nat>>,
                                              m2: seq<seq<Cost>>, o2: seq<seq<nat>>, t: nat)
    requires Valid(inst) && Solved(inst, m1, o1) && Solved(inst, m2, o2)
    requires t < |inst.demand|
    ensures forall u :: t <= u <= |inst.demand| ==> m1[u] == m2[u] && o1[u] == o2[u]
    decreases |inst.demand| - t
  {
    var n := |inst.demand|;
    if t == n - 1 {
      var d := inst.demand[n - 1];
      assert forall i :: 0 <= i < |m1[t]| ==> m1[t][i] == m2[t][i];
      assert forall i :: 0 <= i < |o1[t]| ==> o1[t][i] == o2[t][i];
    } else {
      SolvedSuffixUnique(inst, m1, o1, m2, o2, t + 1);
      assert PeriodRows(inst, t, m1[t + 1], m1[t], o1[t]);
      assert PeriodRows(inst, t, m2[t + 1], m2[t], o2[t]);
      forall i | 0 <= i <= inst.maxStorage
        ensures m1[t][i] == m2[t][i] && o1[t][i] == o2[t][i]
      {
        OptimalCellUnique(inst, t, i, m1[t + 1], m1[t][i], o1[t][i], m2[t][i], o2[t][i]);
      }
      assert forall i :: 0 <= i < |m1[t]| ==> m1[t][i] == m2[t][i];
      assert forall i :: 0 <= i < |o1[t]| ==> o1[t][i] == o2[t][i];
    }
  }

  lemma SolvedTablesUnique(inst: Instance,
                           m1: seq<seq<Cost>>, o1: seq<seq<nat>>,
                           m2: seq<seq<Cost>>, o2: seq<seq<nat>>)
    requires Valid(inst) && Solved(inst, m1, o1) && Solved(inst, m2, o2)
    ensures m1 == m2 && o1 == o2
  {
    SolvedSuffixUnique(inst, m1, o1, m2, o2, 0);
  }
}
