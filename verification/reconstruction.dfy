/** InventoryOptimizer.calculate_optimal_sol: the forward walk over the
    policy table that turns it into one order per month. */
module Reconstruction {
  import opened Optional
  import opened CostModel
  import opened Optimizer

  /** One line of the schedule: the month (from 1) and its order. */
  datatype Entry = Entry(month: nat, order: int)

  function Max(a: int, b: int): int
  {
    if a >= b then a else b
  }

  /** The distance between last month's order and last month's demand, which
      the walk uses as this month's column. */
  function Gap(order: int, demand: int): (r: nat)
    ensures r == order - demand || r == demand - order
  {
    if order > demand then order - demand else demand - order
  }

  /** Every column cols[k] is a cell of row k of the table. */
  ghost predicate InTable(table: seq<seq<int>>, cols: seq<nat>)
  {
    && |cols| <= |table|
    && forall k :: 0 <= k < |cols| ==> cols[k] < |table[k]|
  }

  /** The column the walk holds after emitting month k + 1: 0 when that
      month's order is 0, otherwise the column it was read from. */
  function Held(table: seq<seq<int>>, cols: seq<nat>, k: nat): (r: nat)
    requires InTable(table, cols) && k < |cols|
    ensures r < |table[k]|
  {
    if table[k][cols[k]] == 0 then 0 else cols[k]
  }

  /** cols are the columns the walk reads, one per month: it starts at
      column 0 of row 0, and the column of row k (k >= 1) is the gap
      between row k - 1's order at the held column and demand[k - 1]. */
  ghost predicate FollowsPolicy(table: seq<seq<int>>, demand: seq<int>, cols: seq<nat>)
  {
    && |cols| >= 1
    && cols[0] == 0
    && InTable(table, cols)
    && |cols| - 1 <= |demand|
    && forall k {:trigger Held(table, cols, k)} :: 0 <= k < |cols| - 1 ==>
         cols[k + 1] == Gap(table[k][Held(table, cols, k)], demand[k])
  }

  /** The schedule read along the columns cols. */
  ghost predicate Trail(table: seq<seq<int>>, demand: seq<int>, cols: seq<nat>, schedule: seq<Entry>)
  {
    && FollowsPolicy(table, demand, cols)
    && |schedule| == |cols|
    && forall k :: 0 <= k < |cols| ==> schedule[k] == Entry(k + 1, table[k][cols[k]])
  }

  /** The walk from month |cols| + 1 on; None where the source would raise
      IndexError. */
  function ColumnsFrom(table: seq<seq<int>>, demand: seq<int>, n: nat, cols: seq<nat>): (r: Option<seq<nat>>)
    requires FollowsPolicy(table, demand, cols)
    ensures r.Some? ==> FollowsPolicy(table, demand, r.value)
    ensures r.Some? ==> |r.value| == Max(n, |cols|) && r.value[..|cols|] == cols
    decreases n - |cols|
  {
    if |cols| >= n then Some(cols)
    else
      var t := |cols|;
      var held := Held(table, cols, t - 1);
      if t - 1 >= |demand| || t >= |table| then None
      else
        var l := Gap(table[t - 1][held], demand[t - 1]);
        if l >= |table[t]| then None
        else
          assert forall k :: 0 <= k < t ==> Held(table, cols + [l], k) == Held(table, cols, k);
          ColumnsFrom(table, demand, n, cols + [l])
  }

  /** The columns of the whole walk, starting at column 0 of row 0. */
  function Columns(table: seq<seq<int>>, demand: seq<int>, n: nat): (r: Option<seq<nat>>)
    ensures r.Some? ==> FollowsPolicy(table, demand, r.value) && |r.value| == Max(n, 1)
  {
    if |table| == 0 || |table[0]| == 0 then None
    else ColumnsFrom(table, demand, n, [0])
  }

  /** calculate_optimal_sol: month 1 orders table[0][0]; month t + 1 orders
      the table's entry in row t at the gap column; the held column resets to
      0 after a month that orders nothing. With n <= 1 the source still emits
      the month-1 line. */
  function CalculateOptimalSol(table: seq<seq<int>>, demand: seq<int>, n: nat): (r: Option<seq<Entry>>)
    ensures r.Some? ==> |r.value| == Max(n, 1) && |table| > 0 && |table[0]| > 0
    ensures r.Some? ==> r.value[0] == Entry(1, table[0][0])
    ensures r.Some? ==> exists cols :: Trail(table, demand, cols, r.value)
  {
    match Columns(table, demand, n)
    case None => None
    case Some(cols) =>
      var schedule := seq(|cols|, k requires 0 <= k < |cols| => Entry(k + 1, table[k][cols[k]]));
      assert Trail(table, demand, cols, schedule);
      Some(schedule)
  }

  /** A non-empty prefix of a walk is a walk. */
  lemma PrefixFollowsPolicy(table: seq<seq<int>>, demand: seq<int>, cols: seq<nat>, m: nat)
    requires FollowsPolicy(table, demand, cols) && 1 <= m <= |cols|
    ensures FollowsPolicy(table, demand, cols[..m])
  {
    var p := cols[..m];
    assert forall k :: 0 <= k < m ==> Held(table, p, k) == Held(table, cols, k);
  }

  /** The walk is determined by the table: two column sequences of the same
      length that both follow the policy are equal. */
  lemma {:induction false} FollowsPolicyUnique(table: seq<seq<int>>, demand: seq<int>,
                                               c1: seq<nat>, c2: seq<nat>)
    requires FollowsPolicy(table, demand, c1) && FollowsPolicy(table, demand, c2)
    requires |c1| == |c2|
    ensures c1 == c2
    decreases |c1|
  {
    if |c1| > 1 {
      var m := |c1| - 1;
      PrefixFollowsPolicy(table, demand, c1, m);
      PrefixFollowsPolicy(table, demand, c2, m);
      FollowsPolicyUnique(table, demand, c1[..m], c2[..m]);
      assert c1[m - 1] == c2[m - 1];
      assert Held(table, c1, m - 1) == Held(table, c2, m - 1);
      assert c1[m] == c2[m];
      assert c1 == c1[..m] + [c1[m]] && c2 == c2[..m] + [c2[m]];
    }
  }

  /** One step of the walk along a full-length walk: from a prefix of
      `full`, the walk reads the next column of `full`. */
  lemma ColumnsFromStep(table: seq<seq<int>>, demand: seq<int>, n: nat,
                        cols: seq<nat>, full: seq<nat>)
    requires FollowsPolicy(table, demand, cols) && FollowsPolicy(table, demand, full)
    requires |cols| < |full| == n && full[..|cols|] == cols
    ensures FollowsPolicy(table, demand, full[..|cols| + 1])
    ensures ColumnsFrom(table, demand, n, cols) == ColumnsFrom(table, demand, n, full[..|cols| + 1])
  {
    var t := |cols|;
    assert full[..t + 1] == cols + [full[t]];
    assert Held(table, cols, t - 1) == Held(table, full, t - 1);
    PrefixFollowsPolicy(table, demand, full, t + 1);
  }

  /** The walk fails only when no column sequence of the full length follows
      the policy: when one exists, the walk produces exactly it. */
  lemma {:induction false} ColumnsFromComplete(table: seq<seq<int>>, demand: seq<int>, n: nat,
                                               cols: seq<nat>, full: seq<nat>)
    requires FollowsPolicy(table, demand, cols) && FollowsPolicy(table, demand, full)
    requires |cols| <= |full| == n && full[..|cols|] == cols
    ensures ColumnsFrom(table, demand, n, cols) == Some(full)
    decreases n - |cols|
  {
    var t := |cols|;
    if t < n {
      ColumnsFromStep(table, demand, n, cols, full);
      ColumnsFromComplete(table, demand, n, full[..t + 1], full);
    } else {
      assert full == full[..t];
    }
  }

  lemma OptimalSolComplete(table: seq<seq<int>>, demand: seq<int>, cols: seq<nat>)
    requires FollowsPolicy(table, demand, cols)
    ensures var r := CalculateOptimalSol(table, demand, |cols|);
            r.Some? && Trail(table, demand, cols, r.value)
  {
    ColumnsFromComplete(table, demand, |cols|, [0], cols);
    var r := CalculateOptimalSol(table, demand, |cols|);
    var w :| Trail(table, demand, w, r.value);
    FollowsPolicyUnique(table, demand, w, cols);
  }

  /** Columns of a walk over the optimizer's tables: each passes the storage
      test and names a finite cell of the cost table. */
  ghost predicate StorableColumns(inst: Instance, minCost: seq<seq<Cost>>, cols: seq<nat>)
  {
    forall k :: 0 <= k < |cols| ==>
      && inst.holding * cols[k] <= inst.maxStorage
      && k < |minCost| && cols[k] < |minCost[k]|
      && minCost[k][cols[k]].Finite?
  }

  /** The order held at a finite cell was placed for a scan index that
      passed the storage test, so the gap it leaves to the period's demand
      passes it too: either the gap is at most the end-of-period inventory,
      or (when the order fell short of demand) at most the starting stock. */
  lemma GapIsStorable(inst: Instance, t: nat, i: nat, next: seq<Cost>, best: Cost, choice: int, j: nat)
    requires t < |inst.demand| && inst.holding >= 1
    requires inst.holding * i <= inst.maxStorage
    requires FirstMinimiser(inst, t, i, next, best, choice, j)
    ensures inst.holding * Gap(choice, inst.demand[t]) <= inst.maxStorage
  {
    var d := inst.demand[t];
    var l := Gap(choice, d);
    assert Admissible(inst, t, i, j);
    var e := EndInventory(i, j, d);
    if choice >= d {
      assert l <= e;
      MulMonotone(inst.holding, l, e);
    } else {
      assert l <= i;
      MulMonotone(inst.holding, l, i);
    }
  }

  /** Appending the column the walk reads next keeps a walk a walk. */
  lemma ExtendFollowsPolicy(table: seq<seq<int>>, demand: seq<int>, cols: seq<nat>, l: nat)
    requires FollowsPolicy(table, demand, cols)
    requires |cols| < |table| && |cols| <= |demand| && l < |table[|cols|]|
    requires l == Gap(table[|cols| - 1][Held(table, cols, |cols| - 1)], demand[|cols| - 1])
    ensures FollowsPolicy(table, demand, cols + [l])
  {
    var c := cols + [l];
    assert forall k :: 0 <= k < |cols| ==> Held(table, c, k) == Held(table, cols, k);
  }

  /** The column the walk reads next on the optimizer's tables passes the
      storage test and names a finite cost cell. */
  lemma OptimizerNextColumn(inst: Instance, minCost: seq<seq<Cost>>, optimalOrder: seq<seq<nat>>,
                            cols: seq<nat>) returns (l: nat)
    requires Valid(inst) && Solved(inst, minCost, optimalOrder)
    requires FollowsPolicy(optimalOrder, inst.demand, cols) && |cols| < |inst.demand|
    requires StorableColumns(inst, minCost, cols)
    ensures l == Gap(optimalOrder[|cols| - 1][Held(optimalOrder, cols, |cols| - 1)],
                     inst.demand[|cols| - 1])
    ensures inst.holding * l <= inst.maxStorage && l < |optimalOrder[|cols|]|
    ensures l < |minCost[|cols|]| && minCost[|cols|][l].Finite?
  {
    var t := |cols|;
    var held := Held(optimalOrder, cols, t - 1);
    MulMonotone(held, 1, inst.holding);
    StorableStockIsFinite(inst, minCost, optimalOrder, t - 1, held);
    var next := minCost[t];
    assert PeriodRows(inst, t - 1, next, minCost[t - 1], optimalOrder[t - 1]);
    var best, choice := minCost[t - 1][held], optimalOrder[t - 1][held];
    assert OptimalCell(inst, t - 1, held, next, best, choice);
    var j: nat :| FirstMinimiser(inst, t - 1, held, next, best, choice, j);
    GapIsStorable(inst, t - 1, held, next, best, choice, j);
    l := Gap(choice, inst.demand[t - 1]);
    MulMonotone(l, 1, inst.holding);
    StorableStockIsFinite(inst, minCost, optimalOrder, t, l);
  }

  /** One more month of the walk over the optimizer's tables stays inside
      the policy table and on a finite, storable cell. */
  lemma OptimizerWalkStep(inst: Instance, minCost: seq<seq<Cost>>, optimalOrder: seq<seq<nat>>,
                          cols: seq<nat>) returns (l: nat)
    requires Valid(inst) && Solved(inst, minCost, optimalOrder)
    requires FollowsPolicy(optimalOrder, inst.demand, cols) && |cols| < |inst.demand|
    requires StorableColumns(inst, minCost, cols)
    ensures FollowsPolicy(optimalOrder, inst.demand, cols + [l])
    ensures StorableColumns(inst, minCost, cols + [l])
  {
    l := OptimizerNextColumn(inst, minCost, optimalOrder, cols);
    ExtendFollowsPolicy(optimalOrder, inst.demand, cols, l);
  }

  lemma {:induction false} ExtendOptimizerWalk(inst: Instance, minCost: seq<seq<Cost>>,
                                               optimalOrder: seq<seq<nat>>, cols: seq<nat>)
    returns (full: seq<nat>)
    requires Valid(inst) && Solved(inst, minCost, optimalOrder)
    requires FollowsPolicy(optimalOrder, inst.demand, cols) && |cols| <= |inst.demand|
    requires StorableColumns(inst, minCost, cols)
    ensures FollowsPolicy(optimalOrder, inst.demand, full) && |full| == |inst.demand|
    ensures StorableColumns(inst, minCost, full)
    decreases |inst.demand| - |cols|
  {
    if |cols| == |inst.demand| {
      full := cols;
    } else {
      var l := OptimizerWalkStep(inst, minCost, optimalOrder, cols);
      full := ExtendOptimizerWalk(inst, minCost, optimalOrder, cols + [l]);
    }
  }

  /** On the tables the optimizer builds, calculate_optimal_sol never leaves
      the policy table: it returns n months, every column it reads passes
      the storage test and names a finite cost cell, and every order is
      non-negative. */
  lemma OptimizerScheduleInTable(inst: Instance, minCost: seq<seq<Cost>>, optimalOrder: seq<seq<nat>>)
    returns (cols: seq<nat>)
    requires Valid(inst) && Solved(inst, minCost, optimalOrder)
    ensures |cols| == |inst.demand| && StorableColumns(inst, minCost, cols)
    ensures var r := CalculateOptimalSol(optimalOrder, inst.demand, |inst.demand|);
            && r.Some?
            && Trail(optimalOrder, inst.demand, cols, r.value)
            && forall k :: 0 <= k < |r.value| ==> r.value[k].order >= 0
  {
    StorableStockIsFinite(inst, minCost, optimalOrder, 0, 0);
    cols := ExtendOptimizerWalk(inst, minCost, optimalOrder, [0]);
    OptimalSolComplete(optimalOrder, inst.demand, cols);
  }
}
