/** The per-state cost model of the capacitated lot-sizing optimiser: what one
    candidate order costs in one period, which candidates the scan over order
    sizes looks at, and what it means for a table cell to hold the minimum
    and its first minimiser. */
module CostModel {

  /** The arguments of calculate_min_cost. The number of periods n is the
      length of the demand sequence. Costs are integers. */
  datatype Instance = Instance(
    demand: seq<nat>,
    maxOrder: nat,
    maxStorage: nat,
    production: int,
    setup: int,
    holding: int)
  {
    /** The index of the last period, n - 1. */
    function Last(): nat
      requires |demand| > 0
    {
      |demand| - 1
    }
  }

  function Min(a: int, b: int): int
  {
    if a <= b then a else b
  }

  /** The inputs for which the source's table writes stay inside its rows.
      The policy rows are max_order + 4 wide but are written at inventory
      indices: up to min(demand[n-1], max_storage + 3) in the last period and
      up to max_storage in the earlier ones. The cost rows are
      max_storage + 4 wide and are read at the end-of-period inventory, which
      a positive holding cost keeps at or below max_storage. */
  predicate Valid(inst: Instance)
  {
    && |inst.demand| >= 1
    && inst.holding >= 1
    && Min(inst.demand[|inst.demand| - 1], inst.maxStorage + 3) <= inst.maxOrder + 3
    && (|inst.demand| >= 2 ==> inst.maxStorage <= inst.maxOrder + 3)
  }

  /** A cell of the cost table: a finite cost, or the float infinity the
      source starts each minimum from. */
  datatype Cost = Finite(value: int) | Infinite

  /** Adding a finite cost to a cell (infinity absorbs). */
  function Plus(a: int, b: Cost): (r: Cost)
    ensures r.Infinite? <==> b.Infinite?
    ensures b.Finite? ==> r.value - a == b.value
  {
    match b
    case Finite(v) => Finite(a + v)
    case Infinite => Infinite
  }

  /** Strict comparison of cells, as Python's `<` on floats with infinity. */
  predicate Below(a: Cost, b: Cost)
  {
    a.Finite? && (b.Infinite? || a.value < b.value)
  }

  /** Non-strict comparison of cells. */
  predicate AtMost(a: Cost, b: Cost)
  {
    b.Infinite? || (a.Finite? && a.value <= b.value)
  }

  /** The order actually placed for scan index j at starting inventory i:
      when i + j falls short of the period's demand d the order is forced up
      to the whole demand d, otherwise it is j. */
  function Effective(i: nat, j: nat, d: nat): (r: nat)
    ensures i + r >= d
    ensures r >= j
    ensures r != j ==> r == d && i + j < d
  {
    if i + j < d then d else j
  }

  /** Inventory left at the end of the period: the starting inventory plus
      the order placed, less the demand; never negative, because of the
      forced order. */
  function EndInventory(i: nat, j: nat, d: nat): (r: nat)
    ensures r == i + Effective(i, j, d) - d
  {
    if i + j < d then i else i + j - d
  }

  /** One period's own cost: production and setup when something is
      ordered, plus holding on the end-of-period inventory. */
  function Charge(inst: Instance, ordered: nat, end: nat): int
  {
    if ordered > 0 then
      inst.production * ordered + inst.holding * end + inst.setup
    else
      inst.holding * end
  }

  /** The storage test of the scan: the holding charge on the end-of-period
      inventory must not exceed max_storage. */
  predicate Admissible(inst: Instance, t: nat, i: nat, j: nat)
    requires t < |inst.demand|
  {
    inst.holding * EndInventory(i, j, inst.demand[t]) <= inst.maxStorage
  }

  /** Scan index j is evaluated for state (t, i): period 0 only evaluates
      inventory 0, j ranges over 0..max_order, and the scan stops at the
      first index that fails the storage test. */
  predicate Scanned(inst: Instance, t: nat, i: nat, j: nat)
    requires t < |inst.demand|
  {
    && !(t == 0 && i > 0)
    && j <= inst.maxOrder
    && forall k :: 0 <= k <= j ==> Admissible(inst, t, i, k)
  }

  /** Total cost of scan index j at state (t, i) given the successor cost
      row: this period's charge plus the successor's cell at the end-of-period
      inventory. An index outside the successor row (an IndexError in the
      source) is ruled out for scanned indices by AdmissibleEndFits. */
  function Candidate(inst: Instance, t: nat, i: nat, j: nat, next: seq<Cost>): Cost
    requires t < |inst.demand|
  {
    var d := inst.demand[t];
    var end := EndInventory(i, j, d);
    if end < |next| then Plus(Charge(inst, Effective(i, j, d), end), next[end])
    else Infinite
  }

  /** Scan index j is the first index reaching the value `best`, and
      `choice` is the order placed for it. */
  ghost predicate FirstMinimiser(inst: Instance, t: nat, i: nat, next: seq<Cost>,
                                 best: Cost, choice: int, j: nat)
    requires t < |inst.demand|
  {
    && Scanned(inst, t, i, j)
    && Candidate(inst, t, i, j, next) == best
    && choice == Effective(i, j, inst.demand[t])
    && forall k :: 0 <= k < j ==> Candidate(inst, t, i, k, next) != best
  }

  /** The cell (best, choice) of state (t, i) is what the scan over j
      produces: best is at most every scanned candidate and, when finite, is
      reached, with choice the order of the first scanned index reaching it
      (updates use a strict comparison). When no scanned candidate is finite
      the cost stays infinite and the policy cell keeps its initial 0. */
  ghost predicate OptimalCell(inst: Instance, t: nat, i: nat, next: seq<Cost>,
                              best: Cost, choice: int)
    requires t < |inst.demand|
  {
    && (forall j :: Scanned(inst, t, i, j) ==> AtMost(best, Candidate(inst, t, i, j, next)))
    && (best.Infinite? ==> choice == 0)
    && (best.Finite? ==> exists j :: FirstMinimiser(inst, t, i, next, best, choice, j))
  }

  /** A finite cell costs this period's charge for the order it chose plus
      the successor's cost at the stock that order leaves. */
  lemma OptimalCellCost(inst: Instance, t: nat, i: nat, next: seq<Cost>, best: Cost, choice: int)
    requires t < |inst.demand|
    requires OptimalCell(inst, t, i, next, best, choice) && best.Finite?
    ensures choice >= 0
    ensures var e := i + choice - inst.demand[t];
            && 0 <= e < |next| && next[e].Finite?
            && best.value == Charge(inst, choice, e) + next[e].value
  {
    var j: nat :| FirstMinimiser(inst, t, i, next, best, choice, j);
  }

  lemma MulMonotone(h: int, a: int, b: int)
    requires h >= 0 && a <= b
    ensures h * a <= h * b
  {
    assert h * b - h * a == h * (b - a);
  }

  /** With a holding cost of at least 1, an end-of-period inventory that
      passes the storage test is at most max_storage, so it indexes the
      successor cost row (max_storage + 4 wide). */
  lemma AdmissibleEndFits(inst: Instance, t: nat, i: nat, j: nat)
    requires t < |inst.demand| && inst.holding >= 1
    requires Admissible(inst, t, i, j)
    ensures EndInventory(i, j, inst.demand[t]) <= inst.maxStorage
  {
    var e := EndInventory(i, j, inst.demand[t]);
    MulMonotone(e, 1, inst.holding);
  }

  /** Past the forced-order range (i + k >= d), end-of-period inventory
      grows with the scan index. Inside that range it stays at i, and at
      k = d - i it drops to 0: it is not monotone in k overall. */
  lemma EndInventoryMonotone(i: nat, j: nat, k: nat, d: nat)
    requires k <= j && i + k >= d
    ensures EndInventory(i, k, d) <= EndInventory(i, j, d)
  {
  }

  /** The early exit of the scan loses nothing when the forced-order range
      itself passes the storage test (holding * i <= max_storage) or is
      empty (i >= demand): then every index up to max_order that passes the
      storage test is scanned. */
  lemma PruningIsExact(inst: Instance, t: nat, i: nat, j: nat)
    requires t < |inst.demand| && inst.holding >= 0
    requires inst.holding * i <= inst.maxStorage || i >= inst.demand[t]
    requires !(t == 0 && i > 0) && j <= inst.maxOrder
    ensures Scanned(inst, t, i, j) <==> Admissible(inst, t, i, j)
  {
    var d := inst.demand[t];
    if Admissible(inst, t, i, j) {
      forall k | 0 <= k <= j
        ensures Admissible(inst, t, i, k)
      {
        if i + k >= d {
          EndInventoryMonotone(i, j, k, d);
          MulMonotone(inst.holding, EndInventory(i, k, d), EndInventory(i, j, d));
        } else if i + j >= d {
          assert EndInventory(i, k, d) == i;
        }
      }
    }
  }

  /** Otherwise the early exit can skip an index that passes the storage
      test: with holding 2, max_storage 3, demand 5 at period 1 and starting
      inventory 2, index 0 forces an order of 5 and ends with 2 units
      (charge 4 > 3), so the scan stops there, while index 3 orders 3, ends
      with 0 units and passes. */
  lemma PruningCanSkipAdmissible()
    ensures var inst := Instance([5, 5, 5], 10, 3, 1, 1, 2);
            && !Scanned(inst, 1, 2, 3)
            && Admissible(inst, 1, 2, 3)
  {
    var inst := Instance([5, 5, 5], 10, 3, 1, 1, 2);
    assert !Admissible(inst, 1, 2, 0);
  }

  /** The cell contents of a state are determined: two cells that both meet
      OptimalCell for the same state and successor row are equal. */
  lemma OptimalCellUnique(inst: Instance, t: nat, i: nat, next: seq<Cost>,
                          b1: Cost, c1: int, b2: Cost, c2: int)
    requires t < |inst.demand|
    requires OptimalCell(inst, t, i, next, b1, c1)
    requires OptimalCell(inst, t, i, next, b2, c2)
    ensures b1 == b2 && c1 == c2
  {
    if b1.Finite? && b2.Finite? {
      var j1: nat :| FirstMinimiser(inst, t, i, next, b1, c1, j1);
      var j2: nat :| FirstMinimiser(inst, t, i, next, b2, c2, j2);
      assert AtMost(b2, b1) && AtMost(b1, b2);
      assert j1 == j2;
    } else if b1.Finite? || b2.Finite? {
      assert false;
    }
  }
}
