/** EOQCalculator of inventory_optimizer.py: the classical economic order
    quantity, sqrt(2 * total demand * production cost / holding cost). The
    production cost stands where the textbook formula has the ordering cost,
    and the setup cost is stored but unused. Only the radicand is computed;
    the square root is stated as a relation. */
module Eoq {
  import opened Optional

  /** The fields EOQCalculator's constructor stores. */
  datatype EoqCalculator = EoqCalculator(
    n: int,
    demand: seq<real>,
    production: real,
    setup: real,
    holding: real)

  /** sum(demand). */
  function TotalDemand(demand: seq<real>): real
  {
    if demand == [] then 0.0 else TotalDemand(demand[..|demand| - 1]) + demand[|demand| - 1]
  }

  /** The quantity calculate_eoq takes the square root of; None where the
      division by the holding cost raises. */
  function Radicand(c: EoqCalculator): (r: Option<real>)
    ensures r.None? <==> c.holding == 0.0
    ensures r.Some? ==> r.value * c.holding == 2.0 * TotalDemand(c.demand) * c.production
    ensures r.Some? && c.holding > 0.0 && TotalDemand(c.demand) >= 0.0 && c.production >= 0.0
            ==> r.value >= 0.0
  {
    if c.holding == 0.0 then None
    else Some(2.0 * TotalDemand(c.demand) * c.production / c.holding)
  }

  /** q is what calculate_eoq returns: the non-negative square root of the
      radicand. */
  predicate IsEoq(c: EoqCalculator, q: real)
  {
    Radicand(c).Some? && q >= 0.0 && q * q == Radicand(c).value
  }

  lemma SquareMonotone(a: real, b: real)
    requires 0.0 <= a < b
    ensures a * a < b * b
  {
    var e := b - a;
    assert b * b == a * a + 2.0 * a * e + e * e;
    assert e * e > 0.0;
    assert a * e >= 0.0;
  }

  /** The returned value is determined: at most one non-negative number
      squares to the radicand. */
  lemma EoqUnique(c: EoqCalculator, q1: real, q2: real)
    requires IsEoq(c, q1) && IsEoq(c, q2)
    ensures q1 == q2
  {
    if q1 < q2 {
      SquareMonotone(q1, q2);
    } else if q2 < q1 {
      SquareMonotone(q2, q1);
    }
  }

  /** The setup cost plays no part in the result. */
  lemma EoqIgnoresSetup(c: EoqCalculator, setup: real)
    ensures Radicand(c.(setup := setup)) == Radicand(c)
  {
    var d := c.(setup := setup);
    assert d.demand == c.demand && d.production == c.production && d.holding == c.holding;
    if c.holding != 0.0 {
      assert Radicand(d).value * c.holding == Radicand(c).value * c.holding;
    }
  }

  /** Six months of demand 100, production cost 10, holding cost 2: the
      radicand is 6000, and the setup cost of 50 does not enter it. */
  lemma EoqLiteralScenario()
    ensures var c := EoqCalculator(6, [100.0, 100.0, 100.0, 100.0, 100.0, 100.0], 10.0, 50.0, 2.0);
            Radicand(c) == Some(6000.0)
  {
    var demand := [100.0, 100.0, 100.0, 100.0, 100.0, 100.0];
    assert TotalDemand(demand[..1]) == 100.0;
    assert demand[..2][..1] == demand[..1];
    assert TotalDemand(demand[..2]) == 200.0;
    assert demand[..3][..2] == demand[..2];
    assert TotalDemand(demand[..3]) == 300.0;
    assert demand[..4][..3] == demand[..3];
    assert TotalDemand(demand[..4]) == 400.0;
    assert demand[..5][..4] == demand[..4];
    assert TotalDemand(demand[..5]) == 500.0;
    assert TotalDemand(demand) == 600.0;
  }
}
