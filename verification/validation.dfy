/** validate_inputs of utils.py: seven independent positivity checks, each
    adding its message to the error list in a fixed order. */
module Validation {
  import opened CostModel

  /** The arguments of validate_inputs. The number of months n is given
      separately from the demand list, as in the source. */
  datatype Inputs = Inputs(
    n: int,
    demand: seq<int>,
    maxOrder: int,
    maxStorage: int,
    production: int,
    setup: int,
    holding: int)

  /** The seven checks, in the order the source runs them. */
  datatype InputError =
    | NonPositiveMonths
    | NonPositiveDemand
    | NonPositiveMaxOrder
    | NonPositiveMaxStorage
    | NonPositiveProduction
    | NonPositiveSetup
    | NonPositiveHolding

  /** The message the source appends for each failed check. */
  function Message(e: InputError): string
  {
    match e
    case NonPositiveMonths => "Number of months must be greater than 0"
    case NonPositiveDemand => "All demand values must be greater than 0"
    case NonPositiveMaxOrder => "Maximum order capacity must be greater than 0"
    case NonPositiveMaxStorage => "Maximum storage capacity must be greater than 0"
    case NonPositiveProduction => "Production cost must be greater than 0"
    case NonPositiveSetup => "Setup cost must be greater than 0"
    case NonPositiveHolding => "Holding cost must be greater than 0"
  }

  /** Position of a check in the source's sequence of checks. */
  function Rank(e: InputError): nat
  {
    match e
    case NonPositiveMonths => 0
    case NonPositiveDemand => 1
    case NonPositiveMaxOrder => 2
    case NonPositiveMaxStorage => 3
    case NonPositiveProduction => 4
    case NonPositiveSetup => 5
    case NonPositiveHolding => 6
  }

  /** The input the check e objects to. The demand check objects when some
      demand value is not positive; an empty demand list passes it. */
  predicate Fails(e: InputError, x: Inputs)
  {
    match e
    case NonPositiveMonths => x.n <= 0
    case NonPositiveDemand => !AllPositive(x.demand)
    case NonPositiveMaxOrder => x.maxOrder <= 0
    case NonPositiveMaxStorage => x.maxStorage <= 0
    case NonPositiveProduction => x.production <= 0
    case NonPositiveSetup => x.setup <= 0
    case NonPositiveHolding => x.holding <= 0
  }

  /** Every demand value is positive; true of an empty list, as Python's
      all() is. */
  predicate AllPositive(demand: seq<int>)
  {
    forall d :: d in demand ==> d > 0
  }

  /** Every argument is positive. */
  predicate Accepted(x: Inputs)
  {
    && x.n > 0
    && AllPositive(x.demand)
    && x.maxOrder > 0
    && x.maxStorage > 0
    && x.production > 0
    && x.setup > 0
    && x.holding > 0
  }

  /** Check ranks strictly increase along the list. */
  predicate Ordered(errors: seq<InputError>)
  {
    forall a, b :: 0 <= a < b < |errors| ==> Rank(errors[a]) < Rank(errors[b])
  }

  /** The seven checks in the order the source runs them. */
  const Checks: seq<InputError> := [
    NonPositiveMonths, NonPositiveDemand, NonPositiveMaxOrder, NonPositiveMaxStorage,
    NonPositiveProduction, NonPositiveSetup, NonPositiveHolding]

  /** Runs the checks in order, appending each one that fails. */
  function Collect(x: Inputs, checks: seq<InputError>): (r: seq<InputError>)
    ensures |r| <= |checks|
    ensures forall e :: e in r <==> e in checks && Fails(e, x)
    ensures Ordered(checks) ==> Ordered(r)
  {
    if checks == [] then []
    else
      var rest := Collect(x, checks[1..]);
      assert forall e :: e in checks <==> e == checks[0] || e in checks[1..];
      if Ordered(checks) then
        HeadRanksFirst(checks, rest);
        (if Fails(checks[0], x) then [checks[0]] else []) + rest
      else
        (if Fails(checks[0], x) then [checks[0]] else []) + rest
  }

  /** In an ordered list the head outranks every element drawn from the
      tail, and putting it in front of them keeps the order. */
  lemma HeadRanksFirst(checks: seq<InputError>, rest: seq<InputError>)
    requires checks != [] && Ordered(checks) && Ordered(rest)
    requires forall f :: f in rest ==> f in checks[1..]
    ensures Ordered([checks[0]] + rest)
  {
    forall f | f in rest
      ensures Rank(checks[0]) < Rank(f)
    {
      var b :| 0 <= b < |checks[1..]| && checks[1..][b] == f;
      assert checks[b + 1] == f;
    }
    var r := [checks[0]] + rest;
    forall a, b | 0 <= a < b < |r|
      ensures Rank(r[a]) < Rank(r[b])
    {
      assert r[b] == rest[b - 1];
      if a > 0 {
        assert r[a] == rest[a - 1];
      } else {
        assert rest[b - 1] in rest;
      }
    }
  }

  /** Every check is among the seven, at the position its rank says. */
  lemma CheckRuns(e: InputError)
    ensures 0 <= Rank(e) < |Checks| && Checks[Rank(e)] == e
  {
  }

  /** The inputs are accepted exactly when no check fails. */
  lemma AcceptedIffNothingFails(x: Inputs)
    ensures Accepted(x) <==> forall e :: !Fails(e, x)
  {
    if !Accepted(x) {
      assert Fails(NonPositiveMonths, x) || Fails(NonPositiveDemand, x)
          || Fails(NonPositiveMaxOrder, x) || Fails(NonPositiveMaxStorage, x)
          || Fails(NonPositiveProduction, x) || Fails(NonPositiveSetup, x)
          || Fails(NonPositiveHolding, x);
    }
  }

  /** The checks are listed in rank order, and every check is listed. */
  lemma ChecksComplete()
    ensures Ordered(Checks)
    ensures forall e :: e in Checks
  {
    forall e
      ensures e in Checks
    {
      CheckRuns(e);
    }
  }

  /** Collecting over the seven checks reports exactly the failing ones,
      in order, and nothing exactly when the inputs are accepted. */
  lemma CollectChecks(x: Inputs)
    ensures var r := Collect(x, Checks);
            && (forall e :: e in r <==> Fails(e, x))
            && Ordered(r)
            && (r == [] <==> Accepted(x))
  {
    ChecksComplete();
    AcceptedIffNothingFails(x);
    var r := Collect(x, Checks);
    assert r != [] ==> r[0] in r;
  }

  /** validate_inputs, with each message represented by its check; the
      returned strings are Message of each element. */
  function ValidateInputs(x: Inputs): (r: seq<InputError>)
    ensures |r| <= 7
    ensures forall e :: e in r <==> Fails(e, x)
    ensures Ordered(r)
    ensures r == [] <==> Accepted(x)
  {
    CollectChecks(x);
    Collect(x, Checks)
  }

  /** The error strings validate_inputs returns. */
  function ValidateInputMessages(x: Inputs): (r: seq<string>)
    ensures |r| == |ValidateInputs(x)|
    ensures forall k :: 0 <= k < |r| ==> r[k] == Message(ValidateInputs(x)[k])
    ensures forall e :: Message(e) in r <==> Fails(e, x)
    ensures r == [] <==> Accepted(x)
  {
    var errors := ValidateInputs(x);
    var r := seq(|errors|, k requires 0 <= k < |errors| => Message(errors[k]));
    assert forall e :: e in errors ==> Message(e) in r by {
      forall e | e in errors
        ensures Message(e) in r
      {
        var k :| 0 <= k < |errors| && errors[k] == e;
        assert r[k] == Message(e);
      }
    }
    assert forall e :: Message(e) in r ==> e in errors by {
      forall e | Message(e) in r
        ensures e in errors
      {
        var k :| 0 <= k < |r| && r[k] == Message(e);
        MessageInjective(errors[k], e);
      }
    }
    r
  }

  /** Distinct checks report distinct messages, so the list of messages
      tells exactly which checks failed. */
  lemma MessageInjective(e1: InputError, e2: InputError)
    ensures Message(e1) == Message(e2) <==> e1 == e2
  {
    if e1 != e2 {
      MessageLengthsDiffer(e1, e2);
    }
  }

  /** The seven messages have seven different lengths. */
  lemma MessageLengthsDiffer(e1: InputError, e2: InputError)
    requires e1 != e2
    ensures |Message(e1)| != |Message(e2)|
  {
    MessageLength(e1);
    MessageLength(e2);
  }

  lemma MessageLength(e: InputError)
    ensures |Message(e)| == match e
      case NonPositiveMonths => 39
      case NonPositiveDemand => 40
      case NonPositiveMaxOrder => 45
      case NonPositiveMaxStorage => 47
      case NonPositiveProduction => 38
      case NonPositiveSetup => 33
      case NonPositiveHolding => 35
  {
    match e
    case NonPositiveMonths =>
    case NonPositiveDemand =>
    case NonPositiveMaxOrder =>
    case NonPositiveMaxStorage =>
    case NonPositiveProduction =>
    case NonPositiveSetup =>
    case NonPositiveHolding =>
  }

  /** The instance the optimiser receives from accepted inputs. */
  function ToInstance(x: Inputs): (inst: Instance)
    requires Accepted(x)
    ensures |inst.demand| == |x.demand|
    ensures forall k :: 0 <= k < |x.demand| ==> inst.demand[k] == x.demand[k]
  {
    assert forall k :: 0 <= k < |x.demand| ==> x.demand[k] in x.demand;
    Instance(x.demand, x.maxOrder as nat, x.maxStorage as nat, x.production, x.setup, x.holding)
  }

  /** Accepted inputs whose month count matches the demand list are inputs
      the optimiser can run on exactly when the table widths fit. */
  lemma AcceptedInputsValidIffWidthsFit(x: Inputs)
    requires ValidateInputs(x) == [] && x.n == |x.demand|
    ensures var inst := ToInstance(x);
            var last := x.demand[|x.demand| - 1];
            Valid(inst) <==>
              && Min(last, x.maxStorage + 3) <= x.maxOrder + 3
              && (|x.demand| >= 2 ==> x.maxStorage <= x.maxOrder + 3)
  {
  }

  /** Validation does not rule out an overrun of the policy table: one month
      of demand 10 with max_order 1 and max_storage 10 passes every check,
      yet the last-period loop writes the policy row (5 wide) at index 10. */
  lemma AcceptedInputsCanOverrunPolicyTable()
    ensures var x := Inputs(1, [10], 1, 10, 1, 1, 1);
            ValidateInputs(x) == [] && !Valid(ToInstance(x))
  {
    var x := Inputs(1, [10], 1, 10, 1, 1, 1);
    assert ToInstance(x).demand[0] == 10;
  }
}
