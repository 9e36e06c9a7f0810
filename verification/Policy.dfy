/** The policy row, its validation, and what storing a row keeps of its times. */
module Policy {
  import opened Wrappers
  import opened Calendar
  import opened Lifecycle
  import Uuid

  datatype Policy = Policy(
    id: Uuid.Id,
    number: string,
    holder: string,
    product: string,
    status: Status,
    effective: Nanos,
    expiry: Nanos,
    createdAt: Nanos,
    updatedAt: Nanos)

  datatype Invalid = EmptyPolicyNumber | EmptyHolderName | EmptyProductCode | InvalidDateRange

  /** The first rule a policy breaks, in the order they are checked. */
  function Validate(p: Policy): Option<Invalid> {
    if p.number == "" then Some(EmptyPolicyNumber)
    else if p.holder == "" then Some(EmptyHolderName)
    else if p.product == "" then Some(EmptyProductCode)
    else if p.effective >= p.expiry then Some(InvalidDateRange)
    else None
  }

  predicate Breaks(p: Policy, rule: Invalid) {
    match rule
    case EmptyPolicyNumber => p.number == ""
    case EmptyHolderName => p.holder == ""
    case EmptyProductCode => p.product == ""
    case InvalidDateRange => p.expiry <= p.effective
  }

  /** The order in which the rules are reported. */
  function Rank(rule: Invalid): nat {
    match rule
    case EmptyPolicyNumber => 0
    case EmptyHolderName => 1
    case EmptyProductCode => 2
    case InvalidDateRange => 3
  }

  /** A policy passes if and only if it breaks no rule, and otherwise the reported rule is the
      first of those it breaks. */
  lemma FirstBrokenRule(p: Policy)
    ensures Validate(p).None? <==> forall rule :: !Breaks(p, rule)
    ensures forall rule :: Validate(p) == Some(rule) <==>
              Breaks(p, rule) && forall other :: Breaks(p, other) ==> Rank(rule) <= Rank(other)
  {
    assert Validate(p).Some? ==> Breaks(p, Validate(p).value);
    assert p.number == "" ==> Breaks(p, EmptyPolicyNumber);
    assert p.holder == "" ==> Breaks(p, EmptyHolderName);
    assert p.product == "" ==> Breaks(p, EmptyProductCode);
  }

  /** Timestamps are stored to the microsecond, the rest of the nanoseconds cut off. */
  function Stored(t: Nanos): Nanos {
    t - t % 1000
  }

  function StoredRow(p: Policy): Policy {
    p.(effective := Stored(p.effective), expiry := Stored(p.expiry),
       createdAt := Stored(p.createdAt), updatedAt := Stored(p.updatedAt))
  }

  /** The stored time is the last whole microsecond not after the given one. */
  lemma StoredKeepsSecond(t: Nanos)
    ensures Stored(t) % 1000 == 0 && Stored(t) <= t < Stored(t) + 1000
    ensures Stored(t) / SECOND == t / SECOND
    ensures Stored(Stored(t)) == Stored(t)
  {
  }
}
