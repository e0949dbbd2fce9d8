/**
 The model spending budget of ops/model_policy.py: holds are reserved up front, replaced by the
 reported charge when an attempt is settled, and the budget freezes on the first overrun.

 Amounts are whole millionths of a dollar. A date is its day number; the code compares dates
 only for equality, and no order of dates is assumed unless a theorem says so.
 */
module Budget {
  import opened Bytes

  datatype Policy = Policy(totalLimit: nat, dailyLimit: nat, maxDailyCalls: nat)

  /** One call: `actual` and `settledOn` are present once it has been settled. */
  datatype Attempt = Attempt(id: string, day: int, reserved: int, actual: Option<int>, settledOn: Option<int>)

  datatype Books = Books(attempts: seq<Attempt>, blocked: bool)

  datatype Refusal = OutOfBounds | Frozen | Exhausted | Duplicate | NotOpen | Overrun | InvalidAmount

  datatype Amount = Invalid | Decimal(value: real)

  const MAX_RESERVATION := 100_000_000
  const NO_BOOKS := Books([], false)

  // ----- Amounts -----

  /** Charges are rounded up to whole millionths. */
  function Micro(cost: Amount): (r: Result<int, Refusal>)
    ensures r.Ok? <==> cost.Decimal? && cost.value >= 0.0
    ensures r.Ok? ==> r.value >= 0 && (r.value - 1) as real < cost.value * 1_000_000.0 <= r.value as real
  {
    if cost.Invalid? || cost.value < 0.0 then Err(InvalidAmount)
    else Ok(-((-(cost.value * 1_000_000.0)).Floor))
  }

  // ----- Sums over the attempts -----

  function Sum(rows: seq<Attempt>, weight: Attempt -> int): int {
    if rows == [] then 0 else Sum(rows[..|rows| - 1], weight) + weight(rows[|rows| - 1])
  }

  /** What an attempt counts for: its hold while open, its charge once settled. */
  function Charge(a: Attempt): int { if a.actual.None? then a.reserved else a.actual.value }

  function ChargeOn(day: int): Attempt -> int {
    (a: Attempt) => if a.actual.None? || a.settledOn == Some(day) then Charge(a) else 0
  }

  function CallOn(day: int): Attempt -> int { (a: Attempt) => if a.day == day then 1 else 0 }

  function Spent(a: Attempt): int { if a.actual.None? then 0 else a.actual.value }

  function Held(a: Attempt): int { if a.actual.None? then a.reserved else 0 }

  predicate Overran(a: Attempt) { a.actual.Some? && a.actual.value > a.reserved }

  // ----- The transactions -----

  function Find(rows: seq<Attempt>, id: string): (k: Option<nat>)
    ensures k.Some? ==> k.value < |rows| && rows[k.value].id == id
    ensures k.None? ==> forall i :: 0 <= i < |rows| ==> rows[i].id != id
  {
    if rows == [] then None
    else if rows[|rows| - 1].id == id then Some(|rows| - 1)
    else Find(rows[..|rows| - 1], id)
  }

  function Reserve(policy: Policy, b: Books, id: string, upper: int, day: int): (Books, Result<(), Refusal>) {
    if !(0 <= upper <= MAX_RESERVATION) then (b, Err(OutOfBounds))
    else if b.blocked then (b, Err(Frozen))
    else if Sum(b.attempts, Charge) + upper > policy.totalLimit
            || Sum(b.attempts, ChargeOn(day)) + upper > policy.dailyLimit
            || Sum(b.attempts, CallOn(day)) >= policy.maxDailyCalls then (b, Err(Exhausted))
    else if Find(b.attempts, id).Some? then (b, Err(Duplicate))
    else (b.(attempts := b.attempts + [Attempt(id, day, upper, None, None)]), Ok(()))
  }

  /** An overrun is committed, with the freeze, and then reported. */
  function Settle(b: Books, id: string, cost: Amount, day: int): (Books, Result<(), Refusal>) {
    var actual := Micro(cost);
    if actual.Err? then (b, Err(actual.error))
    else
      var k := Find(b.attempts, id);
      if k.None? || b.attempts[k.value].actual.Some? then (b, Err(NotOpen))
      else
        var row := b.attempts[k.value];
        var rows := b.attempts[k.value := row.(actual := Some(actual.value), settledOn := Some(day))];
        if actual.value > row.reserved then (Books(rows, true), Err(Overrun))
        else (Books(rows, b.blocked), Ok(()))
  }

  lemma {:induction false} SpentAndHeld(rows: seq<Attempt>)
    ensures Sum(rows, Spent) + Sum(rows, Held) == Sum(rows, Charge)
  {
    if rows != [] {
      SpentAndHeld(rows[..|rows| - 1]);
    }
  }

  /** The two tables as the registry updates them. */
  class Registry {
    const policy: Policy
    var attempts: seq<Attempt>
    var blocked: bool

    ghost function Snapshot(): Books
      reads this
    {
      Books(attempts, blocked)
    }

    constructor (policy: Policy)
      ensures this.policy == policy && Snapshot() == NO_BOOKS
    {
      this.policy, attempts, blocked := policy, [], false;
    }

    method ReserveHold(id: string, upper: int, day: int) returns (r: Result<(), Refusal>)
      modifies this`attempts
      ensures (Snapshot(), r) == Reserve(policy, old(Snapshot()), id, upper, day)
      ensures attempts == old(attempts) + if r.Ok? then [Attempt(id, day, upper, None, None)] else []
    {
      hide Sum, Find, CallOn, ChargeOn;
      if upper < 0 || upper > MAX_RESERVATION {
        return Err(OutOfBounds);
      }
      if blocked {
        return Err(Frozen);
      }
      var total := Sum(attempts, Charge);
      var daily := Sum(attempts, ChargeOn(day));
      if total + upper > policy.totalLimit || daily + upper > policy.dailyLimit
         || Sum(attempts, CallOn(day)) >= policy.maxDailyCalls {
        return Err(Exhausted);
      }
      if Find(attempts, id).Some? {
        return Err(Duplicate);
      }
      attempts := attempts + [Attempt(id, day, upper, None, None)];
      r := Ok(());
    }

    method SettleCharge(id: string, cost: Amount, day: int) returns (r: Result<(), Refusal>)
      modifies this`attempts, this`blocked
      ensures (Snapshot(), r) == Settle(old(Snapshot()), id, cost, day)
      ensures |attempts| == |old(attempts)| && (old(blocked) ==> blocked)
      ensures attempts != old(attempts) <==> r.Ok? || r.error.Overrun?
    {
      var actual :- Micro(cost);
      var k := Find(attempts, id);
      if k.None? || attempts[k.value].actual.Some? {
        return Err(NotOpen);
      }
      var row := attempts[k.value];
      attempts := attempts[k.value := row.(actual := Some(actual), settledOn := Some(day))];
      if actual > row.reserved {
        blocked := true;
        return Err(Overrun);
      }
      r := Ok(());
    }

    /** What is spent and what is held add up to what every attempt counts for. */
    method Status() returns (calls: nat, spent: int, held: int, frozen: bool)
      ensures calls == |attempts| && frozen == blocked
      ensures spent == Sum(attempts, Spent) && held == Sum(attempts, Held)
      ensures spent + held == Sum(attempts, Charge)
    {
      calls, spent, held, frozen := |attempts|, Sum(attempts, Spent), Sum(attempts, Held), blocked;
      SpentAndHeld(attempts);
    }
  }
}
