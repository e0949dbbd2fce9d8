/**
 The daily limit of the budget, and exactly which schedules keep it.

 The date is read before the lock is taken (ops/model_policy.py:199-200), so transactions can commit
 out of date order. A schedule is what a caller sees of a run before any amount is known: which
 operations, on which dates, in which order.
 */
module BudgetDaily {
  import opened Bytes
  import opened Budget
  import opened BudgetRuns

  // ----- Schedules -----

  ghost predicate SameSchedule(ops: seq<Op>, others: seq<Op>) {
    |ops| == |others|
    && forall i :: 0 <= i < |ops| ==> (ops[i].ReserveOp? <==> others[i].ReserveOp?) && ops[i].day == others[i].day
  }

  /** A reservation, then a settlement on date `t`, then a reservation on another date: the last one
      does not see what was settled on `t`. With one call a day the two reservations must have
      different dates. */
  ghost predicate ExposedBy(policy: Policy, ops: seq<Op>, t: int, r: nat, i: nat, j: nat) {
    r < i < j < |ops|
    && ops[r].ReserveOp? && ops[i].SettleOp? && ops[i].day == t && ops[j].ReserveOp? && ops[j].day != t
    && (ops[r].day == ops[j].day ==> policy.maxDailyCalls >= 2)
  }

  /** The policy has room for two holds that together pass the daily limit. */
  ghost predicate Roomy(policy: Policy) { 1 <= policy.dailyLimit < policy.totalLimit && policy.maxDailyCalls >= 1 }

  ghost predicate Exposed(policy: Policy, ops: seq<Op>, t: int) {
    Roomy(policy) && exists r, i, j :: ExposedBy(policy, ops, t, r, i, j)
  }

  lemma ExposedPrefix(policy: Policy, ops: seq<Op>, t: int)
    requires ops != [] && !Exposed(policy, ops, t)
    ensures !Exposed(policy, ops[..|ops| - 1], t)
  {
    var before := ops[..|ops| - 1];
    if Exposed(policy, before, t) {
      var r, i, j :| ExposedBy(policy, before, t, r, i, j);
      assert ExposedBy(policy, ops, t, r, i, j);
    }
  }

  lemma ScheduleDecides(policy: Policy, ops: seq<Op>, others: seq<Op>, t: int)
    requires SameSchedule(ops, others) && Exposed(policy, ops, t)
    ensures Exposed(policy, others, t)
  {
    var r, i, j :| ExposedBy(policy, ops, t, r, i, j);
    assert ExposedBy(policy, others, t, r, i, j);
  }

  // ----- Schedules that keep the limit -----

  lemma {:induction false} CallsNatural(rows: seq<Attempt>, day: int)
    ensures Sum(rows, CallOn(day)) >= 0
  {
    if rows != [] {
      CallsNatural(rows[..|rows| - 1], day);
    }
  }

  lemma {:induction false} SumPositive(rows: seq<Attempt>, k: nat, day: int)
    requires k < |rows| && rows[k].day == day
    ensures Sum(rows, CallOn(day)) >= 1
  {
    var n := |rows| - 1;
    if k < n {
      SumPositive(rows[..n], k, day);
    } else {
      CallsNatural(rows[..n], day);
    }
  }

  /** With nothing settled on `t`, date `t` carries only the open holds, which every date carries. */
  lemma OpenHoldsOnly(rows: seq<Attempt>, t: int, day: int)
    requires RowsOk(rows) && forall k :: 0 <= k < |rows| ==> rows[k].settledOn != Some(t)
    ensures Sum(rows, CoveredOn(t)) <= Sum(rows, ChargeOn(day))
  {
    SumMonotone(rows, CoveredOn(t), ChargeOn(day));
  }

  lemma SettledHasCharge(rows: seq<Attempt>, k: nat)
    requires RowsOk(rows) && k < |rows| && rows[k].settledOn.Some?
    ensures rows[k].actual.Some?
  {
    assert RowOk(rows[k]);
  }

  /** A reservation granted on another date after a settlement on `t` exposes `t`. */
  lemma GrantExposes(policy: Policy, ops: seq<Op>, t: int, k: nat)
    requires ops != [] && Roomy(policy)
    requires var before, op := Run(policy, ops[..|ops| - 1]), ops[|ops| - 1];
             ChangeOf(policy, before, op).Opened? && op.day != t
             && k < |before.attempts| && before.attempts[k].settledOn == Some(t)
    ensures Exposed(policy, ops, t)
  {
    hide Step, Sum, ChargeOn, CallOn, RowOk;
    var before, op := ops[..|ops| - 1], ops[|ops| - 1];
    var rows := Run(policy, before).attempts;
    ReachableRowsOk(policy, before);
    SettledHasCharge(rows, k);
    BooksAreHistory(policy, before, k);
    var r: nat, i: nat :| r < i && OpenedBy(before, r, rows[k]) && SettledAt(before, i, rows[k]);
    assert ops[r] == before[r] && ops[i] == before[i];
    OpenedRow(policy, Run(policy, before), op);
    if rows[k].day == op.day {
      SumPositive(rows, k, op.day);
    }
    assert ExposedBy(policy, ops, t, r, i, |before|);
  }

  lemma OpenKeepsDaily(policy: Policy, ops: seq<Op>, t: int, row: Attempt)
    requires ops != [] && !Exposed(policy, ops, t) && Roomy(policy)
    requires ChangeOf(policy, Run(policy, ops[..|ops| - 1]), ops[|ops| - 1]) == Opened(row)
    ensures Sum(Run(policy, ops[..|ops| - 1]).attempts + [row], CoveredOn(t)) <= policy.dailyLimit
  {
    hide Step, Sum, RowsOk, ChangeOf, ChargeOn;
    var b, op := Run(policy, ops[..|ops| - 1]), ops[|ops| - 1];
    OpenedRow(policy, b, op);
    SumSnoc(b.attempts, row, CoveredOn(t));
    if op.day == t {
      CoveredOnAtMostCharge(b.attempts, t);
    } else {
      forall k | 0 <= k < |b.attempts|
        ensures b.attempts[k].settledOn != Some(t)
      {
        if b.attempts[k].settledOn == Some(t) {
          GrantExposes(policy, ops, t, k);
        }
      }
      ReachableRowsOk(policy, ops[..|ops| - 1]);
      OpenHoldsOnly(b.attempts, t, op.day);
    }
  }

  /** Settling never adds to what reservations cover, on any date. */
  lemma SettleKeepsDaily(rows: seq<Attempt>, k: nat, row: Attempt, t: int)
    requires k < |rows| && rows[k].actual.None? && Keeps(rows[k], row) && row.actual.Some? && 0 <= rows[k].reserved
    ensures Sum(rows[k := row], CoveredOn(t)) <= Sum(rows, CoveredOn(t))
  {
    SumUpdate(rows, k, row, CoveredOn(t));
    hide Sum;
  }

  lemma HoldNatural(rows: seq<Attempt>, k: nat)
    requires RowsOk(rows) && k < |rows|
    ensures 0 <= rows[k].reserved
  {
    assert RowOk(rows[k]);
  }

  lemma {:induction false} RoomyCovered(policy: Policy, ops: seq<Op>, t: int)
    requires !Exposed(policy, ops, t) && Roomy(policy)
    ensures Sum(Run(policy, ops).attempts, CoveredOn(t)) <= policy.dailyLimit
  {
    hide Step, ChangeOf, CoveredOn, Exposed, RowsOk;
    if ops != [] {
      var k := |ops| - 1;
      var b := Run(policy, ops[..k]);
      ExposedPrefix(policy, ops, t);
      RoomyCovered(policy, ops[..k], t);
      StepChanges(policy, b, ops[k]);
      var c := ChangeOf(policy, b, ops[k]);
      if c.Opened? {
        OpenKeepsDaily(policy, ops, t, c.row);
      } else if c.Settled? {
        ReachableRowsOk(policy, ops[..k]);
        HoldNatural(b.attempts, c.k);
        SettleKeepsDaily(b.attempts, c.k, c.row, t);
      }
    }
  }

  lemma {:induction false} ChargesNatural(rows: seq<Attempt>, day: int)
    requires RowsOk(rows)
    ensures Sum(rows, ChargeOn(day)) >= 0
  {
    if rows != [] {
      assert RowOk(rows[|rows| - 1]);
      ChargesNatural(rows[..|rows| - 1], day);
    }
  }

  /** A policy without room: nothing can be held, or nothing beyond the total limit. */
  lemma {:induction false} CrampedHolds(policy: Policy, ops: seq<Op>, k: nat)
    requires (policy.dailyLimit == 0 || policy.maxDailyCalls == 0) && k < |Run(policy, ops).attempts|
    ensures Run(policy, ops).attempts[k].reserved == 0
  {
    hide Step, ChangeOf, Sum, ChargeOn, CallOn;
    var n := |ops| - 1;
    var b := Run(policy, ops[..n]);
    StepChanges(policy, b, ops[n]);
    if k < |b.attempts| {
      CrampedHolds(policy, ops[..n], k);
    } else {
      OpenedRow(policy, b, ops[n]);
      CallsNatural(b.attempts, ops[n].day);
      ReachableRowsOk(policy, ops[..n]);
      ChargesNatural(b.attempts, ops[n].day);
    }
  }

  lemma {:induction false} NothingHeld(rows: seq<Attempt>, t: int)
    requires forall k :: 0 <= k < |rows| ==> rows[k].reserved == 0
    ensures Sum(rows, CoveredOn(t)) <= 0
  {
    if rows != [] {
      NothingHeld(rows[..|rows| - 1], t);
    }
  }

  /** Open holds and what is settled on `t`, as far as reservations cover it, stay within the daily
      limit in every run whose schedule does not expose `t`. */
  lemma DailyCovered(policy: Policy, ops: seq<Op>, t: int)
    requires !Exposed(policy, ops, t)
    ensures Sum(Run(policy, ops).attempts, CoveredOn(t)) <= policy.dailyLimit
  {
    var rows := Run(policy, ops).attempts;
    if Roomy(policy) {
      RoomyCovered(policy, ops, t);
    } else if policy.totalLimit <= policy.dailyLimit {
      TotalCovered(policy, ops);
      ReachableRowsOk(policy, ops);
      SumMonotone(rows, CoveredOn(t), Covered);
    } else {
      forall k | 0 <= k < |rows|
        ensures rows[k].reserved == 0
      {
        CrampedHolds(policy, ops, k);
      }
      NothingHeld(rows, t);
    }
  }

  lemma {:induction false} CoveredIsCharge(rows: seq<Attempt>, day: int)
    requires !SomeOverran(rows)
    ensures Sum(rows, CoveredOn(day)) == Sum(rows, ChargeOn(day))
  {
    if rows != [] {
      CoveredIsCharge(rows[..|rows| - 1], day);
    }
  }

  /** And while the budget is not frozen, the holds and charges themselves do. */
  lemma DailyWithinLimit(policy: Policy, ops: seq<Op>, t: int)
    requires !Exposed(policy, ops, t) && !Run(policy, ops).blocked
    ensures Sum(Run(policy, ops).attempts, ChargeOn(t)) <= policy.dailyLimit
  {
    DailyCovered(policy, ops, t);
    BlockedIffOverran(policy, ops);
    CoveredIsCharge(Run(policy, ops).attempts, t);
  }

  /** The dates that the transactions read never go back. */
  ghost predicate DatesAdvance(ops: seq<Op>, today: int) {
    (forall i, j :: 0 <= i < j < |ops| ==> ops[i].day <= ops[j].day)
    && forall i :: 0 <= i < |ops| ==> ops[i].day <= today
  }

  /** While dates do not go back, neither today nor any later date is exposed. */
  lemma AdvancingDatesKeepLimit(policy: Policy, ops: seq<Op>, today: int)
    requires DatesAdvance(ops, today)
    ensures !Exposed(policy, ops, today)
    ensures Sum(Run(policy, ops).attempts, CoveredOn(today)) <= policy.dailyLimit
  {
    DailyCovered(policy, ops, today);
  }

  // ----- Schedules that break it -----

  /** An operation of the same kind and date that is refused. */
  function Filler(op: Op): Op {
    if op.ReserveOp? then ReserveOp("", -1, op.day) else SettleOp("", Invalid, op.day)
  }

  lemma FillerDoesNothing(policy: Policy, b: Books, op: Op)
    ensures Step(policy, b, Filler(op)).0 == b
  {
    hide Sum;
  }

  lemma ExactMicro(d: nat)
    ensures Micro(Decimal(d as real / 1_000_000.0)) == Ok(d)
  {
    var r := Micro(Decimal(d as real / 1_000_000.0));
    assert (r.value - 1) as real < d as real <= r.value as real;
  }

  lemma SumOne(a: Attempt, weight: Attempt -> int)
    ensures Sum([a], weight) == weight(a)
  {
    assert [a][..0] == [];
  }

  lemma OpenOnEmpty(policy: Policy, id: string, day: int)
    requires policy.dailyLimit <= MAX_RESERVATION && policy.dailyLimit <= policy.totalLimit && policy.maxDailyCalls >= 1
    ensures Step(policy, NO_BOOKS, ReserveOp(id, policy.dailyLimit, day)).0
         == Books([Attempt(id, day, policy.dailyLimit, None, None)], false)
  {
  }

  lemma SettleExactly(policy: Policy, open: Attempt, cost: Amount, day: int)
    requires open.actual.None? && open.reserved >= 0 && cost == Decimal(open.reserved as real / 1_000_000.0)
    ensures Step(policy, Books([open], false), SettleOp(open.id, cost, day)).0
         == Books([open.(actual := Some(open.reserved), settledOn := Some(day))], false)
  {
    hide Micro;
    ExactMicro(open.reserved);
  }

  lemma OpenBesidePaid(policy: Policy, paid: Attempt, id: string, upper: nat, day: int)
    requires paid.id != id && paid.actual == Some(policy.dailyLimit) && paid.settledOn.Some?
    requires paid.settledOn != Some(day) && policy.maxDailyCalls >= if paid.day == day then 2 else 1
    requires upper <= policy.dailyLimit <= MAX_RESERVATION && policy.dailyLimit + upper <= policy.totalLimit
    ensures Step(policy, Books([paid], false), ReserveOp(id, upper, day)).0
         == Books([paid] + [Attempt(id, day, upper, None, None)], false)
  {
    hide Sum;
    SumOne(paid, Charge);
    SumOne(paid, ChargeOn(day));
    SumOne(paid, CallOn(day));
  }

  /** The second hold: as much as both limits allow. */
  function Second(policy: Policy): nat
    requires Roomy(policy)
  {
    if policy.totalLimit - policy.dailyLimit < policy.dailyLimit then policy.totalLimit - policy.dailyLimit
    else policy.dailyLimit
  }

  /** The schedule of `ops` with amounts: a full hold, its exact settlement and the second hold at
      three places, and refused operations everywhere else. */
  ghost function Breaking(policy: Policy, ops: seq<Op>, r: nat, i: nat, j: nat): (others: seq<Op>)
    requires Roomy(policy) && r < i < j < |ops|
    ensures |others| == |ops|
  {
    var cost := Decimal(policy.dailyLimit as real / 1_000_000.0);
    seq(|ops|, k requires 0 <= k < |ops| =>
      if k == r then ReserveOp("a", policy.dailyLimit, ops[k].day)
      else if k == i then SettleOp("a", cost, ops[k].day)
      else if k == j then ReserveOp("b", Second(policy), ops[k].day)
      else Filler(ops[k]))
  }

  /** The books after `k` operations of the breaking run. */
  ghost function BooksAt(policy: Policy, ops: seq<Op>, r: nat, i: nat, j: nat, k: nat): Books
    requires Roomy(policy) && r < i < j < |ops|
  {
    var open := Attempt("a", ops[r].day, policy.dailyLimit, None, None);
    var paid := open.(actual := Some(policy.dailyLimit), settledOn := Some(ops[i].day));
    var second := Attempt("b", ops[j].day, Second(policy), None, None);
    if k <= r then NO_BOOKS
    else if k <= i then Books([open], false)
    else if k <= j then Books([paid], false)
    else Books([paid] + [second], false)
  }

  lemma BreakingStep(policy: Policy, ops: seq<Op>, t: int, r: nat, i: nat, j: nat, k: nat)
    requires Roomy(policy) && policy.dailyLimit <= MAX_RESERVATION && ExposedBy(policy, ops, t, r, i, j) && k < |ops|
    ensures Step(policy, BooksAt(policy, ops, r, i, j, k), Breaking(policy, ops, r, i, j)[k]).0
         == BooksAt(policy, ops, r, i, j, k + 1)
  {
    hide Step, Sum;
    if k == r {
      OpenOnEmpty(policy, "a", ops[r].day);
    } else if k == i {
      var open := Attempt("a", ops[r].day, policy.dailyLimit, None, None);
      SettleExactly(policy, open, Decimal(policy.dailyLimit as real / 1_000_000.0), ops[i].day);
    } else if k == j {
      var open := Attempt("a", ops[r].day, policy.dailyLimit, None, None);
      var paid := open.(actual := Some(policy.dailyLimit), settledOn := Some(ops[i].day));
      OpenBesidePaid(policy, paid, "b", Second(policy), ops[j].day);
    } else {
      FillerDoesNothing(policy, BooksAt(policy, ops, r, i, j, k), ops[k]);
    }
  }

  lemma ExposedOrder(policy: Policy, ops: seq<Op>, t: int, r: nat, i: nat, j: nat)
    requires ExposedBy(policy, ops, t, r, i, j)
    ensures r < i < j < |ops|
  {
  }

  lemma {:induction false} BreakingRun(policy: Policy, ops: seq<Op>, t: int, r: nat, i: nat, j: nat, k: nat)
    requires Roomy(policy) && policy.dailyLimit <= MAX_RESERVATION && ExposedBy(policy, ops, t, r, i, j) && k <= |ops|
    ensures Run(policy, Breaking(policy, ops, r, i, j)[..k]) == BooksAt(policy, ops, r, i, j, k)
  {
    hide Step, ExposedBy;
    if k > 0 {
      assert r < i < j < |ops| by { ExposedOrder(policy, ops, t, r, i, j); }
      hide BooksAt, Breaking;
      BreakingRun(policy, ops, t, r, i, j, k - 1);
      RunSnoc(policy, Breaking(policy, ops, r, i, j), k - 1);
      BreakingStep(policy, ops, t, r, i, j, k - 1);
    }
  }

  /** An exposed date is broken: some run with the same schedule ends, not frozen, with more held and
      charged on that date than the limit. */
  lemma ExposedScheduleBreaks(policy: Policy, ops: seq<Op>, t: int) returns (others: seq<Op>)
    requires Exposed(policy, ops, t) && policy.dailyLimit <= MAX_RESERVATION
    ensures SameSchedule(ops, others) && !Run(policy, others).blocked
    ensures Sum(Run(policy, others).attempts, ChargeOn(t)) == Sum(Run(policy, others).attempts, CoveredOn(t))
         == policy.dailyLimit + Second(policy) > policy.dailyLimit
  {
    hide Step, Sum;
    var r, i, j :| ExposedBy(policy, ops, t, r, i, j);
    others := Breaking(policy, ops, r, i, j);
    BreakingRun(policy, ops, t, r, i, j, |ops|);
    assert others[..|ops|] == others;
    var rows := Run(policy, others).attempts;
    SumOne(rows[0], ChargeOn(t));
    SumSnoc([rows[0]], rows[1], ChargeOn(t));
    SumOne(rows[0], CoveredOn(t));
    SumSnoc([rows[0]], rows[1], CoveredOn(t));
    assert rows == [rows[0]] + [rows[1]];
  }

  // ----- Exactly -----

  lemma SameBack(ops: seq<Op>, others: seq<Op>)
    requires SameSchedule(ops, others)
    ensures SameSchedule(others, ops)
  {
  }

  /** The daily limit, exactly: for a valid policy, every run with a schedule keeps date `t` within
      the limit if and only if the schedule does not expose `t`; and the same holds of the bare
      holds and charges of runs that are not frozen. */
  lemma DailyLimitIff(policy: Policy, ops: seq<Op>, t: int)
    requires policy.dailyLimit <= MAX_RESERVATION
    ensures !Exposed(policy, ops, t)
       <==> forall others :: SameSchedule(ops, others) ==>
              Sum(Run(policy, others).attempts, CoveredOn(t)) <= policy.dailyLimit
    ensures !Exposed(policy, ops, t)
       <==> forall others :: SameSchedule(ops, others) && !Run(policy, others).blocked ==>
              Sum(Run(policy, others).attempts, ChargeOn(t)) <= policy.dailyLimit
  {
    hide Exposed, Sum, SameSchedule, Run;
    if Exposed(policy, ops, t) {
      var others := ExposedScheduleBreaks(policy, ops, t);
    } else {
      forall others | SameSchedule(ops, others)
        ensures Sum(Run(policy, others).attempts, CoveredOn(t)) <= policy.dailyLimit
        ensures !Run(policy, others).blocked ==> Sum(Run(policy, others).attempts, ChargeOn(t)) <= policy.dailyLimit
      {
        if Exposed(policy, others, t) {
          SameBack(ops, others);
          ScheduleDecides(policy, others, ops, t);
        }
        DailyCovered(policy, others, t);
        if !Run(policy, others).blocked {
          DailyWithinLimit(policy, others, t);
        }
      }
    }
  }
}
