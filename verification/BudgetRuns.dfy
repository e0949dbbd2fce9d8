/** What the budget guarantees over every run under one policy. */
module BudgetRuns {
  import opened Bytes
  import opened Budget

  datatype Op =
    | ReserveOp(id: string, upper: int, day: int)
    | SettleOp(id: string, cost: Amount, day: int)

  ghost function Step(policy: Policy, b: Books, op: Op): (Books, Result<(), Refusal>) {
    match op
    case ReserveOp(id, upper, day) => Reserve(policy, b, id, upper, day)
    case SettleOp(id, cost, day) => Settle(b, id, cost, day)
  }

  ghost function Run(policy: Policy, ops: seq<Op>): Books {
    if ops == [] then NO_BOOKS else Step(policy, Run(policy, ops[..|ops| - 1]), ops[|ops| - 1]).0
  }

  // ----- What an attempt was allowed, and what it took beyond that -----

  /** The part of an attempt that its reservation covers. */
  function Covered(a: Attempt): int {
    if a.actual.None? || a.actual.value > a.reserved then a.reserved else a.actual.value
  }

  function CoveredOn(day: int): Attempt -> int {
    (a: Attempt) => if a.actual.None? || a.settledOn == Some(day) then Covered(a) else 0
  }

  function Excess(a: Attempt): int { if Overran(a) then a.actual.value - a.reserved else 0 }

  // ----- Sums -----

  lemma SumSnoc(rows: seq<Attempt>, a: Attempt, weight: Attempt -> int)
    ensures Sum(rows + [a], weight) == Sum(rows, weight) + weight(a)
  {
    assert (rows + [a])[..|rows|] == rows;
  }

  lemma {:induction false} SumUpdate(rows: seq<Attempt>, k: nat, a: Attempt, weight: Attempt -> int)
    requires k < |rows|
    ensures Sum(rows[k := a], weight) == Sum(rows, weight) - weight(rows[k]) + weight(a)
  {
    var n := |rows| - 1;
    if k == n {
      assert rows[k := a][..n] == rows[..n];
    } else {
      assert rows[k := a][..n] == rows[..n][k := a];
      SumUpdate(rows[..n], k, a, weight);
    }
  }

  lemma {:induction false} SumMonotone(rows: seq<Attempt>, u: Attempt -> int, v: Attempt -> int)
    requires forall i :: 0 <= i < |rows| ==> u(rows[i]) <= v(rows[i])
    ensures Sum(rows, u) <= Sum(rows, v)
  {
    if rows != [] {
      SumMonotone(rows[..|rows| - 1], u, v);
    }
  }

  /** Every charge is what its reservation covers and the excess over it. */
  lemma {:induction false} ChargeSplits(rows: seq<Attempt>)
    ensures Sum(rows, Charge) == Sum(rows, Covered) + Sum(rows, Excess)
  {
    if rows != [] {
      ChargeSplits(rows[..|rows| - 1]);
    }
  }

  // ----- One step -----

  ghost predicate RowOk(a: Attempt) {
    0 <= a.reserved <= MAX_RESERVATION
    && (a.actual.Some? <==> a.settledOn.Some?) && (a.actual.Some? ==> 0 <= a.actual.value)
  }

  ghost predicate RowsOk(rows: seq<Attempt>) {
    (forall i :: 0 <= i < |rows| ==> RowOk(rows[i]))
    && forall i, j :: 0 <= i < j < |rows| ==> rows[i].id != rows[j].id
  }

  /** A row keeps its identity and its hold, and its charge once it has one. */
  ghost predicate Keeps(a: Attempt, b: Attempt) {
    b.id == a.id && b.day == a.day && b.reserved == a.reserved && (a.actual.Some? ==> b == a)
  }

  ghost predicate SomeOverran(rows: seq<Attempt>) { exists i :: 0 <= i < |rows| && Overran(rows[i]) }

  /** A step leaves the books alone, or adds an open attempt, or settles an open one. */
  datatype Change = Same | Opened(row: Attempt) | Settled(k: nat, row: Attempt)

  ghost function ChangeOf(policy: Policy, b: Books, op: Op): Change {
    match op
    case ReserveOp(id, upper, day) =>
      if Reserve(policy, b, id, upper, day).1.Ok? then Opened(Attempt(id, day, upper, None, None)) else Same
    case SettleOp(id, cost, day) =>
      var r := Settle(b, id, cost, day).1;
      var k := Find(b.attempts, id);
      var actual := Micro(cost);
      if (r.Ok? || r.error.Overrun?) && k.Some? && actual.Ok? then
        Settled(k.value, b.attempts[k.value].(actual := Some(actual.value), settledOn := Some(day)))
      else Same
  }

  ghost predicate Matches(b: Books, b': Books, c: Change) {
    match c
    case Same => b' == b
    case Opened(row) => b'.attempts == b.attempts + [row] && !b.blocked && !b'.blocked
    case Settled(k, row) =>
      k < |b.attempts| && b.attempts[k].actual.None? && b'.attempts == b.attempts[k := row]
      && Keeps(b.attempts[k], row) && row.actual.Some? && b'.blocked == (b.blocked || Overran(row))
  }

  lemma StepChanges(policy: Policy, b: Books, op: Op)
    ensures Matches(b, Step(policy, b, op).0, ChangeOf(policy, b, op))
  {
    hide Sum;
  }

  lemma OpenedRow(policy: Policy, b: Books, op: Op)
    requires ChangeOf(policy, b, op).Opened?
    ensures var row := ChangeOf(policy, b, op).row;
            row.actual.None? && row.settledOn.None? && row.day == op.day && 0 <= row.reserved <= MAX_RESERVATION
            && Sum(b.attempts, Charge) + row.reserved <= policy.totalLimit
            && Sum(b.attempts, ChargeOn(op.day)) + row.reserved <= policy.dailyLimit
            && Sum(b.attempts, CallOn(op.day)) < policy.maxDailyCalls
            && forall i :: 0 <= i < |b.attempts| ==> b.attempts[i].id != row.id
  {
    hide Sum, ChargeOn, CallOn;
  }

  lemma SettledRow(policy: Policy, b: Books, op: Op)
    requires ChangeOf(policy, b, op).Settled?
    ensures var row := ChangeOf(policy, b, op).row;
            row.actual.Some? && 0 <= row.actual.value && row.settledOn == Some(op.day)
  {
    hide Sum;
  }

  lemma StepKeepsRows(policy: Policy, b: Books, op: Op)
    requires RowsOk(b.attempts)
    ensures RowsOk(Step(policy, b, op).0.attempts)
  {
    StepChanges(policy, b, op);
    var c := ChangeOf(policy, b, op);
    if c.Opened? {
      OpenedRow(policy, b, op);
    } else if c.Settled? {
      SettledRow(policy, b, op);
    }
    hide Step, ChangeOf, Sum;
  }

  lemma StepKeepsBlocked(policy: Policy, b: Books, op: Op)
    requires b.blocked <==> SomeOverran(b.attempts)
    ensures var b' := Step(policy, b, op).0; b'.blocked <==> SomeOverran(b'.attempts)
  {
    StepChanges(policy, b, op);
    var b', c := Step(policy, b, op).0, ChangeOf(policy, b, op);
    if c.Opened? {
      OpenedRow(policy, b, op);
    }
    hide Step, ChangeOf, Sum;
    if c.Settled? {
      assert b'.attempts[c.k] == c.row;
      if b.blocked {
        var i :| 0 <= i < |b.attempts| && Overran(b.attempts[i]);
        assert Overran(b'.attempts[i]);
      }
      if SomeOverran(b'.attempts) {
        var i :| 0 <= i < |b'.attempts| && Overran(b'.attempts[i]);
        assert i != c.k ==> Overran(b.attempts[i]);
      }
    }
  }

  lemma CoveredAtMostCharge(rows: seq<Attempt>)
    ensures Sum(rows, Covered) <= Sum(rows, Charge)
  {
    SumMonotone(rows, Covered, Charge);
  }

  lemma StepKeepsTotal(policy: Policy, b: Books, op: Op)
    requires Sum(b.attempts, Covered) <= policy.totalLimit
    ensures Sum(Step(policy, b, op).0.attempts, Covered) <= policy.totalLimit
  {
    StepChanges(policy, b, op);
    var b', c := Step(policy, b, op).0, ChangeOf(policy, b, op);
    if c.Opened? {
      OpenedRow(policy, b, op);
      CoveredAtMostCharge(b.attempts);
      SumSnoc(b.attempts, c.row, Covered);
    } else if c.Settled? {
      SumUpdate(b.attempts, c.k, c.row, Covered);
    }
    hide Step, ChangeOf, Sum;
  }

  lemma CoveredOnAtMostCharge(rows: seq<Attempt>, day: int)
    ensures Sum(rows, CoveredOn(day)) <= Sum(rows, ChargeOn(day))
  {
    SumMonotone(rows, CoveredOn(day), ChargeOn(day));
  }

  lemma StepKeepsCalls(policy: Policy, b: Books, op: Op, day: int)
    requires Sum(b.attempts, CallOn(day)) <= policy.maxDailyCalls
    ensures Sum(Step(policy, b, op).0.attempts, CallOn(day)) <= policy.maxDailyCalls
  {
    StepChanges(policy, b, op);
    var b', c := Step(policy, b, op).0, ChangeOf(policy, b, op);
    if c.Opened? {
      OpenedRow(policy, b, op);
      SumSnoc(b.attempts, c.row, CallOn(day));
    } else if c.Settled? {
      SumUpdate(b.attempts, c.k, c.row, CallOn(day));
    }
    hide Step, ChangeOf, Sum;
  }

  // ----- Whole runs -----

  lemma {:induction false} ReachableRowsOk(policy: Policy, ops: seq<Op>)
    ensures RowsOk(Run(policy, ops).attempts)
  {
    hide Step;
    if ops != [] {
      ReachableRowsOk(policy, ops[..|ops| - 1]);
      StepKeepsRows(policy, Run(policy, ops[..|ops| - 1]), ops[|ops| - 1]);
    }
  }

  /** The budget is frozen if and only if some settled attempt exceeded its reservation. */
  lemma {:induction false} BlockedIffOverran(policy: Policy, ops: seq<Op>)
    ensures Run(policy, ops).blocked <==> SomeOverran(Run(policy, ops).attempts)
  {
    hide Step;
    if ops != [] {
      BlockedIffOverran(policy, ops[..|ops| - 1]);
      StepKeepsBlocked(policy, Run(policy, ops[..|ops| - 1]), ops[|ops| - 1]);
    }
  }

  /** What reservations cover never exceeds the total limit, frozen or not. */
  lemma {:induction false} TotalCovered(policy: Policy, ops: seq<Op>)
    ensures Sum(Run(policy, ops).attempts, Covered) <= policy.totalLimit
  {
    hide Step;
    if ops != [] {
      TotalCovered(policy, ops[..|ops| - 1]);
      StepKeepsTotal(policy, Run(policy, ops[..|ops| - 1]), ops[|ops| - 1]);
    }
  }

  lemma {:induction false} NoExcess(rows: seq<Attempt>)
    requires !SomeOverran(rows)
    ensures Sum(rows, Excess) == 0
  {
    if rows != [] {
      NoExcess(rows[..|rows| - 1]);
    }
  }

  /** Conservation: money spent or held is at most the limit and the overruns that froze it. */
  lemma SpentAndHeldBounded(policy: Policy, ops: seq<Op>)
    ensures var rows := Run(policy, ops).attempts;
            Sum(rows, Spent) + Sum(rows, Held) <= policy.totalLimit + Sum(rows, Excess)
            && (!Run(policy, ops).blocked ==> Sum(rows, Excess) == 0)
  {
    var rows := Run(policy, ops).attempts;
    TotalCovered(policy, ops);
    SpentAndHeld(rows);
    ChargeSplits(rows);
    BlockedIffOverran(policy, ops);
    if !SomeOverran(rows) {
      NoExcess(rows);
    }
  }

  /** No date has more calls than the policy allows, whatever order the dates come in. */
  lemma {:induction false} CallsBounded(policy: Policy, ops: seq<Op>, day: int)
    ensures Sum(Run(policy, ops).attempts, CallOn(day)) <= policy.maxDailyCalls
  {
    hide Step;
    if ops != [] {
      CallsBounded(policy, ops[..|ops| - 1], day);
      StepKeepsCalls(policy, Run(policy, ops[..|ops| - 1]), ops[|ops| - 1], day);
    }
  }

  lemma RunSnoc(policy: Policy, ops: seq<Op>, k: nat)
    requires k < |ops|
    ensures Run(policy, ops[..k + 1]) == Step(policy, Run(policy, ops[..k]), ops[k]).0
  {
    assert ops[..k + 1][..k] == ops[..k];
  }

  /** Attempts are never dropped: each keeps its hold until it is settled and its charge for good. */
  lemma {:induction false} AttemptsPersist(policy: Policy, ops: seq<Op>, m: nat, n: nat, i: nat)
    requires m <= n <= |ops| && i < |Run(policy, ops[..m]).attempts|
    ensures i < |Run(policy, ops[..n]).attempts|
            && Keeps(Run(policy, ops[..m]).attempts[i], Run(policy, ops[..n]).attempts[i])
    decreases n - m
  {
    hide Step, Run, ChangeOf;
    if m < n {
      AttemptsPersist(policy, ops, m, n - 1, i);
      RunSnoc(policy, ops, n - 1);
      StepChanges(policy, Run(policy, ops[..n - 1]), ops[n - 1]);
    }
  }

  /** Once frozen, the budget stays frozen and grants no reservation. */
  lemma {:induction false} FrozenForGood(policy: Policy, ops: seq<Op>, m: nat, n: nat)
    requires m <= n <= |ops| && Run(policy, ops[..m]).blocked
    ensures Run(policy, ops[..n]).blocked
    ensures |Run(policy, ops[..n]).attempts| == |Run(policy, ops[..m]).attempts|
    decreases n - m
  {
    hide Step, Run, ChangeOf;
    if m < n {
      FrozenForGood(policy, ops, m, n - 1);
      RunSnoc(policy, ops, n - 1);
      StepChanges(policy, Run(policy, ops[..n - 1]), ops[n - 1]);
    }
  }

  // ----- The books are the history -----

  /** Operation `k` is the reservation that opened this attempt. */
  ghost predicate OpenedBy(ops: seq<Op>, k: nat, a: Attempt) {
    k < |ops| && ops[k] == ReserveOp(a.id, a.reserved, a.day)
  }

  /** Operation `k` is the settlement that this attempt's charge comes from. */
  ghost predicate SettledAt(ops: seq<Op>, k: nat, a: Attempt) {
    k < |ops| && ops[k].SettleOp? && ops[k].id == a.id
    && a.settledOn == Some(ops[k].day) && a.actual.Some? && Micro(ops[k].cost) == Ok(a.actual.value)
  }

  ghost predicate HasHistory(ops: seq<Op>, a: Attempt) {
    (exists k :: OpenedBy(ops, k, a))
    && (a.actual.Some? ==> exists j: nat, k: nat :: j < k && OpenedBy(ops, j, a) && SettledAt(ops, k, a))
  }

  lemma HistoryGrows(ops: seq<Op>, op: Op, a: Attempt)
    requires HasHistory(ops, a)
    ensures HasHistory(ops + [op], a)
  {
    var k: nat :| OpenedBy(ops, k, a);
    assert OpenedBy(ops + [op], k, a);
    if a.actual.Some? {
      var i: nat, j: nat :| i < j && OpenedBy(ops, i, a) && SettledAt(ops, j, a);
      assert OpenedBy(ops + [op], i, a) && SettledAt(ops + [op], j, a);
    }
  }

  lemma NowOpened(ops: seq<Op>, k: nat, a: Attempt)
    requires OpenedBy(ops, k, a) && a.actual.None?
    ensures HasHistory(ops, a)
  {
  }

  lemma NowSettled(ops: seq<Op>, op: Op, a: Attempt, row: Attempt)
    requires HasHistory(ops, a) && SettledAt(ops + [op], |ops|, row)
    requires row.id == a.id && row.day == a.day && row.reserved == a.reserved
    ensures HasHistory(ops + [op], row)
  {
    var k: nat :| OpenedBy(ops, k, a);
    assert OpenedBy(ops + [op], k, row) && k < |ops|;
  }

  lemma StepHasHistory(policy: Policy, ops: seq<Op>, b: Books, op: Op, i: nat)
    requires forall j :: 0 <= j < |b.attempts| ==> HasHistory(ops, b.attempts[j])
    requires i < |Step(policy, b, op).0.attempts|
    ensures HasHistory(ops + [op], Step(policy, b, op).0.attempts[i])
  {
    hide Sum, ChargeOn, CallOn, Micro, HasHistory, Find;
    var more, row := ops + [op], Step(policy, b, op).0.attempts[i];
    if i < |b.attempts| {
      HistoryGrows(ops, op, b.attempts[i]);
      if row != b.attempts[i] {
        NowSettled(ops, op, b.attempts[i], row);
      }
    } else {
      assert OpenedBy(more, |ops|, row);
      NowOpened(more, |ops|, row);
    }
  }

  /** Every attempt on the books was opened by a reservation for its amount and date, and every
      charge is a cost, rounded up, that was reported later, on the date it was reported. */
  lemma {:induction false} BooksAreHistory(policy: Policy, ops: seq<Op>, i: nat)
    requires i < |Run(policy, ops).attempts|
    ensures HasHistory(ops, Run(policy, ops).attempts[i])
  {
    hide Step, HasHistory;
    if ops != [] {
      var k := |ops| - 1;
      var before := Run(policy, ops[..k]);
      forall j | 0 <= j < |before.attempts|
        ensures HasHistory(ops[..k], before.attempts[j])
      {
        BooksAreHistory(policy, ops[..k], j);
      }
      StepHasHistory(policy, ops[..k], before, ops[k], i);
      assert ops == ops[..k] + [ops[k]];
    }
  }

  // ----- Exactly when, and what is stored -----

  function SpentOn(day: int): Attempt -> int {
    (a: Attempt) => if a.actual.Some? && a.settledOn == Some(day) then a.actual.value else 0
  }

  /** What a date counts is what is held and what was charged on it. */
  lemma {:induction false} DailySplits(rows: seq<Attempt>, day: int)
    ensures Sum(rows, ChargeOn(day)) == Sum(rows, Held) + Sum(rows, SpentOn(day))
  {
    if rows != [] {
      DailySplits(rows[..|rows| - 1], day);
    }
  }

  /** A reservation is granted exactly when it is for at most a hundred dollars, no attempt ever
      overran, spending and holds stay within the total limit, the date's spending and all holds
      within the daily limit, the date has a call left and the name is new. */
  lemma GrantedIff(policy: Policy, ops: seq<Op>, op: Op)
    requires op.ReserveOp?
    ensures var b, (b', r) := Run(policy, ops), Step(policy, Run(policy, ops), op);
            (r.Ok?
             <==> 0 <= op.upper <= 100_000_000 && !SomeOverran(b.attempts)
                  && Sum(b.attempts, Spent) + Sum(b.attempts, Held) + op.upper <= policy.totalLimit
                  && Sum(b.attempts, SpentOn(op.day)) + Sum(b.attempts, Held) + op.upper <= policy.dailyLimit
                  && Sum(b.attempts, CallOn(op.day)) < policy.maxDailyCalls
                  && forall i :: 0 <= i < |b.attempts| ==> b.attempts[i].id != op.id)
            && b' == if r.Err? then b else Books(b.attempts + [Attempt(op.id, op.day, op.upper, None, None)], false)
  {
    hide Sum, Run, SomeOverran;
    var b := Run(policy, ops);
    BlockedIffOverran(policy, ops);
    SpentAndHeld(b.attempts);
    DailySplits(b.attempts, op.day);
  }

  ghost predicate IsOpen(rows: seq<Attempt>, i: nat, id: string) {
    i < |rows| && rows[i].id == id && rows[i].actual.None?
  }

  /** A settlement is of an open attempt, for a valid cost. It replaces the hold by the charge, on the
      date it is made, and freezes the budget and reports it exactly when the charge is above the
      hold. Anything else changes nothing. */
  lemma SettledIff(policy: Policy, ops: seq<Op>, op: Op)
    requires op.SettleOp?
    ensures var b, (b', r) := Run(policy, ops), Step(policy, Run(policy, ops), op);
            if Micro(op.cost).Err? || !exists i :: IsOpen(b.attempts, i, op.id) then b' == b && r.Err?
            else
              var cost := Micro(op.cost).value;
              forall i: nat :: IsOpen(b.attempts, i, op.id) ==>
                var held := b.attempts[i].reserved;
                b' == Books(b.attempts[i := Attempt(op.id, b.attempts[i].day, held, Some(cost), Some(op.day))],
                            b.blocked || cost > held)
                && r == if cost > held then Err(Overrun) else Ok(())
  {
    hide Micro, Run, Find;
    ReachableRowsOk(policy, ops);
    var b := Run(policy, ops);
    var k := Find(b.attempts, op.id);
    assert k.Some? && b.attempts[k.value].actual.None? ==> IsOpen(b.attempts, k.value, op.id);
  }
}
