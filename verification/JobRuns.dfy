/** Lease and fence safety over every interleaving of workers. */
module JobRuns {
  import opened Bytes
  import opened Jobs

  datatype Op =
    | EnqueueOp(job: string, brief: string)
    | AcquireOp(job: string, seconds: int, enabled: bool, tested: Instant, granted: Instant)
    | GuardOp(job: string, fence: int, enabled: bool, now: Instant)
    | ReserveOp(job: string, fence: int, kind: string, cents: int,
                enabled: bool, stillEnabled: bool, now: Instant, day: string)
    | FinishOp(job: string, fence: int, state: string, outcome: Option<string>, error: Option<string>,
               enabled: bool, now: Instant)
    | RequeueOp(job: string)

  ghost function Plain(r: Result<(), Refusal>): Result<int, Refusal> {
    if r.Ok? then Ok(0) else Err(r.error)
  }

  ghost function Fence(r: Result<(int, string), Refusal>): Result<int, Refusal> {
    if r.Ok? then Ok(r.value.0) else Err(r.error)
  }

  /** One transaction; a granted acquisition answers with its fence. */
  ghost function Step(q: Queue, op: Op): (Queue, Result<int, Refusal>) {
    match op
    case EnqueueOp(job, brief) => var (q', r) := Enqueue(q, job, brief); (q', Plain(r))
    case AcquireOp(job, seconds, enabled, tested, granted) =>
      var (q', r) := Acquire(q, job, seconds, enabled, tested, granted); (q', Fence(r))
    case GuardOp(job, fence, enabled, now) => (q, Plain(Guard(q, job, fence, enabled, now)))
    case ReserveOp(job, fence, kind, cents, enabled, stillEnabled, now, day) =>
      var (q', r) := Reserve(q, job, fence, kind, cents, enabled, stillEnabled, now, day); (q', Plain(r))
    case FinishOp(job, fence, state, outcome, error, enabled, now) =>
      var (q', r) := Finish(q, job, fence, state, outcome, error, enabled, now); (q', Plain(r))
    case RequeueOp(job) => (Requeue(q, job), Ok(0))
  }

  ghost function Run(ops: seq<Op>): Queue {
    if ops == [] then EMPTY else Step(Run(ops[..|ops| - 1]), ops[|ops| - 1]).0
  }

  /** What operation `k` of the run was answered. */
  ghost function Answer(ops: seq<Op>, k: nat): Result<int, Refusal>
    requires k < |ops|
  {
    Step(Run(ops[..k]), ops[k]).1
  }

  ghost predicate AcquiredAt(ops: seq<Op>, k: nat, job: string, fence: int)
    requires k < |ops|
  {
    ops[k].AcquireOp? && ops[k].job == job && Answer(ops, k) == Ok(fence)
  }

  /** Operation `k` passed the guard with this fence: it checked, reserved or finished. */
  ghost predicate UsedAt(ops: seq<Op>, k: nat, job: string, fence: int)
    requires k < |ops|
  {
    (ops[k].GuardOp? || ops[k].ReserveOp? || ops[k].FinishOp?)
    && ops[k].job == job && ops[k].fence == fence && Answer(ops, k).Ok?
  }

  ghost predicate FinishedAt(ops: seq<Op>, k: nat, job: string, fence: int)
    requires k < |ops|
  {
    ops[k].FinishOp? && UsedAt(ops, k, job, fence)
  }

  ghost predicate ReservedAt(ops: seq<Op>, k: nat)
    requires k < |ops|
  {
    ops[k].ReserveOp? && Answer(ops, k).Ok?
  }

  // ----- One step -----

  /** How a row may change: its brief is bound for good, its fence never falls, and once its lease
      is given up nothing but a newer fence brings it back. */
  ghost predicate Advances(a: Job, b: Job) {
    b.brief == a.brief && a.fence <= b.fence && a.attempts <= b.attempts
    && (b.fence == a.fence && a.lease == 0.0 ==> b.lease == 0.0)
  }

  ghost predicate RowOk(row: Job) {
    row.fence == row.attempts && 0 <= row.attempts <= MAX_ATTEMPTS && (row.fence == 0 ==> row.lease == 0.0)
  }

  ghost predicate QueueOk(q: Queue) {
    (forall job :: job in q.jobs ==> RowOk(q.jobs[job]))
    && forall day :: DayCents(q.reservations, day) <= DAILY_CENTS && TextCalls(q.reservations, day) <= DAILY_TEXT_CALLS
  }

  lemma AddReservation(rows: seq<Reservation>, r: Reservation, day: string)
    ensures DayCents(rows + [r], day) == DayCents(rows, day) + if r.day == day then r.cents else 0
    ensures TextCalls(rows + [r], day) == TextCalls(rows, day) + if r.day == day && r.kind == TEXT then 1 else 0
  {
    assert (rows + [r])[..|rows|] == rows;
  }

  lemma StepKeepsRows(q: Queue, op: Op, job: string)
    requires forall j :: j in q.jobs ==> RowOk(q.jobs[j])
    requires job in Step(q, op).0.jobs
    ensures RowOk(Step(q, op).0.jobs[job])
    ensures job in q.jobs ==> Advances(q.jobs[job], Step(q, op).0.jobs[job])
    ensures job !in q.jobs ==> op.EnqueueOp? && Step(q, op).0.jobs[job].fence == 0
  {
    hide DayCents, TextCalls;
  }

  lemma StepKeepsBudget(q: Queue, op: Op, day: string)
    requires QueueOk(q)
    ensures var rows := Step(q, op).0.reservations;
            DayCents(rows, day) <= DAILY_CENTS && TextCalls(rows, day) <= DAILY_TEXT_CALLS
  {
    hide DayCents, TextCalls;
    if op.ReserveOp? {
      AddReservation(q.reservations, Reservation(op.day, op.job, op.kind, op.cents), day);
    }
  }

  lemma StepKeepsJobs(q: Queue, op: Op)
    ensures q.jobs.Keys <= Step(q, op).0.jobs.Keys
  {
    hide DayCents, TextCalls;
  }

  lemma StepKeepsOk(q: Queue, op: Op)
    requires QueueOk(q)
    ensures QueueOk(Step(q, op).0)
  {
    var q' := Step(q, op).0;
    forall job | job in q'.jobs
      ensures RowOk(q'.jobs[job])
    {
      StepKeepsRows(q, op, job);
    }
    forall day: string
      ensures DayCents(q'.reservations, day) <= DAILY_CENTS && TextCalls(q'.reservations, day) <= DAILY_TEXT_CALLS
    {
      StepKeepsBudget(q, op, day);
    }
  }

  // ----- Whole runs -----

  lemma {:induction false} ReachableOk(ops: seq<Op>)
    ensures QueueOk(Run(ops))
  {
    hide Step;
    if ops != [] {
      ReachableOk(ops[..|ops| - 1]);
      StepKeepsOk(Run(ops[..|ops| - 1]), ops[|ops| - 1]);
    }
  }

  /** No day's reservations, over all jobs and workers, exceed 500 cents or 40 text calls. */
  lemma DailyLimits(ops: seq<Op>, day: string)
    ensures DayCents(Run(ops).reservations, day) <= 500 && TextCalls(Run(ops).reservations, day) <= 40
  {
    ReachableOk(ops);
  }

  lemma RunSnoc(ops: seq<Op>, k: nat)
    requires k < |ops|
    ensures Run(ops[..k + 1]) == Step(Run(ops[..k]), ops[k]).0
  {
    assert ops[..k + 1][..k] == ops[..k];
  }

  /** Between any two moments of a run every row advances. */
  lemma {:induction false} RowsAdvance(ops: seq<Op>, i: nat, j: nat, job: string)
    requires i <= j <= |ops| && job in Run(ops[..i]).jobs
    ensures job in Run(ops[..j]).jobs && Advances(Run(ops[..i]).jobs[job], Run(ops[..j]).jobs[job])
    decreases j - i
  {
    hide Step, Run;
    if i < j {
      RowsAdvance(ops, i, j - 1, job);
      RunSnoc(ops, j - 1);
      var q := Run(ops[..j - 1]);
      StepKeepsJobs(q, ops[j - 1]);
      ReachableOk(ops[..j - 1]);
      StepKeepsRows(q, ops[j - 1], job);
    }
  }

  lemma AcquisitionRaises(ops: seq<Op>, k: nat, job: string, fence: int)
    requires k < |ops| && AcquiredAt(ops, k, job, fence)
    ensures job in Run(ops[..k]).jobs && Run(ops[..k]).jobs[job].fence == fence - 1
    ensures job in Run(ops[..k + 1]).jobs && Run(ops[..k + 1]).jobs[job].fence == fence
    ensures Run(ops[..k]).jobs[job].lease <= ops[k].tested
  {
    hide DayCents, TextCalls, Run;
    RunSnoc(ops, k);
  }

  lemma UseNeedsLease(ops: seq<Op>, k: nat, job: string, fence: int)
    requires k < |ops| && UsedAt(ops, k, job, fence)
    ensures job in Run(ops[..k]).jobs && Run(ops[..k]).jobs[job].fence == fence
    ensures 0.0 <= ops[k].now < Run(ops[..k]).jobs[job].lease
  {
    hide DayCents, TextCalls, Run;
  }

  lemma FinishGivesUp(ops: seq<Op>, k: nat, job: string, fence: int)
    requires k < |ops| && FinishedAt(ops, k, job, fence)
    ensures job in Run(ops[..k + 1]).jobs
    ensures Run(ops[..k + 1]).jobs[job].fence == fence && Run(ops[..k + 1]).jobs[job].lease == 0.0
  {
    hide DayCents, TextCalls, Run;
    UseNeedsLease(ops, k, job, fence);
    RunSnoc(ops, k);
  }

  /** Fences of a job strictly increase. */
  lemma FencesIncrease(ops: seq<Op>, i: nat, j: nat, job: string, f: int, g: int)
    requires i < j < |ops| && AcquiredAt(ops, i, job, f) && AcquiredAt(ops, j, job, g)
    ensures f < g
  {
    AcquisitionRaises(ops, i, job, f);
    AcquisitionRaises(ops, j, job, g);
    RowsAdvance(ops, i + 1, j, job);
  }

  /** Once a newer fence is acquired no older one passes the guard again. */
  lemma OlderFenceIsDead(ops: seq<Op>, j: nat, k: nat, job: string, f: int, g: int)
    requires j < k < |ops| && AcquiredAt(ops, j, job, g) && f < g
    ensures !UsedAt(ops, k, job, f)
  {
    hide UsedAt, AcquiredAt;
    if UsedAt(ops, k, job, f) {
      AcquisitionRaises(ops, j, job, g);
      RowsAdvance(ops, j + 1, k, job);
      UseNeedsLease(ops, k, job, f);
    }
  }

  /** A fence that has finished its job is never used again. */
  lemma FinishedFenceIsDead(ops: seq<Op>, j: nat, k: nat, job: string, f: int)
    requires j < k < |ops| && FinishedAt(ops, j, job, f)
    ensures !UsedAt(ops, k, job, f)
  {
    hide UsedAt, FinishedAt;
    if UsedAt(ops, k, job, f) {
      FinishGivesUp(ops, j, job, f);
      RowsAdvance(ops, j + 1, k, job);
      UseNeedsLease(ops, k, job, f);
    }
  }

  lemma FinishesAtMostOnce(ops: seq<Op>, i: nat, j: nat, job: string, f: int)
    requires i < |ops| && j < |ops| && FinishedAt(ops, i, job, f) && FinishedAt(ops, j, job, f)
    ensures i == j
  {
    hide UsedAt;
    if i < j {
      FinishedFenceIsDead(ops, i, j, job, f);
    } else if j < i {
      FinishedFenceIsDead(ops, j, i, job, f);
    }
  }

  lemma OnlyAcquireMovesFence(q: Queue, op: Op, job: string)
    requires job in q.jobs && job in Step(q, op).0.jobs && Step(q, op).0.jobs[job].fence != q.jobs[job].fence
    ensures op.AcquireOp? && op.job == job && Step(q, op).1 == Ok(Step(q, op).0.jobs[job].fence)
  {
    hide DayCents, TextCalls;
  }

  lemma NotEmptyYet(ops: seq<Op>, n: nat, job: string)
    requires n <= |ops| && job in Run(ops[..n]).jobs
    ensures n > 0
  {
    hide Step;
    assert ops[..0] == [];
  }

  lemma NameAcquisition(ops: seq<Op>, k: nat, job: string, fence: int)
    requires k < |ops| && ops[k].AcquireOp? && ops[k].job == job && Step(Run(ops[..k]), ops[k]).1 == Ok(fence)
    ensures AcquiredAt(ops, k, job, fence)
  {
  }

  lemma {:induction false} FenceWasAcquired(ops: seq<Op>, n: nat, job: string) returns (k: nat)
    requires n <= |ops| && job in Run(ops[..n]).jobs && Run(ops[..n]).jobs[job].fence > 0
    ensures k < n && AcquiredAt(ops, k, job, Run(ops[..n]).jobs[job].fence)
  {
    hide Step, Run, AcquiredAt;
    NotEmptyYet(ops, n, job);
    RunSnoc(ops, n - 1);
    var q, op := Run(ops[..n - 1]), ops[n - 1];
    ReachableOk(ops[..n - 1]);
    StepKeepsRows(q, op, job);
    if q.jobs[job].fence == Run(ops[..n]).jobs[job].fence {
      k := FenceWasAcquired(ops, n - 1, job);
    } else {
      OnlyAcquireMovesFence(q, op, job);
      k := n - 1;
      NameAcquisition(ops, k, job, Run(ops[..n]).jobs[job].fence);
    }
  }

  /** Exclusive use: whoever passes the guard holds a fence that was acquired before and, since
      then, neither has the job been acquired again nor has that fence finished it. */
  lemma UseIsExclusive(ops: seq<Op>, k: nat, job: string, f: int) returns (i: nat)
    requires k < |ops| && UsedAt(ops, k, job, f)
    ensures i < k && AcquiredAt(ops, i, job, f)
    ensures forall m: nat, g: int :: i < m < k ==> !AcquiredAt(ops, m, job, g)
    ensures forall m: nat :: i < m < k ==> !FinishedAt(ops, m, job, f)
  {
    hide UsedAt, AcquiredAt, FinishedAt, Run, Step;
    UseNeedsLease(ops, k, job, f);
    ReachableOk(ops[..k]);
    i := FenceWasAcquired(ops, k, job);
    forall m: nat, g: int | i < m < k
      ensures !AcquiredAt(ops, m, job, g)
    {
      if AcquiredAt(ops, m, job, g) {
        FencesIncrease(ops, i, m, job, f, g);
        OlderFenceIsDead(ops, m, k, job, f, g);
      }
    }
    forall m: nat | i < m < k
      ensures !FinishedAt(ops, m, job, f)
    {
      if FinishedAt(ops, m, job, f) {
        FinishedFenceIsDead(ops, m, k, job, f);
      }
    }
  }

  // ----- Time -----

  lemma OnlyHolderMovesLease(q: Queue, op: Op, job: string)
    requires job in q.jobs && job in Step(q, op).0.jobs && Step(q, op).0.jobs[job].lease != q.jobs[job].lease
    ensures op.job == job && Step(q, op).1.Ok? && (op.AcquireOp? || (op.FinishOp? && op.fence == q.jobs[job].fence))
  {
    hide DayCents, TextCalls;
  }

  ghost predicate Untouched(ops: seq<Op>, m: nat, job: string)
    requires m < |ops|
  {
    forall g: int :: !AcquiredAt(ops, m, job, g) && !FinishedAt(ops, m, job, g)
  }

  lemma LeaseMoved(ops: seq<Op>, m: nat, job: string)
    requires m < |ops| && job in Run(ops[..m]).jobs && job in Run(ops[..m + 1]).jobs
    requires Run(ops[..m]).jobs[job].lease != Run(ops[..m + 1]).jobs[job].lease
    ensures !Untouched(ops, m, job)
  {
    hide Run, Step;
    RunSnoc(ops, m);
    OnlyHolderMovesLease(Run(ops[..m]), ops[m], job);
    if ops[m].AcquireOp? {
      assert AcquiredAt(ops, m, job, Answer(ops, m).value);
    } else {
      assert FinishedAt(ops, m, job, ops[m].fence);
    }
  }

  /** While nobody acquires or finishes a job its lease stands. */
  lemma {:induction false} LeaseStands(ops: seq<Op>, i: nat, n: nat, job: string)
    requires i <= n <= |ops| && job in Run(ops[..i]).jobs
    requires forall m: nat :: i <= m < n ==> Untouched(ops, m, job)
    ensures job in Run(ops[..n]).jobs && Run(ops[..n]).jobs[job].lease == Run(ops[..i]).jobs[job].lease
    decreases n - i
  {
    hide Run, Untouched;
    RowsAdvance(ops, i, n, job);
    if i < n {
      LeaseStands(ops, i, n - 1, job);
      if Run(ops[..n]).jobs[job].lease != Run(ops[..n - 1]).jobs[job].lease {
        LeaseMoved(ops, n - 1, job);
      }
    }
  }

  lemma AcquisitionSetsLease(ops: seq<Op>, k: nat, job: string, fence: int)
    requires k < |ops| && AcquiredAt(ops, k, job, fence)
    ensures job in Run(ops[..k + 1]).jobs
    ensures Run(ops[..k + 1]).jobs[job].lease == ops[k].granted + ops[k].seconds as real
  {
    hide DayCents, TextCalls, Run;
    RunSnoc(ops, k);
  }

  lemma IsAcquire(ops: seq<Op>, k: nat, job: string, f: int)
    requires k < |ops| && AcquiredAt(ops, k, job, f)
    ensures ops[k].AcquireOp?
  {
  }

  /** A lease is respected: unless its holder finishes, the next acquisition of the job happens only
      when the time it was granted for has run out. */
  lemma LeaseRespected(ops: seq<Op>, i: nat, j: nat, job: string, f: int, g: int)
    requires i < j < |ops| && AcquiredAt(ops, i, job, f) && AcquiredAt(ops, j, job, g)
    requires forall m: nat :: i < m < j ==> Untouched(ops, m, job)
    ensures ops[i].granted + ops[i].seconds as real <= ops[j].tested
  {
    hide Run, Untouched, AcquiredAt;
    var op := ops[i];
    assert op.AcquireOp? && ops[j].AcquireOp? by { IsAcquire(ops, i, job, f); IsAcquire(ops, j, job, g); }
    AcquisitionSetsLease(ops, i, job, f);
    LeaseStands(ops, i + 1, j, job);
    AcquisitionRaises(ops, j, job, g);
  }

  // ----- Review -----

  lemma OnlyRequeueEndsReview(q: Queue, op: Op, job: string)
    requires job in q.jobs && q.jobs[job].state == REVIEW && q.jobs[job].lease == 0.0
    requires !(op.RequeueOp? && op.job == job)
    ensures job in Step(q, op).0.jobs && Step(q, op).0.jobs[job] == q.jobs[job]
    ensures op.AcquireOp? && op.job == job ==> Step(q, op).1.Err?
  {
    hide DayCents, TextCalls;
  }

  lemma {:induction false} ReviewLasts(ops: seq<Op>, i: nat, n: nat, job: string)
    requires i <= n <= |ops| && job in Run(ops[..i]).jobs
    requires Run(ops[..i]).jobs[job].state == REVIEW && Run(ops[..i]).jobs[job].lease == 0.0
    requires forall m: nat :: i <= m < n ==> ops[m] != RequeueOp(job)
    ensures job in Run(ops[..n]).jobs && Run(ops[..n]).jobs[job] == Run(ops[..i]).jobs[job]
    decreases n - i
  {
    hide Run, Step;
    if i < n {
      ReviewLasts(ops, i, n - 1, job);
      RunSnoc(ops, n - 1);
      OnlyRequeueEndsReview(Run(ops[..n - 1]), ops[n - 1], job);
    }
  }

  lemma FinishSetsState(ops: seq<Op>, k: nat, job: string, fence: int)
    requires k < |ops| && FinishedAt(ops, k, job, fence)
    ensures job in Run(ops[..k + 1]).jobs && Run(ops[..k + 1]).jobs[job].state == ops[k].state
  {
    hide DayCents, TextCalls, Run;
    RunSnoc(ops, k);
  }

  /** A job finished into review is acquired again only after it has been requeued. */
  lemma ReviewedJobWaits(ops: seq<Op>, j: nat, k: nat, job: string, f: int, g: int)
    requires j < k < |ops| && FinishedAt(ops, j, job, f) && ops[j].state == REVIEW && AcquiredAt(ops, k, job, g)
    ensures exists m: nat :: j < m < k && ops[m] == RequeueOp(job)
  {
    hide Run, Step;
    if forall m: nat :: j < m < k ==> ops[m] != RequeueOp(job) {
      FinishGivesUp(ops, j, job, f);
      FinishSetsState(ops, j, job, f);
      ReviewLasts(ops, j + 1, k, job);
      OnlyRequeueEndsReview(Run(ops[..k]), ops[k], job);
    }
  }

  // ----- Counting acquisitions and reservations -----

  ghost function Acquisitions(ops: seq<Op>, job: string): nat {
    if ops == [] then 0
    else
      var k := |ops| - 1;
      Acquisitions(ops[..k], job)
      + if ops[k].AcquireOp? && ops[k].job == job && Answer(ops, k).Ok? then 1 else 0
  }

  lemma GrantRaisesFence(q: Queue, op: Op, job: string)
    requires op.AcquireOp? && op.job == job && Step(q, op).1.Ok?
    ensures job in q.jobs && Step(q, op).0.jobs[job].fence == q.jobs[job].fence + 1
  {
  }

  /** The fence of a job counts its acquisitions. */
  lemma {:induction false} FenceCounts(ops: seq<Op>, job: string)
    ensures job in Run(ops).jobs ==> Run(ops).jobs[job].fence == Acquisitions(ops, job)
    ensures job !in Run(ops).jobs ==> Acquisitions(ops, job) == 0
  {
    hide Step;
    if ops != [] {
      var k := |ops| - 1;
      var q, op := Run(ops[..k]), ops[k];
      FenceCounts(ops[..k], job);
      ReachableOk(ops[..k]);
      StepKeepsJobs(q, op);
      if op.AcquireOp? && op.job == job && Step(q, op).1.Ok? {
        GrantRaisesFence(q, op, job);
      } else if job in q.jobs {
        if Step(q, op).0.jobs[job].fence != q.jobs[job].fence {
          OnlyAcquireMovesFence(q, op, job);
        }
      } else if job in Step(q, op).0.jobs {
        StepKeepsRows(q, op, job);
      }
    }
  }

  /** A job is acquired at most three times, whoever acquires it. */
  lemma AcquiredAtMostThrice(ops: seq<Op>, job: string)
    ensures Acquisitions(ops, job) <= 3
  {
    FenceCounts(ops, job);
    ReachableOk(ops);
  }

  /** The reservations table holds exactly the granted reservations, in order. */
  ghost function Granted(ops: seq<Op>): seq<Reservation> {
    if ops == [] then []
    else
      var k := |ops| - 1;
      Granted(ops[..k])
      + if ReservedAt(ops, k) then [Reservation(ops[k].day, ops[k].job, ops[k].kind, ops[k].cents)] else []
  }

  lemma {:induction false} TableIsGranted(ops: seq<Op>)
    ensures Run(ops).reservations == Granted(ops)
  {
    hide DayCents, TextCalls;
    if ops != [] {
      TableIsGranted(ops[..|ops| - 1]);
    }
  }

  // ----- Exactly when, and what is stored -----

  /** An acquisition is granted exactly when generation is enabled and the job is there, in a
      runnable state, acquired fewer than three times before, and not under a lease. It answers
      with the number of the acquisition, and writes one row. */
  lemma AcquireIff(ops: seq<Op>, k: nat, job: string)
    requires k < |ops| && ops[k].AcquireOp? && ops[k].job == job
    ensures var q := Run(ops[..k]);
            Answer(ops, k).Ok?
            <==> ops[k].enabled && job in q.jobs && q.jobs[job].state in {"queued", "failed", "running"}
                 && Acquisitions(ops[..k], job) < 3 && q.jobs[job].lease <= ops[k].tested
    ensures var q := Run(ops[..k]);
            if Answer(ops, k).Err? then Run(ops[..k + 1]) == q
            else
              var n, row := Acquisitions(ops[..k], job) + 1, q.jobs[job];
              Answer(ops, k) == Ok(n)
              && Run(ops[..k + 1])
              == q.(jobs := q.jobs[job := Job(row.brief, "running", n, ops[k].granted + ops[k].seconds as real,
                                              n, row.outcome, None)])
  {
    hide Run, DayCents, TextCalls, Acquisitions;
    FenceCounts(ops[..k], job);
    ReachableOk(ops[..k]);
    RunSnoc(ops, k);
  }

  /** A fence is usable exactly when generation is enabled, it is the number of acquisitions so far
      and its lease has not run out. Finishing stores what it is given and ends the lease. */
  lemma FinishIff(ops: seq<Op>, k: nat, job: string)
    requires k < |ops| && ops[k].FinishOp? && ops[k].job == job
    ensures var q := Run(ops[..k]);
            Answer(ops, k).Ok?
            <==> ops[k].enabled && job in q.jobs && ops[k].fence == Acquisitions(ops[..k], job)
                 && ops[k].now < q.jobs[job].lease
    ensures var q := Run(ops[..k]);
            if Answer(ops, k).Err? then Run(ops[..k + 1]) == q
            else
              var row := q.jobs[job];
              Run(ops[..k + 1])
              == q.(jobs := q.jobs[job := Job(row.brief, ops[k].state, row.fence, 0.0, row.attempts,
                                              ops[k].outcome, ops[k].error)])
  {
    hide Run, DayCents, TextCalls, Acquisitions;
    FenceCounts(ops[..k], job);
    RunSnoc(ops, k);
  }

  /** A reservation is granted exactly when generation is enabled, it is a free text call or an image
      for no negative price, its fence is usable, and with it the day stays within 500 cents and 40
      text calls. */
  lemma ReserveIff(ops: seq<Op>, k: nat, job: string)
    requires k < |ops| && ops[k].ReserveOp? && ops[k].job == job
    ensures var q, op, before := Run(ops[..k]), ops[k], Granted(ops[..k]);
            Answer(ops, k).Ok?
            <==> op.enabled && op.stillEnabled
                 && ((op.kind == "text" && op.cents == 0 && TextCalls(before, op.day) < 40)
                     || (op.kind == "image" && op.cents >= 0))
                 && job in q.jobs && op.fence == Acquisitions(ops[..k], job) && op.now < q.jobs[job].lease
                 && DayCents(before, op.day) + op.cents <= 500
    ensures Run(ops[..k + 1]).jobs == Run(ops[..k]).jobs
  {
    hide Run, DayCents, TextCalls, Acquisitions, Granted;
    FenceCounts(ops[..k], job);
    TableIsGranted(ops[..k]);
    RunSnoc(ops, k);
  }

  /** The first brief given for a job. */
  ghost function FirstBrief(ops: seq<Op>, job: string): Option<string> {
    if ops == [] then None
    else
      var before, op := FirstBrief(ops[..|ops| - 1], job), ops[|ops| - 1];
      if before.None? && op.EnqueueOp? && op.job == job then Some(op.brief) else before
  }

  lemma StepKeepsBrief(q: Queue, op: Op, job: string)
    ensures var q' := Step(q, op).0;
            if job in q.jobs then job in q'.jobs && q'.jobs[job].brief == q.jobs[job].brief
            else if op.EnqueueOp? && op.job == job
            then job in q'.jobs && q'.jobs[job] == Job(op.brief, "queued", 0, 0.0, 0, None, None)
            else job !in q'.jobs
  {
    hide DayCents, TextCalls;
  }

  /** A job exists from its first enqueueing on and keeps that brief. */
  lemma {:induction false} BriefIsFirst(ops: seq<Op>, job: string)
    ensures job in Run(ops).jobs <==> FirstBrief(ops, job).Some?
    ensures job in Run(ops).jobs ==> FirstBrief(ops, job) == Some(Run(ops).jobs[job].brief)
  {
    hide Step;
    if ops != [] {
      BriefIsFirst(ops[..|ops| - 1], job);
      StepKeepsBrief(Run(ops[..|ops| - 1]), ops[|ops| - 1], job);
    }
  }

  /** Enqueueing is refused exactly when the job was first given another brief. */
  lemma EnqueueIff(ops: seq<Op>, k: nat, job: string)
    requires k < |ops| && ops[k].EnqueueOp? && ops[k].job == job
    ensures Answer(ops, k).Ok? <==> FirstBrief(ops[..k + 1], job) == Some(ops[k].brief)
  {
    hide Run, FirstBrief;
    BriefIsFirst(ops[..k], job);
    BriefIsFirst(ops[..k + 1], job);
    RunSnoc(ops, k);
    StepKeepsBrief(Run(ops[..k]), ops[k], job);
  }

  /** A requeued job is runnable again if it was in review, and otherwise stays as it is. */
  lemma RequeueStores(ops: seq<Op>, k: nat, job: string)
    requires k < |ops| && ops[k] == RequeueOp(job)
    ensures var q, q' := Run(ops[..k]), Run(ops[..k + 1]);
            if job in q.jobs && q.jobs[job].state == "review"
            then q' == q.(jobs := q.jobs[job := q.jobs[job].(state := "queued")])
            else q' == q
  {
    hide Run;
    RunSnoc(ops, k);
  }

  // ----- A job whose worker died -----

  lemma OnlyHolderMovesRow(q: Queue, op: Op, job: string)
    requires job in q.jobs && q.jobs[job].state == "running"
    requires job !in Step(q, op).0.jobs || Step(q, op).0.jobs[job] != q.jobs[job]
    ensures op.job == job && Step(q, op).1.Ok? && (op.AcquireOp? || op.FinishOp?)
  {
    hide DayCents, TextCalls;
  }

  lemma RowMoved(ops: seq<Op>, m: nat, job: string)
    requires m < |ops| && job in Run(ops[..m]).jobs && Run(ops[..m]).jobs[job].state == "running"
    requires job !in Run(ops[..m + 1]).jobs || Run(ops[..m + 1]).jobs[job] != Run(ops[..m]).jobs[job]
    ensures !Untouched(ops, m, job)
  {
    hide Run, Step;
    RunSnoc(ops, m);
    OnlyHolderMovesRow(Run(ops[..m]), ops[m], job);
    if ops[m].AcquireOp? {
      assert AcquiredAt(ops, m, job, Answer(ops, m).value);
    } else {
      assert FinishedAt(ops, m, job, ops[m].fence);
    }
  }

  lemma {:induction false} RunningRowStands(ops: seq<Op>, i: nat, n: nat, job: string)
    requires i <= n <= |ops| && job in Run(ops[..i]).jobs && Run(ops[..i]).jobs[job].state == "running"
    requires forall m: nat :: i <= m < n ==> Untouched(ops, m, job)
    ensures job in Run(ops[..n]).jobs && Run(ops[..n]).jobs[job] == Run(ops[..i]).jobs[job]
    decreases n - i
  {
    hide Run, Untouched;
    if i < n {
      RunningRowStands(ops, i, n - 1, job);
      if job !in Run(ops[..n]).jobs || Run(ops[..n]).jobs[job] != Run(ops[..n - 1]).jobs[job] {
        RowMoved(ops, n - 1, job);
      }
    }
  }

  /** A job whose holder neither finished nor was replaced is acquired again exactly when generation
      is enabled, the granted time has run out and it was not the third acquisition. */
  lemma AbandonedJobIff(ops: seq<Op>, i: nat, j: nat, job: string, f: int)
    requires i < j < |ops| && AcquiredAt(ops, i, job, f) && ops[j].AcquireOp? && ops[j].job == job
    requires forall m: nat :: i < m < j ==> Untouched(ops, m, job)
    ensures Answer(ops, j).Ok?
       <==> ops[j].enabled && f < 3 && ops[i].granted + ops[i].seconds as real <= ops[j].tested
  {
    hide Run, Untouched, Step, Acquisitions;
    AcquireIff(ops, i, job);
    RunningRowStands(ops, i + 1, j, job);
    AcquireIff(ops, j, job);
    FenceCounts(ops[..j], job);
  }
}
