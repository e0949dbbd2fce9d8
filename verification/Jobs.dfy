/**
 The generation job queue of ops/generation_worker.py: leases, fences and daily reservations.

 Every transaction runs under one advisory lock and is one step. Clock readings, the date and the
 pause switch are arguments, so a run is any interleaving of any number of workers.
 */
module Jobs {
  import opened Bytes

  /** Unix time, which is not negative. */
  type Instant = t: real | 0.0 <= t

  const QUEUED := "queued"
  const RUNNING := "running"
  const FAILED := "failed"
  const REVIEW := "review"
  const TEXT := "text"
  const IMAGE := "image"
  const MAX_ATTEMPTS := 3
  const DAILY_CENTS := 500
  const DAILY_TEXT_CALLS := 40

  datatype Job = Job(
    brief: string, state: string, fence: int, lease: real, attempts: int,
    outcome: Option<string>, error: Option<string>)

  datatype Reservation = Reservation(day: string, job: string, kind: string, cents: int)

  datatype Queue = Queue(jobs: map<string, Job>, reservations: seq<Reservation>)

  datatype Refusal =
    | Disabled | BriefBound | NotRunnable | AttemptLimit | Leased | StaleLease | InvalidReservation | BudgetExhausted

  const EMPTY := Queue(map[], [])

  // ----- The transactions -----

  function Enqueue(q: Queue, job: string, brief: string): (Queue, Result<(), Refusal>) {
    if job !in q.jobs then
      (q.(jobs := q.jobs[job := Job(brief, QUEUED, 0, 0.0, 0, None, None)]), Ok(()))
    else if q.jobs[job].brief != brief then (q, Err(BriefBound))
    else (q, Ok(()))
  }

  /** `tested` is the clock when the old lease is tested, `granted` when the new one is written. The
      answer is the fence and the brief. */
  function Acquire(q: Queue, job: string, seconds: int, enabled: bool, tested: Instant, granted: Instant)
    : (Queue, Result<(int, string), Refusal>)
  {
    if !enabled then (q, Err(Disabled))
    else if job !in q.jobs || q.jobs[job].state !in [QUEUED, FAILED, RUNNING] then (q, Err(NotRunnable))
    else
      var row := q.jobs[job];
      if row.attempts >= MAX_ATTEMPTS then (q, Err(AttemptLimit))
      else if row.lease > tested then (q, Err(Leased))
      else
        var held := row.(state := RUNNING, fence := row.fence + 1, lease := granted + seconds as real,
                         error := None, attempts := row.attempts + 1);
        (q.(jobs := q.jobs[job := held]), Ok((held.fence, row.brief)))
  }

  function Guard(q: Queue, job: string, fence: int, enabled: bool, now: Instant): Result<(), Refusal> {
    if !enabled then Err(Disabled)
    else if job !in q.jobs || q.jobs[job].fence != fence || q.jobs[job].lease <= now then Err(StaleLease)
    else Ok(())
  }

  function DayCents(rows: seq<Reservation>, day: string): int {
    if rows == [] then 0
    else
      var last := rows[|rows| - 1];
      DayCents(rows[..|rows| - 1], day) + if last.day == day then last.cents else 0
  }

  function TextCalls(rows: seq<Reservation>, day: string): nat {
    if rows == [] then 0
    else
      var last := rows[|rows| - 1];
      TextCalls(rows[..|rows| - 1], day) + if last.day == day && last.kind == TEXT then 1 else 0
  }

  /** The pause switch is read once before the transaction and once inside it. */
  function Reserve(
    q: Queue, job: string, fence: int, kind: string, cents: int,
    enabled: bool, stillEnabled: bool, now: Instant, day: string): (Queue, Result<(), Refusal>)
  {
    if !enabled then (q, Err(Disabled))
    else if kind !in [TEXT, IMAGE] || cents < 0 || (kind == TEXT && cents != 0) then (q, Err(InvalidReservation))
    else
      var guarded := Guard(q, job, fence, stillEnabled, now);
      if guarded.Err? then (q, guarded)
      else if DayCents(q.reservations, day) + cents > DAILY_CENTS
              || (kind == TEXT && TextCalls(q.reservations, day) >= DAILY_TEXT_CALLS) then
        (q, Err(BudgetExhausted))
      else (q.(reservations := q.reservations + [Reservation(day, job, kind, cents)]), Ok(()))
  }

  function Finish(
    q: Queue, job: string, fence: int, state: string, outcome: Option<string>, error: Option<string>,
    enabled: bool, now: Instant): (Queue, Result<(), Refusal>)
  {
    var guarded := Guard(q, job, fence, enabled, now);
    if guarded.Err? then (q, guarded)
    else
      var done := q.jobs[job].(state := state, outcome := outcome, error := error, lease := 0.0);
      (q.(jobs := q.jobs[job := done]), Ok(()))
  }

  /** The second step of an image job: whatever was read before, only a reviewed job is requeued. */
  function Requeue(q: Queue, job: string): Queue {
    if job in q.jobs && q.jobs[job].state == REVIEW then
      q.(jobs := q.jobs[job := q.jobs[job].(state := QUEUED)])
    else q
  }

  /** The two tables as the worker updates them. */
  class Worker {
    var jobs: map<string, Job>
    var reservations: seq<Reservation>

    ghost function Snapshot(): Queue
      reads this
    {
      Queue(jobs, reservations)
    }

    constructor ()
      ensures Snapshot() == EMPTY
    {
      jobs, reservations := map[], [];
    }

    method EnqueueJob(job: string, brief: string) returns (r: Result<(), Refusal>)
      modifies this`jobs
      ensures (Snapshot(), r) == Enqueue(old(Snapshot()), job, brief)
      ensures r.Ok? <==> job in jobs && jobs[job].brief == brief
      ensures job in old(jobs) ==> jobs == old(jobs)
    {
      if job in jobs && jobs[job].brief != brief {
        return Err(BriefBound);
      }
      if job !in jobs {
        jobs := jobs[job := Job(brief, QUEUED, 0, 0.0, 0, None, None)];
      }
      r := Ok(());
    }

    method AcquireLease(job: string, seconds: int, enabled: bool, tested: Instant, granted: Instant)
      returns (r: Result<(int, string), Refusal>)
      modifies this`jobs
      ensures (Snapshot(), r) == Acquire(old(Snapshot()), job, seconds, enabled, tested, granted)
      ensures r.Err? ==> jobs == old(jobs)
      ensures r.Ok? ==> job in old(jobs) && r.value == (old(jobs)[job].fence + 1, old(jobs)[job].brief)
                        && jobs - {job} == old(jobs) - {job}
    {
      if !enabled {
        return Err(Disabled);
      }
      if job !in jobs || jobs[job].state !in [QUEUED, FAILED, RUNNING] {
        return Err(NotRunnable);
      }
      var row := jobs[job];
      if row.attempts >= MAX_ATTEMPTS {
        return Err(AttemptLimit);
      }
      if row.lease > tested {
        return Err(Leased);
      }
      var fence := row.fence + 1;
      jobs := jobs[job := row.(state := RUNNING, fence := fence, lease := granted + seconds as real,
                               error := None, attempts := row.attempts + 1)];
      r := Ok((fence, row.brief));
    }

    method ReserveCents(
      job: string, fence: int, kind: string, cents: int,
      enabled: bool, stillEnabled: bool, now: Instant, day: string) returns (r: Result<(), Refusal>)
      modifies this`reservations
      ensures (Snapshot(), r)
           == Reserve(old(Snapshot()), job, fence, kind, cents, enabled, stillEnabled, now, day)
      ensures reservations == old(reservations) + if r.Ok? then [Reservation(day, job, kind, cents)] else []
    {
      hide DayCents, TextCalls;
      if !enabled {
        return Err(Disabled);
      }
      if kind !in [TEXT, IMAGE] || cents < 0 || (kind == TEXT && cents != 0) {
        return Err(InvalidReservation);
      }
      r := CheckLease(job, fence, stillEnabled, now);
      if r.Err? {
        return;
      }
      if DayCents(reservations, day) + cents > DAILY_CENTS
         || (kind == TEXT && TextCalls(reservations, day) >= DAILY_TEXT_CALLS) {
        return Err(BudgetExhausted);
      }
      reservations := reservations + [Reservation(day, job, kind, cents)];
    }

    method CheckLease(job: string, fence: int, enabled: bool, now: Instant) returns (r: Result<(), Refusal>)
      ensures r == Guard(Snapshot(), job, fence, enabled, now)
      ensures r.Ok? <==> enabled && job in jobs && jobs[job].fence == fence && now < jobs[job].lease
    {
      if !enabled {
        return Err(Disabled);
      }
      if job !in jobs || jobs[job].fence != fence || jobs[job].lease <= now {
        return Err(StaleLease);
      }
      r := Ok(());
    }

    method FinishJob(
      job: string, fence: int, state: string, outcome: Option<string>, error: Option<string>,
      enabled: bool, now: Instant) returns (r: Result<(), Refusal>)
      modifies this`jobs
      ensures (Snapshot(), r) == Finish(old(Snapshot()), job, fence, state, outcome, error, enabled, now)
      ensures r.Err? ==> jobs == old(jobs)
      ensures r.Ok? ==> job in jobs && jobs[job].lease == 0.0 && jobs - {job} == old(jobs) - {job}
    {
      r := CheckLease(job, fence, enabled, now);
      if r.Ok? && job in jobs {
        jobs := jobs[job := jobs[job].(state := state, outcome := outcome, error := error, lease := 0.0)];
      }
    }

    method RequeueReviewed(job: string)
      modifies this`jobs
      ensures Snapshot() == Requeue(old(Snapshot()), job)
      ensures jobs.Keys == old(jobs).Keys && jobs - {job} == old(jobs) - {job}
    {
      if job in jobs && jobs[job].state == REVIEW {
        jobs := jobs[job := jobs[job].(state := QUEUED)];
      }
    }
  }
}
