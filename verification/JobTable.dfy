/** The background_jobs table (backend/app/repositories/jobs.py): what each SQL
    statement does to the rows, and the table as an object the statements update. */
module JobTable {
  import opened Wrappers

  datatype JobId = JobId(uuid: int)

  datatype Status = Pending | Running | Done | Failed

  datatype Job = Job(
    jobType: string,
    payload: string,
    dedupeKey: Option<string>,
    status: Status,
    runAfter: int,
    attempts: nat,
    maxAttempts: int,
    lockedBy: Option<string>,
    lockedAt: Option<int>,
    lastError: Option<string>,
    updatedAt: int)

  type Table = map<JobId, Job>

  datatype ClaimedJob = ClaimedJob(id: JobId, jobType: string, payload: string, attempts: nat, maxAttempts: int)

  const BACKOFF_BASE_SECONDS := 30
  const BACKOFF_MAX_SECONDS := 3600

  predicate Active(j: Job) {
    j.status == Pending || j.status == Running
  }

  /** The partial unique index uq_background_jobs_dedupe. */
  predicate UniqueActiveKeys(t: Table) {
    forall i, j | i in t && j in t && i != j && Active(t[i]) && Active(t[j]) && t[i].dedupeKey.Some? ::
      t[i].dedupeKey != t[j].dedupeKey
  }

  predicate KeyTaken(t: Table, key: Option<string>) {
    key.Some? && exists i | i in t :: Active(t[i]) && t[i].dedupeKey == key
  }

  function NewJob(now: int, jobType: string, payload: string, key: Option<string>, runAfter: Option<int>,
        maxAttempts: int): Job {
    Job(jobType, payload, key, Pending, if runAfter.Some? then runAfter.value else now,
        0, maxAttempts, None, None, None, now)
  }

  /** A row the claim's subquery can see: pending, due, and not row-locked by another transaction. */
  predicate Runnable(t: Table, locked: set<JobId>, now: int, id: JobId) {
    id in t && id !in locked && t[id].status == Pending && t[id].runAfter <= now
  }

  /** ORDER BY run_after ... SKIP LOCKED LIMIT 1; rows with equal run_after come in any order. */
  predicate IsNext(t: Table, locked: set<JobId>, now: int, id: JobId) {
    Runnable(t, locked, now, id) &&
    forall i | i in t :: Runnable(t, locked, now, i) ==> t[id].runAfter <= t[i].runAfter
  }

  function AfterClaim(t: Table, id: JobId, worker: string, now: int): Table
    requires id in t
  {
    t[id := t[id].(status := Running, lockedBy := Some(worker), lockedAt := Some(now),
                   attempts := t[id].attempts + 1, updatedAt := now)]
  }

  function Snapshot(t: Table, id: JobId): ClaimedJob
    requires id in t
  {
    ClaimedJob(id, t[id].jobType, t[id].payload, t[id].attempts, t[id].maxAttempts)
  }

  function AfterComplete(t: Table, id: JobId, now: int): Table {
    if id in t then t[id := t[id].(status := Done, lastError := None, updatedAt := now)] else t
  }

  function Pow2(n: nat): nat {
    if n == 0 then 1 else 2 * Pow2(n - 1)
  }

  function Backoff(attempts: nat): nat
    requires attempts >= 1
  {
    var b := BACKOFF_BASE_SECONDS * Pow2(attempts - 1);
    if b <= BACKOFF_MAX_SECONDS then b else BACKOFF_MAX_SECONDS
  }

  function Shorten(error: string): string {
    if |error| <= 2000 then error else error[..2000]
  }

  /** Park as failed, or back to pending with a delay: decided on the snapshot, applied by id alone. */
  function AfterFail(t: Table, job: ClaimedJob, error: string, now: int): Table
    requires job.attempts >= 1
  {
    if job.id !in t then t
    else if job.attempts >= job.maxAttempts then
      t[job.id := t[job.id].(status := Failed, lastError := Some(Shorten(error)), updatedAt := now)]
    else
      t[job.id := t[job.id].(status := Pending, lastError := Some(Shorten(error)), lockedBy := None, lockedAt := None,
                             runAfter := now + Backoff(job.attempts), updatedAt := now)]
  }

  predicate Stalled(j: Job, stale: int, now: int) {
    j.status == Running && j.lockedAt.Some? && j.lockedAt.value < now - stale
  }

  function AfterReclaim(t: Table, stale: int, now: int): Table {
    map i | i in t ::
      if Stalled(t[i], stale, now) then t[i].(status := Pending, lockedBy := None, lockedAt := None, updatedAt := now)
      else t[i]
  }

  predicate Expired(j: Job, maxAge: int, now: int) {
    (j.status == Done || j.status == Failed) && j.updatedAt < now - maxAge
  }

  function AfterPrune(t: Table, maxAge: int, now: int): Table {
    map i | i in t && !Expired(t[i], maxAge, now) :: t[i]
  }

  ghost predicate Earliest(t: Table, candidates: set<JobId>, id: JobId)
    requires candidates <= t.Keys
  {
    id in candidates && forall i | i in candidates :: t[id].runAfter <= t[i].runAfter
  }

  /** Some candidate row has the least run_after. */
  lemma {:induction false} EarliestExists(t: Table, candidates: set<JobId>) returns (id: JobId)
    requires candidates <= t.Keys && candidates != {}
    ensures Earliest(t, candidates, id)
    decreases candidates
  {
    var first :| first in candidates;
    var rest := candidates - {first};
    assert forall i | i in candidates :: i == first || i in rest;
    id := first;
    if rest != {} {
      var m := EarliestExists(t, rest);
      if t[m].runAfter < t[first].runAfter {
        id := m;
      }
    }
  }

  class JobTable {
    var rows: Table

    ghost predicate Valid()
      reads this
    {
      UniqueActiveKeys(rows)
    }

    constructor ()
      ensures Valid() && rows == map[]
    {
      rows := map[];
    }

    /** `id` is the uuid4 drawn for the new row. */
    method EnqueueJob(now: int, id: JobId, jobType: string, payload: string, dedupeKey: Option<string>,
          runAfter: Option<int>, maxAttempts: int := 5)
      returns (inserted: bool)
      requires Valid() && id !in rows
      modifies this
      ensures Valid()
      ensures inserted <==> !KeyTaken(old(rows), dedupeKey)
      ensures rows ==
                if inserted then old(rows)[id := NewJob(now, jobType, payload, dedupeKey, runAfter, maxAttempts)]
                else old(rows)
    {
      inserted := !KeyTaken(rows, dedupeKey);
      if inserted {
        rows := rows[id := NewJob(now, jobType, payload, dedupeKey, runAfter, maxAttempts)];
      }
    }

    method ClaimOneJob(now: int, worker: string, locked: set<JobId>) returns (claimed: Option<ClaimedJob>)
      requires Valid()
      modifies this
      ensures Valid()
      ensures claimed.None? ==> rows == old(rows) && forall i | i in rows :: !Runnable(rows, locked, now, i)
      ensures claimed.Some? ==>
                && IsNext(old(rows), locked, now, claimed.value.id)
                && rows == AfterClaim(old(rows), claimed.value.id, worker, now)
                && claimed.value == Snapshot(rows, claimed.value.id)
    {
      var candidates := set i | i in rows && Runnable(rows, locked, now, i);
      if candidates == {} {
        assert forall i | i in rows :: Runnable(rows, locked, now, i) ==> i in candidates;
        return None;
      }
      ghost var e := EarliestExists(rows, candidates);
      var id :| id in candidates && forall i | i in candidates :: rows[id].runAfter <= rows[i].runAfter;
      assert forall i | i in rows :: Runnable(rows, locked, now, i) ==> i in candidates;
      rows := AfterClaim(rows, id, worker, now);
      claimed := Some(Snapshot(rows, id));
    }

    method CompleteJob(now: int, id: JobId)
      requires Valid()
      modifies this
      ensures Valid() && rows == AfterComplete(old(rows), id, now)
    {
      rows := AfterComplete(rows, id, now);
    }

    /** False is the IntegrityError the unique index raises when a row no longer held becomes pending again. */
    method FailJob(now: int, job: ClaimedJob, error: string) returns (ok: bool)
      requires Valid() && job.attempts >= 1
      modifies this
      ensures Valid()
      ensures ok <==> UniqueActiveKeys(AfterFail(old(rows), job, error, now))
      ensures rows == if ok then AfterFail(old(rows), job, error, now) else old(rows)
    {
      var next := AfterFail(rows, job, error, now);
      ok := UniqueActiveKeys(next);
      if ok {
        rows := next;
      }
    }

    method ReclaimStalledJobs(now: int, stale: int) returns (count: nat)
      requires Valid()
      modifies this
      ensures Valid() && rows == AfterReclaim(old(rows), stale, now)
      ensures count == |set i | i in old(rows) && old(rows)[i] != rows[i]|
    {
      var stalled := set i | i in rows && Stalled(rows[i], stale, now);
      ghost var before := rows;
      rows := AfterReclaim(rows, stale, now);
      assert stalled == set i | i in before && before[i] != rows[i];
      count := |stalled|;
    }

    method PruneFinishedJobs(now: int, maxAge: int) returns (count: nat)
      requires Valid()
      modifies this
      ensures Valid() && rows == AfterPrune(old(rows), maxAge, now)
      ensures count == |old(rows)| - |rows|
    {
      var expired := set i | i in rows && Expired(rows[i], maxAge, now);
      ghost var before := rows;
      rows := AfterPrune(rows, maxAge, now);
      assert rows.Keys == before.Keys - expired;
      assert |before.Keys - expired| == |before.Keys| - |expired|;
      count := |expired|;
    }
  }
}
