/** The work queue as a protocol: any number of consumers, leaders and API processes taking
    atomic steps on one table (backend/app/services/jobs/queue.py, backend/app/workers/scheduler.py). */
module JobProtocol {
  import opened Wrappers
  import opened JobTable

  /** One consumer loop. Loops of one process share a worker id, so locked_by does not name the holder. */
  datatype Consumer = Consumer(n: nat)

  datatype Holding = Holding(job: ClaimedJob, claimedAt: int)

  /** How often a job was claimed and reclaimed, counted outside the table. */
  datatype Tally = Tally(claims: nat, reclaims: nat)

  /** `tally` has every job ever inserted; `gone` keeps the last row of each pruned one. */
  datatype State = State(
    now: int,
    rows: Table,
    holders: map<Consumer, Holding>,
    tally: map<JobId, Tally>,
    gone: Table)

  datatype Step =
    | Tick(seconds: nat)
    | Enqueue(id: JobId, jobType: string, payload: string, key: Option<string>, runAfter: Option<int>, maxAttempts: int)
    | Claim(consumer: Consumer, worker: string, locked: set<JobId>, id: JobId)
    | Complete(consumer: Consumer)
    | Fail(consumer: Consumer, error: string)
    | Crash(consumer: Consumer)
    | Reclaim
    | Prune(maxAge: int)

  const START := State(0, map[], map[], map[], map[])

  ghost predicate Enabled(s: State, step: Step) {
    match step
    case Tick(_) => true
    case Enqueue(id, _, _, _, _, _) => id !in s.tally  // a uuid4 is never drawn twice
    case Claim(c, _, locked, id) => c !in s.holders && IsNext(s.rows, locked, s.now, id)
    case Complete(c) => c in s.holders
    case Fail(c, _) => c in s.holders && s.holders[c].job.attempts >= 1
    case Crash(c) => c in s.holders
    case Reclaim => true
    case Prune(_) => true
  }

  /** What the step's statement does to the table if the unique index lets it. */
  ghost function Effect(s: State, step: Step, stale: int): Table
    requires Enabled(s, step)
  {
    match step
    case Enqueue(id, jobType, payload, key, runAfter, max) =>
      if KeyTaken(s.rows, key) then s.rows else s.rows[id := NewJob(s.now, jobType, payload, key, runAfter, max)]
    case Claim(_, worker, _, id) => AfterClaim(s.rows, id, worker, s.now)
    case Complete(c) => AfterComplete(s.rows, s.holders[c].job.id, s.now)
    case Fail(c, error) => AfterFail(s.rows, s.holders[c].job, error, s.now)
    case Reclaim => AfterReclaim(s.rows, stale, s.now)
    case Prune(maxAge) => AfterPrune(s.rows, maxAge, s.now)
    case Tick(_) => s.rows
    case Crash(_) => s.rows
  }

  ghost function Holders(s: State, step: Step, rows: Table): map<Consumer, Holding>
    requires Enabled(s, step)
  {
    match step
    case Claim(c, _, _, id) =>
      if id in rows then s.holders[c := Holding(Snapshot(rows, id), s.now)] else s.holders
    case Complete(c) => s.holders - {c}
    case Fail(c, _) => s.holders - {c}
    case Crash(c) => s.holders - {c}
    case _ => s.holders
  }

  ghost function Tallies(s: State, step: Step, rows: Table, stale: int): map<JobId, Tally> {
    match step
    case Enqueue(id, _, _, _, _, _) => if id in rows then s.tally[id := Tally(0, 0)] else s.tally
    case Claim(_, _, _, id) =>
      if id in s.tally then s.tally[id := s.tally[id].(claims := s.tally[id].claims + 1)] else s.tally
    case Reclaim =>
      map i | i in s.tally ::
        if i in s.rows && Stalled(s.rows[i], stale, s.now)
        then s.tally[i].(reclaims := s.tally[i].reclaims + 1) else s.tally[i]
    case _ => s.tally
  }

  /** The next state; a statement that would break the index is refused and changes no row. */
  ghost function Apply(s: State, step: Step, stale: int): State
    requires Enabled(s, step)
  {
    var effect := Effect(s, step, stale);
    var rows := if UniqueActiveKeys(effect) then effect else s.rows;
    State(
      if step.Tick? then s.now + step.seconds else s.now,
      rows,
      Holders(s, step, rows),
      Tallies(s, step, rows, stale),
      s.gone + (s.rows - rows.Keys))
  }

  /** The timing assumption on worker_job_stale_seconds: no handler has gone on for too long. */
  ghost predicate Lease(s: State, stale: int) {
    forall c | c in s.holders :: s.now <= s.holders[c].claimedAt + stale
  }

  ghost predicate IsRun(s: State, steps: seq<Step>, stale: int)
    decreases |steps|
  {
    steps == [] || (Enabled(s, steps[0]) && IsRun(Apply(s, steps[0], stale), steps[1..], stale))
  }

  ghost function After(s: State, steps: seq<Step>, stale: int): State
    requires IsRun(s, steps, stale)
    decreases |steps|
  {
    if steps == [] then s else After(Apply(s, steps[0], stale), steps[1..], stale)
  }

  /** A reclaim comes while every holder is within its lease; of the other steps nothing is asked. */
  ghost predicate InTime(s: State, step: Step, stale: int) {
    step.Reclaim? ==> Lease(s, stale)
  }

  ghost predicate ReclaimsInTime(s: State, steps: seq<Step>, stale: int)
    requires IsRun(s, steps, stale)
    decreases |steps|
  {
    steps == [] || (InTime(s, steps[0], stale) && ReclaimsInTime(Apply(s, steps[0], stale), steps[1..], stale))
  }

  // ----- the invariant

  /** The row is still the one its holder locked, with the work and the attempts the holder was handed. */
  ghost predicate Owns(h: Holding, rows: Table) {
    && h.job.id in rows
    && rows[h.job.id].status == Running
    && rows[h.job.id].lockedAt == Some(h.claimedAt)
    && rows[h.job.id].attempts == h.job.attempts >= 1
    && rows[h.job.id].maxAttempts == h.job.maxAttempts
    && rows[h.job.id].jobType == h.job.jobType && rows[h.job.id].payload == h.job.payload
  }

  /** Every consumer owns the row it works on, and no two work on the same one. */
  ghost predicate Owned(holders: map<Consumer, Holding>, rows: Table) {
    && (forall c | c in holders :: Owns(holders[c], rows))
    && (forall c, d | c in holders && d in holders && c != d :: holders[c].job.id != holders[d].job.id)
  }

  /** At least one attempt is always made, whatever max_attempts says. */
  function Cap(j: Job): nat {
    if j.maxAttempts < 1 then 1 else j.maxAttempts
  }

  ghost predicate Accounted(j: Job, t: Tally, now: int) {
    && j.attempts == t.claims
    && match j.status
       case Pending => j.attempts < Cap(j) + t.reclaims && j.lockedAt.None? && j.lockedBy.None?
       case Running =>
         1 <= j.attempts <= Cap(j) + t.reclaims && j.lockedAt.Some? && j.runAfter <= j.lockedAt.value <= now
       case Done => 1 <= j.attempts <= Cap(j) + t.reclaims
       case Failed => Cap(j) <= j.attempts <= Cap(j) + t.reclaims
  }

  ghost predicate Accounts(rows: Table, tally: map<JobId, Tally>, gone: Table, now: int) {
    && tally.Keys == rows.Keys + gone.Keys
    && rows.Keys !! gone.Keys
    && (forall i | i in rows :: Accounted(rows[i], tally[i], now))
    && (forall i | i in gone :: Accounted(gone[i], tally[i], now) && !Active(gone[i]))
  }

  ghost predicate Inv(s: State) {
    Owned(s.holders, s.rows) && UniqueActiveKeys(s.rows) && Accounts(s.rows, s.tally, s.gone, s.now)
  }

  ghost predicate InvThroughout(s: State, steps: seq<Step>, stale: int)
    requires IsRun(s, steps, stale)
    decreases |steps|
  {
    Inv(s) && (steps == [] || InvThroughout(Apply(s, steps[0], stale), steps[1..], stale))
  }

  // ----- every step keeps it

  lemma IndexFrame(rows: Table, after: Table)
    requires UniqueActiveKeys(rows)
    requires forall i | i in after && Active(after[i]) ::
               i in rows && Active(rows[i]) && rows[i].dedupeKey == after[i].dedupeKey
    ensures UniqueActiveKeys(after)
  {
  }

  lemma IndexInsert(rows: Table, id: JobId, job: Job)
    requires UniqueActiveKeys(rows) && id !in rows && !KeyTaken(rows, job.dedupeKey)
    ensures UniqueActiveKeys(rows[id := job])
  {
  }

  /** No statement of the protocol is ever refused by the unique index. */
  lemma NoStatementRefused(s: State, step: Step, stale: int)
    requires Owned(s.holders, s.rows) && UniqueActiveKeys(s.rows) && Enabled(s, step)
    requires step.Enqueue? ==> step.id !in s.rows
    ensures UniqueActiveKeys(Effect(s, step, stale))
  {
    if step.Enqueue? {
      if !KeyTaken(s.rows, step.key) {
        IndexInsert(s.rows, step.id,
            NewJob(s.now, step.jobType, step.payload, step.key, step.runAfter, step.maxAttempts));
      }
    } else {
      if step.Fail? {
        assert Owns(s.holders[step.consumer], s.rows);
      }
      IndexFrame(s.rows, Effect(s, step, stale));
    }
  }

  /** A claimed row was pending and every held row is running, so a claim takes nobody's row. */
  lemma ClaimOwned(holders: map<Consumer, Holding>, rows: Table, c: Consumer, worker: string, id: JobId, now: int)
    requires Owned(holders, rows) && c !in holders
    requires id in rows && rows[id].status == Pending
    ensures var after := AfterClaim(rows, id, worker, now);
            Owned(holders[c := Holding(Snapshot(after, id), now)], after)
  {
    var after := AfterClaim(rows, id, worker, now);
    forall d | d in holders
      ensures Owns(holders[d], after) && holders[d].job.id != id
    {
      assert Owns(holders[d], rows);
    }
  }

  lemma FinishOwned(holders: map<Consumer, Holding>, rows: Table, after: Table, c: Consumer)
    requires Owned(holders, rows) && c in holders
    requires forall i | i in rows && i != holders[c].job.id :: i in after && after[i] == rows[i]
    ensures Owned(holders - {c}, after)
  {
    forall d | d in holders - {c}
      ensures Owns((holders - {c})[d], after)
    {
      assert Owns(holders[d], rows);
    }
  }

  /** A statement that leaves running rows of live holders alone. */
  lemma FrameOwned(holders: map<Consumer, Holding>, rows: Table, after: Table)
    requires Owned(holders, rows)
    requires forall c | c in holders ::
               holders[c].job.id in rows ==>
                   holders[c].job.id in after && after[holders[c].job.id] == rows[holders[c].job.id]
    ensures Owned(holders, after)
  {
    forall c | c in holders
      ensures Owns(holders[c], after)
    {
      assert Owns(holders[c], rows);
    }
  }

  lemma StepKeepsOwned(s: State, step: Step, stale: int)
    requires Owned(s.holders, s.rows) && InTime(s, step, stale) && Enabled(s, step)
    requires step.Enqueue? ==> step.id !in s.rows
    ensures Owned(Holders(s, step, Effect(s, step, stale)), Effect(s, step, stale))
  {
    var after := Effect(s, step, stale);
    match step
    case Claim(c, worker, _, id) => ClaimOwned(s.holders, s.rows, c, worker, id, s.now);
    case Complete(c) => FinishOwned(s.holders, s.rows, after, c);
    case Fail(c, _) => FinishOwned(s.holders, s.rows, after, c);
    case Crash(c) => FinishOwned(s.holders, s.rows, after, c);
    case _ =>
      forall c | c in s.holders
        ensures s.holders[c].job.id in after && after[s.holders[c].job.id] == s.rows[s.holders[c].job.id]
      {
        assert Owns(s.holders[c], s.rows);
      }
      FrameOwned(s.holders, s.rows, after);
  }

  lemma RowAccounts(rows: Table, after: Table, tally: map<JobId, Tally>, after': map<JobId, Tally>, gone: Table,
        now: int, id: JobId)
    requires Accounts(rows, tally, gone, now)
    requires id !in gone && after.Keys == rows.Keys + {id} && after'.Keys == tally.Keys + {id}
    requires forall i | i in rows && i != id :: after[i] == rows[i]
    requires forall i | i in tally && i != id :: after'[i] == tally[i]
    requires Accounted(after[id], after'[id], now)
    ensures Accounts(after, after', gone, now)
  {
  }

  lemma ReclaimAccounts(s: State, stale: int)
    requires Accounts(s.rows, s.tally, s.gone, s.now)
    ensures Accounts(AfterReclaim(s.rows, stale, s.now), Tallies(s, Reclaim, AfterReclaim(s.rows, stale, s.now), stale),
                     s.gone, s.now)
  {
    forall i | i in s.rows
      ensures Accounted(AfterReclaim(s.rows, stale, s.now)[i], Tallies(s, Reclaim, s.rows, stale)[i], s.now)
    {
      assert Accounted(s.rows[i], s.tally[i], s.now);
    }
  }

  lemma PruneAccounts(rows: Table, tally: map<JobId, Tally>, gone: Table, maxAge: int, now: int)
    requires Accounts(rows, tally, gone, now)
    ensures var after := AfterPrune(rows, maxAge, now);
            Accounts(after, tally, gone + (rows - after.Keys), now)
  {
    var after := AfterPrune(rows, maxAge, now);
    assert (gone + (rows - after.Keys)).Keys == gone.Keys + (rows.Keys - after.Keys);
  }

  lemma FinishAccounts(s: State, c: Consumer, job: Job)
    requires Owned(s.holders, s.rows) && Accounts(s.rows, s.tally, s.gone, s.now) && c in s.holders
    requires var h := s.holders[c].job;
             && job.attempts == h.attempts && job.maxAttempts == h.maxAttempts
             && (job.status == Done || (job.status == Failed && h.attempts >= h.maxAttempts)
                 || (job.status == Pending && h.attempts < h.maxAttempts && job.lockedAt.None? && job.lockedBy.None?))
    ensures Accounts(s.rows[s.holders[c].job.id := job], s.tally, s.gone, s.now)
  {
    var id := s.holders[c].job.id;
    assert Owns(s.holders[c], s.rows);
    assert Accounted(s.rows[id], s.tally[id], s.now);
    RowAccounts(s.rows, s.rows[id := job], s.tally, s.tally, s.gone, s.now, id);
  }

  lemma FinishStepAccounts(s: State, step: Step, stale: int, c: Consumer)
    requires Owned(s.holders, s.rows) && Accounts(s.rows, s.tally, s.gone, s.now) && Enabled(s, step)
    requires (step.Complete? || step.Fail?) && step.consumer == c
    ensures var rows := Effect(s, step, stale);
            rows.Keys == s.rows.Keys && Accounts(rows, s.tally, s.gone, s.now)
  {
    assert Owns(s.holders[c], s.rows);
    var rows := Effect(s, step, stale);
    var id := s.holders[c].job.id;
    assert rows == s.rows[id := rows[id]];
    FinishAccounts(s, c, rows[id]);
  }

  lemma InsertAccounts(s: State, id: JobId, job: Job)
    requires Accounts(s.rows, s.tally, s.gone, s.now) && id !in s.tally
    requires job.status == Pending && job.attempts == 0 && job.lockedAt.None? && job.lockedBy.None?
    ensures Accounts(s.rows[id := job], s.tally[id := Tally(0, 0)], s.gone, s.now)
  {
    RowAccounts(s.rows, s.rows[id := job], s.tally, s.tally[id := Tally(0, 0)], s.gone, s.now, id);
  }

  lemma ClaimAccounts(s: State, id: JobId, worker: string)
    requires Accounts(s.rows, s.tally, s.gone, s.now) && id in s.rows && s.rows[id].status == Pending
               && s.rows[id].runAfter <= s.now
    ensures var t := s.tally[id];
            Accounts(AfterClaim(s.rows, id, worker, s.now), s.tally[id := t.(claims := t.claims + 1)], s.gone, s.now)
  {
    var t := s.tally[id];
    assert Accounted(s.rows[id], t, s.now);
    RowAccounts(s.rows, AfterClaim(s.rows, id, worker, s.now), s.tally, s.tally[id := t.(claims := t.claims + 1)],
        s.gone, s.now, id);
  }

  lemma NothingGone(rows: Table, after: Table, gone: Table)
    requires rows.Keys <= after.Keys
    ensures gone + (rows - after.Keys) == gone
  {
  }

  lemma StepKeepsAccounts(s: State, step: Step, stale: int)
    requires Owned(s.holders, s.rows) && Accounts(s.rows, s.tally, s.gone, s.now) && Enabled(s, step)
    ensures var rows := Effect(s, step, stale);
            Accounts(rows, Tallies(s, step, rows, stale), s.gone + (s.rows - rows.Keys),
                     if step.Tick? then s.now + step.seconds else s.now)
  {
    var rows := Effect(s, step, stale);
    if step.Prune? {
      PruneAccounts(s.rows, s.tally, s.gone, step.maxAge, s.now);
    } else {
      NothingGone(s.rows, rows, s.gone);
      match step
      case Enqueue(id, _, _, _, _, _) =>
        if id in rows {
          InsertAccounts(s, id, rows[id]);
        }
      case Claim(_, worker, _, id) => ClaimAccounts(s, id, worker);
      case Complete(c) => FinishStepAccounts(s, step, stale, c);
      case Fail(c, _) => FinishStepAccounts(s, step, stale, c);
      case Reclaim => ReclaimAccounts(s, stale);
      case _ =>
    }
  }

  /** Every step keeps the invariant, a reclaim exactly when no holder has overrun its lease. */
  lemma StepKeepsInv(s: State, step: Step, stale: int)
    requires Inv(s) && Enabled(s, step)
    ensures Inv(Apply(s, step, stale)) <==> InTime(s, step, stale)
  {
    NoStatementRefused(s, step, stale);
    if InTime(s, step, stale) {
      StepKeepsOwned(s, step, stale);
      StepKeepsAccounts(s, step, stale);
    } else {
      var c :| c in s.holders && s.now > s.holders[c].claimedAt + stale;
      ReclaimTakesOverrunOnly(s, c, stale);
    }
  }

  /** A reclaim takes a row from a consumer exactly when that consumer has overrun its lease. */
  lemma ReclaimTakesOverrunOnly(s: State, c: Consumer, stale: int)
    requires Inv(s) && c in s.holders
    ensures Owns(s.holders[c], AfterReclaim(s.rows, stale, s.now)) <==> s.now <= s.holders[c].claimedAt + stale
  {
    assert Owns(s.holders[c], s.rows);
  }

  /** The invariant holds in every state of a run exactly when every reclaim of the run is in time. */
  lemma {:induction false} LeaseSafety(s: State, steps: seq<Step>, stale: int)
    requires Inv(s) && IsRun(s, steps, stale)
    ensures InvThroughout(s, steps, stale) <==> ReclaimsInTime(s, steps, stale)
    ensures ReclaimsInTime(s, steps, stale) ==> Inv(After(s, steps, stale))
    decreases |steps|
  {
    if steps != [] {
      StepKeepsInv(s, steps[0], stale);
      if InTime(s, steps[0], stale) {
        LeaseSafety(Apply(s, steps[0], stale), steps[1..], stale);
      }
    }
  }

  // ----- what it means, over whole runs

  /** Attempts count the claims, and are bounded by the cap, which is at least one, and the reclaims.
      A job still pending has claims left, so one never reclaimed ends within its cap, and without
      reclaims a failed job was tried exactly as often as its cap says. */
  predicate WithinCap(j: Job, t: Tally) {
    var most := if j.maxAttempts < 1 then 1 else j.maxAttempts;
    && j.attempts == t.claims <= most + t.reclaims
    && (j.status == Pending ==> t.claims < most + t.reclaims)
    && (j.status == Failed && t.reclaims == 0 ==> t.claims == most)
  }

  lemma AccountedWithinCap(j: Job, t: Tally, now: int)
    requires Accounted(j, t, now)
    ensures WithinCap(j, t)
  {
  }

  /** The lease theorem, for any run from the empty table in which every reclaim is in time. */
  lemma QueueIsSafe(steps: seq<Step>, stale: int)
    requires IsRun(START, steps, stale) && ReclaimsInTime(START, steps, stale)
    ensures var s := After(START, steps, stale);
            // at-most-once at a time, and every later statement hits the row its consumer locked
            && (forall c, d | c in s.holders && d in s.holders && c != d :: s.holders[c].job.id != s.holders[d].job.id)
            && (forall c | c in s.holders ::
                  var h := s.holders[c];
                  && h.job.id in s.rows && s.rows[h.job.id].status == Running
                  && s.rows[h.job.id].attempts == h.job.attempts)
            // one active job per dedupe key
            && UniqueActiveKeys(s.rows)
            // no job is lost: it is in the table, or was done or failed when it was pruned
            && (forall i | i in s.tally && i !in s.rows ::
                i in s.gone && (s.gone[i].status == Done || s.gone[i].status == Failed))
            && s.rows.Keys <= s.tally.Keys
            // and attempts are bounded
            && (forall i | i in s.rows :: WithinCap(s.rows[i], s.tally[i]))
  {
    LeaseSafety(START, steps, stale);
    var s := After(START, steps, stale);
    forall i | i in s.rows
      ensures WithinCap(s.rows[i], s.tally[i])
    {
      AccountedWithinCap(s.rows[i], s.tally[i], s.now);
    }
    assert forall c | c in s.holders :: Owns(s.holders[c], s.rows);
  }

  lemma FinishedRowStays(s: State, step: Step, stale: int, id: JobId)
    requires Owned(s.holders, s.rows) && Enabled(s, step) && id in s.rows && !Active(s.rows[id])
    requires step.Enqueue? ==> step.id !in s.rows
    ensures var rows := Effect(s, step, stale);
            if id in rows then rows[id] == s.rows[id] else step.Prune? && Expired(s.rows[id], step.maxAge, s.now)
  {
    if step.Complete? || step.Fail? {
      assert Owns(s.holders[step.consumer], s.rows);
    }
  }

  /** A finished row never changes again, and leaves the table only by pruning after its age ran out. */
  lemma FinishedIsFinal(s: State, step: Step, stale: int, id: JobId)
    requires Inv(s) && Enabled(s, step) && id in s.rows && !Active(s.rows[id])
    ensures var t := Apply(s, step, stale);
            if id in t.rows then t.rows[id] == s.rows[id] else step.Prune? && Expired(s.rows[id], step.maxAge, s.now)
  {
    NoStatementRefused(s, step, stale);
    FinishedRowStays(s, step, stale, id);
  }

  /** A row whose worker died is runnable again right after the first reclaim past the stale limit. */
  lemma StrandedJobRunsAgain(s: State, id: JobId, stale: nat)
    requires Inv(s) && id in s.rows && s.rows[id].status == Running && s.now > s.rows[id].lockedAt.value + stale
    ensures Runnable(AfterReclaim(s.rows, stale, s.now), {}, s.now, id)
  {
    assert Accounted(s.rows[id], s.tally[id], s.now);
  }
}
