/** What the steps of the queue mean for a job: which step gives a row its status, and that a
    handler is handed the job that was enqueued (backend/app/repositories/jobs.py,
    backend/app/services/jobs/queue.py). */
module JobDelivery {
  import opened Wrappers
  import opened JobTable
  import opened JobProtocol

  // ----- one step

  /** Under the invariant no statement is refused, new ids are new, and consumers end their own rows. */
  ghost predicate Fits(s: State, step: Step)
    requires Enabled(s, step)
  {
    && (step.Enqueue? ==> step.id !in s.rows)
    && (step.Complete? || step.Fail? ==> Owns(s.holders[step.consumer], s.rows))
  }

  lemma Applied(s: State, step: Step, stale: int)
    requires Inv(s) && Enabled(s, step)
    ensures Fits(s, step) && Apply(s, step, stale).rows == Effect(s, step, stale)
    ensures Apply(s, step, stale).holders == Holders(s, step, Effect(s, step, stale))
  {
    NoStatementRefused(s, step, stale);
  }

  /** The step that inserts the row. */
  ghost predicate Inserts(s: State, step: Step, stale: int, id: JobId)
    requires Enabled(s, step)
  {
    step.Enqueue? && step.id == id && id in Apply(s, step, stale).rows
  }

  /** A consumer ends its work on the row. */
  ghost predicate Ends(s: State, step: Step, id: JobId)
    requires Enabled(s, step)
  {
    (step.Complete? || step.Fail?) && s.holders[step.consumer].job.id == id
  }

  /** The holder's tries are used up. */
  ghost predicate UsedUp(s: State, step: Step)
    requires Enabled(s, step) && step.Fail?
  {
    s.holders[step.consumer].job.attempts >= s.holders[step.consumer].job.maxAttempts
  }

  ghost predicate Overdue(s: State, stale: int, id: JobId) {
    && id in s.rows && s.rows[id].status == Running
    && s.rows[id].lockedAt.Some? && s.now > s.rows[id].lockedAt.value + stale
  }

  ghost predicate Turns(s: State, step: Step, stale: int, id: JobId, status: Status)
    requires Enabled(s, step) && id in Apply(s, step, stale).rows
  {
    Apply(s, step, stale).rows[id].status == status && (id in s.rows ==> s.rows[id].status != status)
  }

  /** A row turns running by a claim of it, done by its holder's success, failed by its holder's
      failure with no attempt left, and pending by being inserted, by a failure with attempts left,
      or by a reclaim past the stale limit; and by nothing else. */
  lemma EachStatusHasItsStep(s: State, step: Step, stale: int, id: JobId)
    requires Inv(s) && Enabled(s, step) && id in Apply(s, step, stale).rows
    ensures Turns(s, step, stale, id, Running) <==> step.Claim? && step.id == id
    ensures Turns(s, step, stale, id, Done) <==> step.Complete? && Ends(s, step, id)
    ensures Turns(s, step, stale, id, Failed) <==> step.Fail? && Ends(s, step, id) && UsedUp(s, step)
    ensures Turns(s, step, stale, id, Pending) <==>
              (|| Inserts(s, step, stale, id)
               || (step.Fail? && Ends(s, step, id) && !UsedUp(s, step))
               || (step.Reclaim? && Overdue(s, stale, id)))
  {
    Applied(s, step, stale);
    StatusAfter(s, step, stale, id);
  }

  lemma StatusAfter(s: State, step: Step, stale: int, id: JobId)
    requires Enabled(s, step) && Fits(s, step) && id in Effect(s, step, stale)
    ensures id !in s.rows ==> step.Enqueue? && step.id == id && Effect(s, step, stale)[id].status == Pending
    ensures id in s.rows ==>
              Effect(s, step, stale)[id].status ==
                if step.Claim? && step.id == id then Running
                else if step.Complete? && Ends(s, step, id) then Done
                else if step.Fail? && Ends(s, step, id) then (if UsedUp(s, step) then Failed else Pending)
                else if step.Reclaim? && Overdue(s, stale, id) then Pending
                else s.rows[id].status
    ensures step.Claim? && step.id == id ==> id in s.rows && s.rows[id].status == Pending
    ensures (step.Complete? || step.Fail?) && Ends(s, step, id) ==> id in s.rows && s.rows[id].status == Running
  {
  }

  /** The work itself never changes, attempts grow by claims alone, and every change is stamped,
      which is what pruning counts from. */
  lemma StepKeepsWork(s: State, step: Step, stale: int, id: JobId)
    requires Inv(s) && Enabled(s, step) && id in s.rows && id in Apply(s, step, stale).rows
    ensures var j, k := s.rows[id], Apply(s, step, stale).rows[id];
            && SameWork(j, k)
            && k.attempts == j.attempts + (if step.Claim? && step.id == id then 1 else 0)
            && (k == j || k.updatedAt == s.now)
  {
    Applied(s, step, stale);
    WorkAfter(s, step, stale, id);
  }

  ghost predicate SameWork(j: Job, k: Job) {
    j.jobType == k.jobType && j.payload == k.payload && j.maxAttempts == k.maxAttempts && j.dedupeKey == k.dedupeKey
  }

  lemma WorkAfter(s: State, step: Step, stale: int, id: JobId)
    requires Enabled(s, step) && Fits(s, step) && id in s.rows && id in Effect(s, step, stale)
    ensures var j, k := s.rows[id], Effect(s, step, stale)[id];
            && SameWork(j, k)
            && k.attempts == j.attempts + (if step.Claim? && step.id == id then 1 else 0)
            && (k == j || k.updatedAt == s.now)
  {
  }

  /** The job is the work that step asked for. */
  ghost predicate AsAsked(j: Job, e: Step) {
    && e.Enqueue? && j.jobType == e.jobType && j.payload == e.payload
    && j.maxAttempts == e.maxAttempts && j.dedupeKey == e.key
  }

  /** What a statement leaves in the row it is about. */
  lemma RowAfter(s: State, step: Step, stale: int)
    requires Inv(s) && Enabled(s, step)
    ensures var t := Apply(s, step, stale);
            match step
            case Enqueue(id, _, _, _, runAfter, _) =>
              id in t.rows ==>
                && AsAsked(t.rows[id], step)
                && (if runAfter.Some? then t.rows[id].runAfter == runAfter.value else t.rows[id].runAfter == s.now)
                && t.rows[id].attempts == 0 && t.rows[id].lastError.None? && t.rows[id].updatedAt == s.now
            case Claim(c, worker, _, id) =>
              && id in t.rows && c in t.holders && t.holders[c].job.id == id && t.holders[c].claimedAt == s.now
              && t.rows[id].lockedBy == Some(worker) && t.rows[id].lockedAt == Some(s.now)
            case Complete(c) =>
              var id := s.holders[c].job.id;
              id in t.rows && c !in t.holders && t.rows[id].lastError.None?
            case Fail(c, error) =>
              var id := s.holders[c].job.id;
              && id in t.rows && c !in t.holders && t.rows[id].lastError.Some?
              && t.rows[id].lastError.value <= error
              && |t.rows[id].lastError.value| == (if |error| > 2000 then 2000 else |error|)
            case Crash(c) => c !in t.holders && t.rows == s.rows
            case _ => t.holders == s.holders
  {
    Applied(s, step, stale);
  }

  /** What a claim may take: a pending row that is due and that no other transaction has locked, and of
      those one that has been due for longest. There is one whenever any such row is. */
  ghost predicate Takeable(rows: Table, locked: set<JobId>, now: int, id: JobId) {
    id in rows && rows[id].status == Pending && rows[id].runAfter <= now && id !in locked
  }

  lemma ClaimExactly(s: State, c: Consumer, worker: string, locked: set<JobId>, id: JobId)
    ensures Enabled(s, Claim(c, worker, locked, id)) <==>
              && c !in s.holders && Takeable(s.rows, locked, s.now, id)
              && forall i | i in s.rows && s.rows[i].runAfter < s.rows[id].runAfter ::
                   !Takeable(s.rows, locked, s.now, i)
    ensures c !in s.holders && Takeable(s.rows, locked, s.now, id) ==>
              exists first :: Enabled(s, Claim(c, worker, locked, first))
  {
    if Takeable(s.rows, locked, s.now, id) {
      var due := set i | i in s.rows && Takeable(s.rows, locked, s.now, i);
      assert id in due;
      var first := EarliestExists(s.rows, due);
      assert IsNext(s.rows, locked, s.now, first);
      if c !in s.holders {
        assert Enabled(s, Claim(c, worker, locked, first));
      }
    }
  }

  /** A job is inserted exactly when its key is free: no key, or no pending or running job has it. */
  lemma InsertedExactly(s: State, step: Step, stale: int)
    requires Inv(s) && Enabled(s, step) && step.Enqueue?
    ensures Inserts(s, step, stale, step.id) <==>
              step.key.None? ||
              forall i | i in s.rows && (s.rows[i].status == Pending || s.rows[i].status == Running) ::
                s.rows[i].dedupeKey != step.key
  {
    Applied(s, step, stale);
  }

  /** Other rows stay as they are, and leave only by a prune after their age ran out. */
  lemma OtherRowsStay(s: State, step: Step, stale: int, id: JobId)
    requires Inv(s) && Enabled(s, step) && id in s.rows
    requires !(step.Claim? && step.id == id) && !Ends(s, step, id) && !(step.Reclaim? && Overdue(s, stale, id))
    ensures var t := Apply(s, step, stale);
            && (id in t.rows ==> t.rows[id] == s.rows[id])
            && (id !in t.rows <==>
                  && step.Prune? && (s.rows[id].status == Done || s.rows[id].status == Failed)
                  && s.rows[id].updatedAt < s.now - step.maxAge)
  {
    Applied(s, step, stale);
    OtherAfter(s, step, stale, id);
  }

  lemma OtherAfter(s: State, step: Step, stale: int, id: JobId)
    requires Enabled(s, step) && Fits(s, step) && id in s.rows
    requires !(step.Claim? && step.id == id) && !Ends(s, step, id) && !(step.Reclaim? && Overdue(s, stale, id))
    ensures var rows := Effect(s, step, stale);
            && (id in rows ==> rows[id] == s.rows[id])
            && (id !in rows <==>
                  && step.Prune? && (s.rows[id].status == Done || s.rows[id].status == Failed)
                  && s.rows[id].updatedAt < s.now - step.maxAge)
  {
  }

  // ----- whole runs

  /** The step `e` of the run inserted the row. */
  ghost predicate InsertedBy(s: State, steps: seq<Step>, stale: int, id: JobId, e: Step)
    requires IsRun(s, steps, stale)
    decreases |steps|
  {
    steps != [] &&
    (|| (steps[0] == e && Inserts(s, e, stale, id))
     || InsertedBy(Apply(s, steps[0], stale), steps[1..], stale, id, e))
  }

  lemma StepInserts(s: State, step: Step, stale: int, id: JobId)
    requires Inv(s) && Enabled(s, step)
    ensures var t := Apply(s, step, stale);
            && (id in s.tally ==> id in t.tally && (id in t.rows ==> id in s.rows && SameWork(s.rows[id], t.rows[id])))
            && (id !in s.tally && id in t.tally ==> Inserts(s, step, stale, id) && AsAsked(t.rows[id], step))
  {
    Applied(s, step, stale);
    if id in Effect(s, step, stale) && id in s.rows {
      WorkAfter(s, step, stale, id);
    }
  }

  /** Every row of a run is one it began with, or one an Enqueue of the run inserted, with its work unchanged. */
  lemma {:induction false} RowsAreAsAsked(s: State, steps: seq<Step>, stale: int, id: JobId)
    requires Inv(s) && IsRun(s, steps, stale) && ReclaimsInTime(s, steps, stale) && id in After(s, steps, stale).rows
    ensures id in s.tally ==> id in s.rows && SameWork(s.rows[id], After(s, steps, stale).rows[id])
    ensures id !in s.tally ==>
              exists e :: InsertedBy(s, steps, stale, id, e) && AsAsked(After(s, steps, stale).rows[id], e)
    decreases |steps|
  {
    if steps != [] {
      var t := Apply(s, steps[0], stale);
      StepKeepsInv(s, steps[0], stale);
      StepInserts(s, steps[0], stale, id);
      RowsAreAsAsked(t, steps[1..], stale, id);
      if id !in s.tally {
        if id in t.tally {
          assert InsertedBy(s, steps, stale, id, steps[0]);
        } else {
          var e :| InsertedBy(t, steps[1..], stale, id, e) && AsAsked(After(s, steps, stale).rows[id], e);
          assert InsertedBy(s, steps, stale, id, e);
        }
      }
    }
  }

  /** From the empty table: every handler works on the type and payload its job was enqueued with,
      knows its cap, and knows how often the job was claimed. */
  lemma HandlersGetTheirJob(steps: seq<Step>, stale: int, c: Consumer)
    requires IsRun(START, steps, stale) && ReclaimsInTime(START, steps, stale)
    requires c in After(START, steps, stale).holders
    ensures var s := After(START, steps, stale);
            var job := s.holders[c].job;
            && job.id in s.tally && job.attempts == s.tally[job.id].claims
            && exists e ::
                 && InsertedBy(START, steps, stale, job.id, e) && e.Enqueue?
                 && e.jobType == job.jobType && e.payload == job.payload && e.maxAttempts == job.maxAttempts
  {
    LeaseSafety(START, steps, stale);
    var s := After(START, steps, stale);
    var job := s.holders[c].job;
    assert Owns(s.holders[c], s.rows) && Accounted(s.rows[job.id], s.tally[job.id], s.now);
    RowsAreAsAsked(START, steps, stale, job.id);
    var e :| InsertedBy(START, steps, stale, job.id, e) && AsAsked(s.rows[job.id], e);
    InserterEnqueues(START, steps, stale, job.id, e);
  }

  lemma {:induction false} InserterEnqueues(s: State, steps: seq<Step>, stale: int, id: JobId, e: Step)
    requires IsRun(s, steps, stale) && InsertedBy(s, steps, stale, id, e)
    ensures e.Enqueue? && e.id == id && e in steps
    decreases |steps|
  {
    if !(steps[0] == e && Inserts(s, e, stale, id)) {
      InserterEnqueues(Apply(s, steps[0], stale), steps[1..], stale, id, e);
    }
  }

  // ----- the counts

  function ClaimsOf(steps: seq<Step>, id: JobId): nat {
    if steps == [] then 0 else (if steps[0].Claim? && steps[0].id == id then 1 else 0) + ClaimsOf(steps[1..], id)
  }

  /** How many reclaims of the run found the job overdue. */
  ghost function ReclaimsOf(s: State, steps: seq<Step>, stale: int, id: JobId): nat
    requires IsRun(s, steps, stale)
    decreases |steps|
  {
    if steps == [] then 0
    else
      var one := if steps[0].Reclaim? && Overdue(s, stale, id) then 1 else 0;
      one + ReclaimsOf(Apply(s, steps[0], stale), steps[1..], stale, id)
  }

  lemma StepCounts(s: State, step: Step, stale: int, id: JobId)
    requires Inv(s) && Enabled(s, step)
    ensures var before := if id in s.tally then s.tally[id] else Tally(0, 0);
            var t := Apply(s, step, stale);
            var after := if id in t.tally then t.tally[id] else Tally(0, 0);
            && after.claims == before.claims + (if step.Claim? && step.id == id then 1 else 0)
            && after.reclaims == before.reclaims + (if step.Reclaim? && Overdue(s, stale, id) then 1 else 0)
  {
    Applied(s, step, stale);
    TallyAfter(s, step, stale, id);
  }

  lemma TallyAfter(s: State, step: Step, stale: int, id: JobId)
    requires Enabled(s, step) && s.rows.Keys <= s.tally.Keys
    ensures var rows := Effect(s, step, stale);
            var before := if id in s.tally then s.tally[id] else Tally(0, 0);
            var tally := Tallies(s, step, rows, stale);
            var after := if id in tally then tally[id] else Tally(0, 0);
            && after.claims == before.claims + (if step.Claim? && step.id == id then 1 else 0)
            && after.reclaims == before.reclaims + (if step.Reclaim? && Overdue(s, stale, id) then 1 else 0)
  {
  }

  /** The tally is the number of claims of the job, and of reclaims that took it, in the run so far. */
  lemma {:induction false} TallyCounts(s: State, steps: seq<Step>, stale: int, id: JobId)
    requires Inv(s) && IsRun(s, steps, stale) && ReclaimsInTime(s, steps, stale)
    ensures var before := if id in s.tally then s.tally[id] else Tally(0, 0);
            var t := After(s, steps, stale);
            var after := if id in t.tally then t.tally[id] else Tally(0, 0);
            && after.claims == before.claims + ClaimsOf(steps, id)
            && after.reclaims == before.reclaims + ReclaimsOf(s, steps, stale, id)
    decreases |steps|
  {
    if steps != [] {
      StepKeepsInv(s, steps[0], stale);
      StepCounts(s, steps[0], stale, id);
      TallyCounts(Apply(s, steps[0], stale), steps[1..], stale, id);
    }
  }
}
