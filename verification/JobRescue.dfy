/** The leader's cadence and the queue together: a job whose worker died runs again in bounded
    time (backend/app/workers/scheduler.py, backend/app/repositories/jobs.py). */
module JobRescue {
  import opened Wrappers
  import opened JobTable
  import opened JobProtocol
  import LeaderCadence

  /** A running row that nobody works on any more. */
  ghost predicate Stranded(s: State, id: JobId) {
    id in s.rows && s.rows[id].status == Running && forall c | c in s.holders :: s.holders[c].job.id != id
  }

  /** Only a reclaim past the stale limit touches such a row. */
  lemma StaysStranded(s: State, step: Step, stale: int, id: JobId)
    requires Inv(s) && Enabled(s, step) && Stranded(s, id) && s.rows[id].lockedAt.Some?
    requires step.Reclaim? ==> s.now <= s.rows[id].lockedAt.value + stale
    ensures var t := Apply(s, step, stale);
            Stranded(t, id) && t.rows[id] == s.rows[id]
  {
    NoStatementRefused(s, step, stale);
    StrandedRow(s, step, stale, id);
    StrandedHolders(s, step, stale, id);
  }

  lemma StrandedRow(s: State, step: Step, stale: int, id: JobId)
    requires Enabled(s, step) && Stranded(s, id) && (step.Enqueue? ==> step.id !in s.rows)
    requires s.rows[id].lockedAt.Some?
    requires step.Reclaim? ==> s.now <= s.rows[id].lockedAt.value + stale
    ensures id in Effect(s, step, stale) && Effect(s, step, stale)[id] == s.rows[id]
  {
  }

  lemma StrandedHolders(s: State, step: Step, stale: int, id: JobId)
    requires Enabled(s, step) && Stranded(s, id)
    ensures var holders := Holders(s, step, Effect(s, step, stale));
            forall c | c in holders :: holders[c].job.id != id
  {
  }

  /** The run reclaims at time `at`. */
  ghost predicate ReclaimsAt(s: State, steps: seq<Step>, stale: int, at: int)
    requires IsRun(s, steps, stale)
    decreases |steps|
  {
    steps != [] &&
    ((steps[0].Reclaim? && s.now == at) || ReclaimsAt(Apply(s, steps[0], stale), steps[1..], stale, at))
  }

  /** Some reclaim of the run, no later than the deadline, makes the job runnable. */
  ghost predicate RescuedBy(s: State, steps: seq<Step>, stale: int, id: JobId, deadline: int)
    requires IsRun(s, steps, stale)
    decreases |steps|
  {
    steps != [] &&
    (|| (steps[0].Reclaim? && s.now <= deadline && Runnable(Apply(s, Reclaim, stale).rows, {}, s.now, id))
     || RescuedBy(Apply(s, steps[0], stale), steps[1..], stale, id, deadline))
  }

  lemma {:induction false} ReclaimIsAhead(s: State, steps: seq<Step>, stale: int, at: int)
    requires IsRun(s, steps, stale) && ReclaimsAt(s, steps, stale, at)
    ensures s.now <= at
    decreases |steps|
  {
    if !(steps[0].Reclaim? && s.now == at) {
      ReclaimIsAhead(Apply(s, steps[0], stale), steps[1..], stale, at);
    }
  }

  /** The first reclaim past the stale limit rescues, so one by `deadline` is enough. */
  lemma {:induction false} FirstReclaimRescues(s: State, steps: seq<Step>, stale: nat, id: JobId,
        at: int, deadline: int)
    requires Inv(s) && Stranded(s, id) && IsRun(s, steps, stale) && ReclaimsInTime(s, steps, stale)
    requires s.rows[id].lockedAt.Some? && s.rows[id].lockedAt.value + stale < at <= deadline
    requires ReclaimsAt(s, steps, stale, at)
    ensures RescuedBy(s, steps, stale, id, deadline)
    decreases |steps|
  {
    ReclaimIsAhead(s, steps, stale, at);
    if steps[0].Reclaim? && s.now > s.rows[id].lockedAt.value + stale {
      NoStatementRefused(s, Reclaim, stale);
      StrandedJobRunsAgain(s, id, stale);
    } else {
      StepKeepsInv(s, steps[0], stale);
      StaysStranded(s, steps[0], stale, id);
      FirstReclaimRescues(Apply(s, steps[0], stale), steps[1..], stale, id, at, deadline);
    }
  }

  /** The rounds of a leader that reclaimed by the time `limit` and lives past the next reclaim after it. */
  ghost predicate Leads(ticks: seq<int>, gap: nat, lastReap: int, limit: int) {
    && LeaderCadence.Ticking(ticks, gap) && lastReap <= limit && ticks != []
    && ticks[0] <= limit + LeaderCadence.REAP_INTERVAL_SECONDS < ticks[|ticks| - 1]
  }

  /** The run has the reclaims this leader makes from now on. */
  ghost predicate HasReclaims(s: State, steps: seq<Step>, stale: int, ticks: seq<int>, lastReap: int)
    requires IsRun(s, steps, stale)
  {
    forall at | at in LeaderCadence.Fires(ticks, Some(lastReap), LeaderCadence.REAP_INTERVAL_SECONDS) && at > s.now ::
      ReclaimsAt(s, steps, stale, at)
  }

  /** A leader is at work beside the run, and reclaims after the limit has passed. */
  ghost predicate Led(s: State, steps: seq<Step>, stale: int, ticks: seq<int>, gap: nat, lastReap: int, limit: int) {
    IsRun(s, steps, stale) && s.now <= limit && Leads(ticks, gap, lastReap, limit)
    && HasReclaims(s, steps, stale, ticks, lastReap)
  }

  /** Nobody works on the row that was claimed at `lockedAt`, and the run keeps to the leases. */
  ghost predicate Left(s: State, steps: seq<Step>, stale: int, id: JobId, lockedAt: int) {
    && Inv(s) && Stranded(s, id) && s.rows[id].lockedAt == Some(lockedAt)
    && IsRun(s, steps, stale) && ReclaimsInTime(s, steps, stale)
  }

  lemma LeftIsRescued(s: State, steps: seq<Step>, stale: nat, id: JobId, lockedAt: int, at: int, deadline: int)
    requires Left(s, steps, stale, id, lockedAt) && lockedAt + stale < at <= deadline && ReclaimsAt(s, steps, stale, at)
    ensures RescuedBy(s, steps, stale, id, deadline)
  {
    FirstReclaimRescues(s, steps, stale, id, at, deadline);
  }

  lemma ReclaimOf(s: State, steps: seq<Step>, stale: int, ticks: seq<int>, lastReap: int, at: int)
    requires IsRun(s, steps, stale) && HasReclaims(s, steps, stale, ticks, lastReap) && at > s.now
    requires at in LeaderCadence.Fires(ticks, Some(lastReap), LeaderCadence.REAP_INTERVAL_SECONDS)
    ensures ReclaimsAt(s, steps, stale, at)
  {
  }

  lemma NextReclaim(s: State, steps: seq<Step>, stale: nat, lockedAt: int, ticks: seq<int>, gap: nat, lastReap: int)
    returns (at: int)
    requires Led(s, steps, stale, ticks, gap, lastReap, lockedAt + stale)
    ensures lockedAt + stale < at <= lockedAt + stale + 60 + gap
    ensures ReclaimsAt(s, steps, stale, at)
  {
    at := LeaderCadence.StaleRowsAreReaped(ticks, gap, lastReap, lockedAt, stale);
    ReclaimOf(s, steps, stale, ticks, lastReap, at);
  }

  /** Whatever the other processes do: with a leader whose rounds are at most `gap` apart, a job
      whose worker died within the lease is runnable again at most the stale limit, one reap
      interval of a minute and one gap after it was claimed. */
  lemma StrandedJobIsRescued(s: State, steps: seq<Step>, stale: nat, id: JobId, lockedAt: int,
                             ticks: seq<int>, gap: nat, lastReap: int, deadline: int)
    requires deadline == lockedAt + stale + 60 + gap
    requires Left(s, steps, stale, id, lockedAt) && Led(s, steps, stale, ticks, gap, lastReap, lockedAt + stale)
    ensures RescuedBy(s, steps, stale, id, deadline)
  {
    var at := NextReclaim(s, steps, stale, lockedAt, ticks, gap, lastReap);
    LeftIsRescued(s, steps, stale, id, lockedAt, at, deadline);
  }
}
