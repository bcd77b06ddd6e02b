/** Retry delays and waiting order of the work queue. */
module JobFairness {
  import opened Wrappers
  import opened JobTable
  import opened JobProtocol

  // ----- retry delays

  lemma {:induction false} Pow2Grows(a: nat, b: nat)
    requires a <= b
    ensures 1 <= Pow2(a) <= Pow2(b)
    decreases b
  {
    if a < b {
      Pow2Grows(a, b - 1);
    } else if 0 < a {
      Pow2Grows(a - 1, b - 1);
    }
  }

  /** Half a minute, doubled with every failure up to 32 minutes, and then an hour. */
  lemma BackoffBounds(a: nat, b: nat)
    requires 1 <= a <= b
    ensures 30 <= Backoff(a) <= Backoff(b) <= 3600
    ensures Backoff(1) == 30 && Backoff(7) == 1920
    ensures a < 7 ==> Backoff(a + 1) == 2 * Backoff(a)
    ensures a > 7 ==> Backoff(a) == 3600
  {
    Pow2Grows(0, a - 1);
    Pow2Grows(a - 1, b - 1);
    assert Pow2(6) == 64 by { assert Pow2(3) == 8; }
    if a <= 7 {
      Pow2Grows(a - 1, 6);
    } else {
      Pow2Grows(7, a - 1);
      assert Pow2(7) == 128;
    }
  }

  /** A failed attempt leaves the job runnable again exactly from its backoff on, or parked as
      failed, never to run again, exactly when its attempts are used up. */
  lemma FailedAttemptWaits(s: State, c: Consumer, error: string, stale: int, locked: set<JobId>, later: int)
    requires Inv(s) && Enabled(s, Fail(c, error))
    ensures var job, t := s.holders[c].job, Apply(s, Fail(c, error), stale);
            && c !in t.holders && job.id in t.rows && t.rows[job.id].attempts == s.tally[job.id].claims == job.attempts
            && (if job.attempts >= job.maxAttempts then t.rows[job.id].status == Failed
                else t.rows[job.id].status == Pending && t.rows[job.id].runAfter == s.now + Backoff(job.attempts))
            && (Runnable(t.rows, locked, later, job.id) <==>
                  job.attempts < job.maxAttempts && job.id !in locked && later >= s.now + Backoff(job.attempts))
  {
    NoStatementRefused(s, Fail(c, error), stale);
    assert Owns(s.holders[c], s.rows);
    assert Accounted(s.rows[s.holders[c].job.id], s.tally[s.holders[c].job.id], s.now);
  }

  /** Total delay after the first k failures. */
  function TotalBackoff(k: nat): nat {
    if k == 0 then 0 else TotalBackoff(k - 1) + Backoff(k)
  }

  /** The doubling sum, exact while no single delay reaches the ceiling (the eighth does). */
  lemma {:induction false} TotalBackoffBound(k: nat)
    ensures TotalBackoff(k) <= 30 * (Pow2(k) - 1)
    ensures TotalBackoff(k) == 30 * (Pow2(k) - 1) <==> k <= 7
    ensures TotalBackoff(k) <= k * 3600
  {
    if k > 0 {
      TotalBackoffBound(k - 1);
      assert Pow2(k) == 2 * Pow2(k - 1);
      if k <= 7 {
        Pow2Grows(k - 1, 6);
        assert Pow2(6) == 64 by { assert Pow2(3) == 8; }
      } else {
        Pow2Grows(7, k - 1);
        assert Pow2(7) == 128 by { assert Pow2(3) == 8; assert Pow2(5) == 32; }
      }
    }
  }

  // ----- waiting order

  /** Jobs a claim may take before the pending job `id`. */
  ghost function Ahead(rows: Table, id: JobId): set<JobId>
    requires id in rows
  {
    set i | i in rows && i != id && rows[i].status == Pending && rows[i].runAfter <= rows[id].runAfter
  }

  ghost function StalledRows(s: State, stale: int): set<JobId> {
    set i | i in s.rows && Stalled(s.rows[i], stale, s.now)
  }

  /** The step leaves `id` waiting: no claim takes or skips over its row lock, nothing is enqueued ahead of it. */
  predicate PassesOver(step: Step, id: JobId, runAfter: int) {
    && (step.Claim? ==> step.id != id && id !in step.locked)
    && (step.Enqueue? && step.runAfter.Some? ==> step.runAfter.value > runAfter)
  }

  ghost predicate Waiting(s: State, id: JobId) {
    id in s.rows && s.rows[id].status == Pending && s.rows[id].runAfter < s.now
  }

  function Claims(steps: seq<Step>): nat {
    if steps == [] then 0 else (if steps[0].Claim? then 1 else 0) + Claims(steps[1..])
  }

  /** Rows the reclaims of a run put back, with the early run_after they kept. */
  ghost function PutBack(s: State, steps: seq<Step>, stale: int): nat
    requires IsRun(s, steps, stale)
    decreases |steps|
  {
    if steps == [] then 0
    else
      var back := if steps[0].Reclaim? then |StalledRows(s, stale)| else 0;
      back + PutBack(Apply(s, steps[0], stale), steps[1..], stale)
  }

  /** The row a consumer finishes was running, and comes back, if at all, behind every due job. */
  lemma FinishedRow(s: State, step: Step, stale: int, id: JobId, c: Consumer)
    requires Inv(s) && Enabled(s, step) && Waiting(s, id)
    requires (step.Complete? || step.Fail?) && step.consumer == c
    ensures var rows := Effect(s, step, stale);
            id in rows && rows[id] == s.rows[id] && Ahead(rows, id) <= Ahead(s.rows, id)
  {
    var rows := Effect(s, step, stale);
    var held := s.holders[c].job.id;
    assert Owns(s.holders[c], s.rows) && held != id;
    assert rows == s.rows[held := rows[held]];
  }

  lemma ReclaimWaiting(s: State, stale: int, id: JobId)
    requires Waiting(s, id)
    ensures var rows := AfterReclaim(s.rows, stale, s.now);
            id in rows && rows[id] == s.rows[id] && Ahead(rows, id) <= Ahead(s.rows, id) + StalledRows(s, stale)
  {
    var rows := AfterReclaim(s.rows, stale, s.now);
    assert forall i | i in rows && i !in StalledRows(s, stale) :: rows[i] == s.rows[i];
  }

  /** What a step can do to the pending rows: nothing becomes pending with a run_after
      at or before a due job's, unless a reclaim puts it back. */
  lemma WaitingRow(s: State, step: Step, stale: int, id: JobId)
    requires Inv(s) && Enabled(s, step) && Waiting(s, id) && PassesOver(step, id, s.rows[id].runAfter)
    ensures var rows := Effect(s, step, stale);
            && id in rows && rows[id] == s.rows[id]
            && Ahead(rows, id) <= Ahead(s.rows, id) + (if step.Reclaim? then StalledRows(s, stale) else {})
  {
    var rows := Effect(s, step, stale);
    match step
    case Complete(c) => FinishedRow(s, step, stale, id, c);
    case Fail(c, _) => FinishedRow(s, step, stale, id, c);
    case Enqueue(added, _, _, _, _, _) => assert forall i | i in rows && i != added :: rows[i] == s.rows[i];
    case Reclaim => ReclaimWaiting(s, stale, id);
    case Prune(_) => assert forall i | i in rows :: rows[i] == s.rows[i];
    case _ =>
  }

  lemma StaysWaiting(s: State, step: Step, stale: int, id: JobId)
    requires Inv(s) && Enabled(s, step) && Waiting(s, id) && PassesOver(step, id, s.rows[id].runAfter)
    ensures var t := Apply(s, step, stale);
            && Waiting(t, id) && t.rows[id] == s.rows[id]
            && Ahead(t.rows, id) <= Ahead(s.rows, id) + (if step.Reclaim? then StalledRows(s, stale) else {})
  {
    NoStatementRefused(s, step, stale);
    WaitingRow(s, step, stale, id);
  }

  lemma ClaimTakesFromAhead(s: State, step: Step, stale: int, id: JobId)
    requires Inv(s) && Enabled(s, step) && Waiting(s, id) && PassesOver(step, id, s.rows[id].runAfter)
    requires step.Claim?
    ensures step.id in Ahead(s.rows, id)
    ensures Ahead(Apply(s, step, stale).rows, id) <= Ahead(s.rows, id) - {step.id}
  {
    NoStatementRefused(s, step, stale);
    assert Runnable(s.rows, step.locked, s.now, id);
  }

  lemma SubsetSize(a: set<JobId>, b: set<JobId>)
    requires a <= b
    ensures |a| <= |b|
  {
    assert b == a + (b - a);
  }

  lemma OvertakingStep(s: State, step: Step, stale: int, id: JobId)
    requires Inv(s) && Enabled(s, step) && Waiting(s, id) && PassesOver(step, id, s.rows[id].runAfter)
    ensures var t := Apply(s, step, stale);
            && Waiting(t, id) && t.rows[id] == s.rows[id]
            && (if step.Claim? then 1 else 0) + |Ahead(t.rows, id)|
                         <= |Ahead(s.rows, id)| + (if step.Reclaim? then |StalledRows(s, stale)| else 0)
  {
    var t := Apply(s, step, stale);
    StaysWaiting(s, step, stale, id);
    var before, after := Ahead(s.rows, id), Ahead(t.rows, id);
    if step.Claim? {
      ClaimTakesFromAhead(s, step, stale, id);
      SubsetSize(after, before - {step.id});
    } else if step.Reclaim? {
      SubsetSize(after, before + StalledRows(s, stale));
    } else {
      SubsetSize(after, before);
    }
  }

  /** However long a due job is passed over, the claims made meanwhile are paid for by the
      jobs that were ahead of it and by the rows reclaims put back. */
  lemma {:induction false} BoundedOvertaking(s: State, steps: seq<Step>, stale: int, id: JobId)
    requires Inv(s) && IsRun(s, steps, stale) && ReclaimsInTime(s, steps, stale) && Waiting(s, id)
    requires forall k | 0 <= k < |steps| :: PassesOver(steps[k], id, s.rows[id].runAfter)
    ensures var t := After(s, steps, stale);
            id in t.rows && Claims(steps) + |Ahead(t.rows, id)| <= |Ahead(s.rows, id)| + PutBack(s, steps, stale)
    decreases |steps|
  {
    if steps != [] {
      var step := steps[0];
      var t := Apply(s, step, stale);
      StepKeepsInv(s, step, stale);
      OvertakingStep(s, step, stale, id);
      BoundedOvertaking(t, steps[1..], stale, id);
    }
  }
}
