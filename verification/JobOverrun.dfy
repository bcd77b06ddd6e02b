/** What the queue does when a handler outlives its lease: the timing assumption of
    backend/app/config.py is necessary. */
module JobOverrun {
  import opened Wrappers
  import opened JobTable
  import opened JobProtocol

  /** The run that shows why the lease is needed: one handler outlives its lease by a second. */
  function Overrun(job: JobId, next: JobId, a: Consumer, b: Consumer, stale: nat): seq<Step> {
    [Enqueue(job, "sweep", "", Some("sweep"), None, 5), Claim(a, "w", {}, job), Tick(stale + 1), Reclaim,
     Claim(b, "w", {}, job), Complete(b), Enqueue(next, "sweep", "", Some("sweep"), None, 5)]
  }

  function OverrunRow(stale: nat, k: nat): Job {
    var row := NewJob(0, "sweep", "", Some("sweep"), None, 5);
    var first := row.(status := Running, lockedBy := Some("w"), lockedAt := Some(0), attempts := 1);
    var back := first.(status := Pending, lockedBy := None, lockedAt := None, updatedAt := stale + 1);
    var second := back.(status := Running, lockedBy := Some("w"), lockedAt := Some(stale + 1), attempts := 2);
    if k == 0 then row else if k == 1 then first else if k == 2 then back else if k == 3 then second
    else second.(status := Done)
  }

  lemma OverrunStart(job: JobId, next: JobId, a: Consumer, b: Consumer, stale: nat) returns (s3: State)
    ensures IsRun(START, Overrun(job, next, a, b, stale)[..3], stale)
    ensures s3 == After(START, Overrun(job, next, a, b, stale)[..3], stale)
    ensures s3.now == stale + 1 && s3.rows == map[job := OverrunRow(stale, 1)] && s3.tally.Keys == {job}
    ensures s3.holders == map[a := Holding(ClaimedJob(job, "sweep", "", 1, 5), 0)]
  {
    var steps := Overrun(job, next, a, b, stale)[..3];
    var s1 := Apply(START, steps[0], stale);
    assert s1.rows == map[job := OverrunRow(stale, 0)];
    var s2 := Apply(s1, steps[1], stale);
    assert s2.rows == map[job := OverrunRow(stale, 1)];
    s3 := Apply(s2, steps[2], stale);
    Unroll([START, s1, s2, s3], steps, stale);
  }

  lemma Reclaimed(s3: State, job: JobId, stale: nat) returns (s4: State)
    requires s3.now == stale + 1 && s3.rows == map[job := OverrunRow(stale, 1)] && s3.tally.Keys == {job}
    ensures s4 == Apply(s3, Reclaim, stale)
    ensures s4.now == s3.now && s4.rows == map[job := OverrunRow(stale, 2)] && s4.tally.Keys == {job}
              && s4.holders == s3.holders
  {
    assert AfterReclaim(s3.rows, stale, s3.now) == map[job := OverrunRow(stale, 2)];
    s4 := Apply(s3, Reclaim, stale);
  }

  lemma ClaimedAgain(s4: State, job: JobId, b: Consumer, stale: nat) returns (s5: State)
    requires s4.now == stale + 1 && s4.rows == map[job := OverrunRow(stale, 2)] && s4.tally.Keys == {job}
               && b !in s4.holders
    ensures Enabled(s4, Claim(b, "w", {}, job)) && s5 == Apply(s4, Claim(b, "w", {}, job), stale)
    ensures s5.now == s4.now && s5.rows == map[job := OverrunRow(stale, 3)] && s5.tally.Keys == {job}
    ensures b in s5.holders && s5.holders[b].job.id == job &&
              forall c | c in s4.holders :: c in s5.holders && s5.holders[c] == s4.holders[c]
  {
    s5 := Apply(s4, Claim(b, "w", {}, job), stale);
    assert s5.rows == map[job := OverrunRow(stale, 3)];
  }

  lemma OverrunMiddle(s3: State, job: JobId, next: JobId, a: Consumer, b: Consumer, stale: nat) returns (s5: State)
    requires a != b
    requires s3.now == stale + 1 && s3.rows == map[job := OverrunRow(stale, 1)] && s3.tally.Keys == {job}
    requires s3.holders == map[a := Holding(ClaimedJob(job, "sweep", "", 1, 5), 0)]
    ensures IsRun(s3, Overrun(job, next, a, b, stale)[3..5], stale)
    ensures s5 == After(s3, Overrun(job, next, a, b, stale)[3..5], stale)
    ensures s5.now == stale + 1 && s5.rows == map[job := OverrunRow(stale, 3)] && s5.tally.Keys == {job}
    ensures a in s5.holders && b in s5.holders && s5.holders[a].job == ClaimedJob(job, "sweep", "", 1, 5)
              && s5.holders[b].job.id == job
  {
    var steps := Overrun(job, next, a, b, stale)[3..5];
    var s4 := Reclaimed(s3, job, stale);
    s5 := ClaimedAgain(s4, job, b, stale);
    Unroll([s3, s4, s5], steps, stale);
  }

  lemma OverrunEnd(s5: State, job: JobId, next: JobId, a: Consumer, b: Consumer, stale: nat, error: string)
    returns (s7: State)
    requires a != b && job != next
    requires s5.now == stale + 1 && s5.rows == map[job := OverrunRow(stale, 3)] && s5.tally.Keys == {job}
    requires a in s5.holders && b in s5.holders && s5.holders[a].job == ClaimedJob(job, "sweep", "", 1, 5)
               && s5.holders[b].job.id == job
    ensures IsRun(s5, Overrun(job, next, a, b, stale)[5..], stale)
    ensures s7 == After(s5, Overrun(job, next, a, b, stale)[5..], stale)
    ensures Enabled(s7, Fail(a, error)) && !UniqueActiveKeys(Effect(s7, Fail(a, error), stale))
  {
    var steps := Overrun(job, next, a, b, stale)[5..];
    var s6 := Apply(s5, steps[0], stale);
    assert s6.rows == map[job := OverrunRow(stale, 4)];
    s7 := Apply(s6, steps[1], stale);
    assert s7.rows == map[job := OverrunRow(stale, 4), next := NewJob(stale + 1, "sweep", "", Some("sweep"), None, 5)];
    Unroll([s5, s6, s7], steps, stale);
    var late := Effect(s7, Fail(a, error), stale);
    assert Active(late[job]) && Active(late[next]) && late[job].dedupeKey == late[next].dedupeKey;
  }

  /** Without the lease: two consumers hold one job, and then the late handler's failure
      would put a second active job under one dedupe key, so the index refuses it. */
  lemma OverrunBreaksLease(job: JobId, next: JobId, a: Consumer, b: Consumer, stale: nat, error: string)
    requires job != next && a != b
    ensures var steps := Overrun(job, next, a, b, stale);
            && IsRun(START, steps[..5], stale)
            && (var five := After(START, steps[..5], stale);
                a in five.holders && b in five.holders && five.holders[a].job.id == five.holders[b].job.id)
    ensures var steps := Overrun(job, next, a, b, stale);
            && IsRun(START, steps, stale)
            && (var seven := After(START, steps, stale);
                Enabled(seven, Fail(a, error)) && !UniqueActiveKeys(Effect(seven, Fail(a, error), stale)))
  {
    var steps := Overrun(job, next, a, b, stale);
    var s3 := OverrunStart(job, next, a, b, stale);
    var s5 := OverrunMiddle(s3, job, next, a, b, stale);
    var s7 := OverrunEnd(s5, job, next, a, b, stale, error);
    assert steps[..3] + steps[3..5] == steps[..5] && steps[..5] + steps[5..] == steps;
    Chain(START, steps[..3], steps[3..5], stale);
    Chain(START, steps[..5], steps[5..], stale);
  }

  lemma {:induction false} Chain(s: State, before: seq<Step>, after: seq<Step>, stale: int)
    requires IsRun(s, before, stale) && IsRun(After(s, before, stale), after, stale)
    ensures IsRun(s, before + after, stale)
    ensures After(s, before + after, stale) == After(After(s, before, stale), after, stale)
    decreases |before|
  {
    if before == [] {
      assert before + after == after;
    } else {
      Chain(Apply(s, before[0], stale), before[1..], after, stale);
      assert (before + after)[0] == before[0] && (before + after)[1..] == before[1..] + after;
    }
  }

  lemma {:induction false} Unroll(states: seq<State>, steps: seq<Step>, stale: int)
    requires |states| == |steps| + 1
    requires forall k | 0 <= k < |steps| ::
               Enabled(states[k], steps[k]) && states[k + 1] == Apply(states[k], steps[k], stale)
    ensures IsRun(states[0], steps, stale)
    ensures After(states[0], steps, stale) == states[|steps|]
    decreases |steps|
  {
    if steps != [] {
      assert Enabled(states[0], steps[0]);
      forall k | 0 <= k < |steps[1..]|
        ensures Enabled(states[1..][k], steps[1..][k])
                  && states[1..][k + 1] == Apply(states[1..][k], steps[1..][k], stale)
      {
        assert Enabled(states[k + 1], steps[k + 1]);
      }
      Unroll(states[1..], steps[1..], stale);
    }
  }
}
