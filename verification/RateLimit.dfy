/** The sliding-window rate limiter over the shared table
    (backend/app/repositories/rate_limits.py, backend/app/services/auth/rate_limit.py).
    Times are whole microseconds, as Postgres keeps them. */
module RateLimit {
  import opened Wrappers

  const SECOND := 1_000_000

  datatype Hit = Hit(bucket: string, at: int)

  /** When a bucket was hit, in the order the hits were recorded. */
  function Times(hits: seq<Hit>, bucket: string): seq<int> {
    if hits == [] then []
    else
      var before, last := Times(hits[..|hits| - 1], bucket), hits[|hits| - 1];
      if last.bucket == bucket then before + [last.at] else before
  }

  function Later(times: seq<int>, cutoff: int): seq<int> {
    if times == [] then []
    else
      var before, last := Later(times[..|times| - 1], cutoff), times[|times| - 1];
      if last > cutoff then before + [last] else before
  }

  /** The hits `hit_at > now() - window` finds, where the cutoff is now - window. */
  function Recent(hits: seq<Hit>, bucket: string, cutoff: int): seq<int> {
    Later(Times(hits, bucket), cutoff)
  }

  function Min(times: seq<int>): (m: int)
    requires times != []
    ensures m in times && forall t | t in times :: m <= t
  {
    if |times| == 1 then times[0]
    else
      var rest := Min(times[..|times| - 1]);
      assert times == times[..|times| - 1] + [times[|times| - 1]];
      if times[|times| - 1] < rest then times[|times| - 1] else rest
  }

  function CeilSeconds(micros: int): int {
    (micros + SECOND - 1) / SECOND
  }

  function Pruned(hits: seq<Hit>, oldest: int): seq<Hit> {
    if hits == [] then []
    else
      var before, last := Pruned(hits[..|hits| - 1], oldest), hits[|hits| - 1];
      if last.at < oldest then before else before + [last]
  }

  predicate Allowed(hits: seq<Hit>, bucket: string, limit: nat, window: nat, now: int) {
    |Recent(hits, bucket, now - window)| < limit
  }

  function Recorded(hits: seq<Hit>, bucket: string, limit: nat, window: nat, now: int): seq<Hit> {
    if Allowed(hits, bucket, limit, window, now) then hits + [Hit(bucket, now)] else hits
  }

  /** The Retry-After of a refusal, at least one second. */
  function RetryAfter(hits: seq<Hit>, bucket: string, window: nat, now: int): (seconds: int)
    ensures seconds >= 1
  {
    var times := Recent(hits, bucket, now - window);
    if times == [] then 1
    else
      var seconds := CeilSeconds(window - (now - Min(times)));
      if seconds < 1 then 1 else seconds
  }

  lemma TimesOneMore(hits: seq<Hit>, hit: Hit, bucket: string)
    ensures Times(hits + [hit], bucket) ==
              if hit.bucket == bucket then Times(hits, bucket) + [hit.at] else Times(hits, bucket)
  {
    assert (hits + [hit])[..|hits|] == hits;
  }

  lemma LaterOneMore(times: seq<int>, t: int, cutoff: int)
    ensures Later(times + [t], cutoff) == if t > cutoff then Later(times, cutoff) + [t] else Later(times, cutoff)
  {
    assert (times + [t])[..|times|] == times;
  }

  lemma RecentOneMore(hits: seq<Hit>, hit: Hit, bucket: string, cutoff: int)
    ensures Recent(hits + [hit], bucket, cutoff)
         == Recent(hits, bucket, cutoff) + if hit.bucket == bucket && hit.at > cutoff then [hit.at] else []
  {
    TimesOneMore(hits, hit, bucket);
    LaterOneMore(Times(hits, bucket), hit.at, cutoff);
  }

  /** rate_limit_hits. `now` is the transaction's start time, which need not follow the order of the checks. */
  class HitsTable {
    var hits: seq<Hit>

    constructor ()
      ensures hits == []
    {
      hits := [];
    }

    method CountRecentHits(bucket: string, window: nat, now: int) returns (count: nat)
      ensures count == |Recent(hits, bucket, now - window)|
    {
      count := 0;
      for i := 0 to |hits|
        invariant count == |Recent(hits[..i], bucket, now - window)|
      {
        RecentOneMore(hits[..i], hits[i], bucket, now - window);
        assert hits[..i + 1] == hits[..i] + [hits[i]];
        if hits[i].bucket == bucket && hits[i].at > now - window {
          count := count + 1;
        }
      }
      assert hits[..|hits|] == hits;
    }

    method EarliestHitRetryAfter(bucket: string, window: nat, now: int) returns (seconds: Option<int>)
      ensures var times := Recent(hits, bucket, now - window);
              seconds == if times == [] then None else Some(CeilSeconds(window - (now - Min(times))))
    {
      var times := Recent(hits, bucket, now - window);
      if times == [] {
        return None;
      }
      seconds := Some(CeilSeconds(window - (now - Min(times))));
    }

    method RecordHit(bucket: string, now: int)
      modifies this
      ensures hits == old(hits) + [Hit(bucket, now)]
    {
      hits := hits + [Hit(bucket, now)];
    }

    method PruneHitsOlderThan(maxAge: nat, now: int)
      modifies this
      ensures hits == Pruned(old(hits), now - maxAge)
    {
      hits := Pruned(hits, now - maxAge);
    }

    /** One check under the bucket's advisory lock: count, then insert. */
    method Check(bucket: string, limit: nat, window: nat, now: int) returns (allowed: bool, retryAfter: int)
      modifies this
      ensures allowed == Allowed(old(hits), bucket, limit, window, now)
      ensures hits == Recorded(old(hits), bucket, limit, window, now)
      ensures retryAfter == if allowed then 0 else RetryAfter(old(hits), bucket, window, now)
    {
      var count := CountRecentHits(bucket, window, now);
      if count >= limit {
        var seconds := EarliestHitRetryAfter(bucket, window, now);
        return false, if seconds.Some? && seconds.value >= 1 then seconds.value else 1;
      }
      RecordHit(bucket, now);
      return true, 0;
    }
  }

  // ----- runs of checks and prunes

  datatype Step = Check(bucket: string, now: int) | Prune(now: int)

  /** `log` keeps every accepted hit, pruned or not. */
  datatype State = State(hits: seq<Hit>, log: seq<Hit>)

  function Apply(s: State, step: Step, limit: nat, window: nat, maxAge: nat): State {
    match step
    case Check(bucket, now) =>
      State(Recorded(s.hits, bucket, limit, window, now),
            if Allowed(s.hits, bucket, limit, window, now) then s.log + [Hit(bucket, now)] else s.log)
    case Prune(now) => State(Pruned(s.hits, now - maxAge), s.log)
  }

  function After(steps: seq<Step>, limit: nat, window: nat, maxAge: nat): State {
    if steps == [] then State([], [])
    else Apply(After(steps[..|steps| - 1], limit, window, maxAge), steps[|steps| - 1], limit, window, maxAge)
  }

  /** No prune deleted a hit after the cutoff. */
  predicate PrunesBefore(steps: seq<Step>, cutoff: int, maxAge: nat) {
    forall k | 0 <= k < |steps| :: steps[k].Prune? ==> steps[k].now - maxAge <= cutoff + 1
  }

  /** A check's transaction is older than no prune before it by more than maxAge - window. */
  predicate Timely(steps: seq<Step>, window: nat, maxAge: nat) {
    forall k | 0 <= k < |steps| :: steps[k].Check? ==> PrunesBefore(steps[..k], steps[k].now - window, maxAge)
  }

  function Within(times: seq<int>, start: int, end: int): nat {
    if times == [] then 0
    else
      var last := times[|times| - 1];
      Within(times[..|times| - 1], start, end) + if start <= last < end then 1 else 0
  }

  lemma {:induction false} PruneKeepsRecent(hits: seq<Hit>, bucket: string, oldest: int, cutoff: int)
    requires oldest <= cutoff + 1
    ensures Recent(Pruned(hits, oldest), bucket, cutoff) == Recent(hits, bucket, cutoff)
  {
    if hits != [] {
      var before, last := hits[..|hits| - 1], hits[|hits| - 1];
      assert before + [last] == hits;
      PruneKeepsRecent(before, bucket, oldest, cutoff);
      PruneOneMore(before, last, bucket, oldest, cutoff, hits);
    }
  }

  lemma PruneOneMore(hits: seq<Hit>, hit: Hit, bucket: string, oldest: int, cutoff: int, more: seq<Hit>)
    requires oldest <= cutoff + 1 && Recent(Pruned(hits, oldest), bucket, cutoff) == Recent(hits, bucket, cutoff)
    requires more == hits + [hit]
    ensures Recent(Pruned(more, oldest), bucket, cutoff) == Recent(more, bucket, cutoff)
  {
    RecentOneMore(hits, hit, bucket, cutoff);
    assert (hits + [hit])[..|hits|] == hits;
    if hit.at < oldest {
      assert Recent(hits, bucket, cutoff) + [] == Recent(hits, bucket, cutoff);
    } else {
      RecentOneMore(Pruned(hits, oldest), hit, bucket, cutoff);
    }
  }

  predicate CountsTheSame(hits: seq<Hit>, oldest: int, bucket: string, cutoff: int) {
    |Recent(Pruned(hits, oldest), bucket, cutoff)| == |Recent(hits, bucket, cutoff)|
  }

  /** Deleting what is older than `oldest` changes no count after `cutoff`, whatever the table
      holds, exactly when everything deleted is at or before the cutoff. */
  lemma PruneIsSafeExactly(bucket: string, oldest: int, cutoff: int)
    ensures (forall hits :: CountsTheSame(hits, oldest, bucket, cutoff)) <==> oldest <= cutoff + 1
  {
    if oldest <= cutoff + 1 {
      forall hits
        ensures CountsTheSame(hits, oldest, bucket, cutoff)
      {
        PruneKeepsRecent(hits, bucket, oldest, cutoff);
      }
    } else {
      var lost := Hit(bucket, cutoff + 1);
      RecentOneMore([], lost, bucket, cutoff);
      assert [] + [lost] == [lost] && Pruned([lost], oldest) == [];
      assert !CountsTheSame([lost], oldest, bucket, cutoff);
    }
  }

  lemma StepCountsLog(s: State, step: Step, limit: nat, window: nat, maxAge: nat, bucket: string, cutoff: int)
    requires Recent(s.hits, bucket, cutoff) == Recent(s.log, bucket, cutoff)
    requires step.Prune? ==> step.now - maxAge <= cutoff + 1
    ensures var t := Apply(s, step, limit, window, maxAge);
            Recent(t.hits, bucket, cutoff) == Recent(t.log, bucket, cutoff)
  {
    match step
    case Prune(now) => PruneKeepsRecent(s.hits, bucket, now - maxAge, cutoff);
    case Check(b, now) =>
      RecentOneMore(s.hits, Hit(b, now), bucket, cutoff);
      RecentOneMore(s.log, Hit(b, now), bucket, cutoff);
  }

  lemma {:induction false} TableCountsLog(steps: seq<Step>, limit: nat, window: nat, maxAge: nat, bucket: string,
        cutoff: int)
    requires PrunesBefore(steps, cutoff, maxAge)
    ensures var s := After(steps, limit, window, maxAge);
            Recent(s.hits, bucket, cutoff) == Recent(s.log, bucket, cutoff)
  {
    if steps != [] {
      var before := steps[..|steps| - 1];
      assert forall k | 0 <= k < |before| :: before[k] == steps[k];
      TableCountsLog(before, limit, window, maxAge, bucket, cutoff);
      StepCountsLog(After(before, limit, window, maxAge), steps[|steps| - 1], limit, window, maxAge, bucket, cutoff);
    }
  }

  lemma {:induction false} WithinIsLater(times: seq<int>, start: int, end: int, cutoff: int)
    requires cutoff < start
    ensures Within(times, start, end) <= |Later(times, cutoff)|
  {
    if times != [] {
      WithinIsLater(times[..|times| - 1], start, end, cutoff);
    }
  }

  lemma WithinOneMore(times: seq<int>, t: int, start: int, end: int)
    ensures Within(times + [t], start, end) == Within(times, start, end) + if start <= t < end then 1 else 0
  {
    assert (times + [t])[..|times|] == times;
  }

  /** What a step adds to a window it ends in was counted when it was let through. */
  lemma StepKeepsBound(s: State, step: Step, limit: nat, window: nat, maxAge: nat, bucket: string, start: int)
    requires Within(Times(s.log, bucket), start, start + window) <= limit
    requires step.Check? ==> Recent(s.hits, bucket, step.now - window) == Recent(s.log, bucket, step.now - window)
    ensures Within(Times(Apply(s, step, limit, window, maxAge).log, bucket), start, start + window) <= limit
  {
    if step.Check? {
      TimesOneMore(s.log, Hit(step.bucket, step.now), bucket);
      WithinOneMore(Times(s.log, bucket), step.now, start, start + window);
      if step.now < start + window {
        WithinIsLater(Times(s.log, bucket), start, start + window, step.now - window);
      }
    }
  }

  /** However the timestamps of the checks jump, no window of that length, wherever it starts, holds
      more than `limit` accepted hits of one bucket. */
  lemma {:induction false} WindowBound(steps: seq<Step>, limit: nat, window: nat, maxAge: nat, bucket: string,
        start: int)
    requires Timely(steps, window, maxAge)
    ensures Within(Times(After(steps, limit, window, maxAge).log, bucket), start, start + window) <= limit
  {
    if steps != [] {
      var before, last := steps[..|steps| - 1], steps[|steps| - 1];
      assert forall k | 0 <= k < |before| :: before[k] == steps[k] && before[..k] == steps[..k];
      WindowBound(before, limit, window, maxAge, bucket, start);
      if last.Check? {
        TableCountsLog(before, limit, window, maxAge, bucket, last.now - window);
      }
      StepKeepsBound(After(before, limit, window, maxAge), last, limit, window, maxAge, bucket, start);
    }
  }

  predicate Bounded(steps: seq<Step>, limit: nat, window: nat, maxAge: nat, bucket: string, start: int, length: int) {
    Within(Times(After(steps, limit, window, maxAge).log, bucket), start, start + length) <= limit
  }

  lemma {:induction false} WithinGrows(times: seq<int>, start: int, end: int, later: int)
    requires end <= later
    ensures Within(times, start, end) <= Within(times, start, later)
  {
    if times != [] {
      WithinGrows(times[..|times| - 1], start, end, later);
    }
  }

  /** `n` checks at time 0. */
  function Burst(bucket: string, n: nat): seq<Step> {
    if n == 0 then [] else Burst(bucket, n - 1) + [Check(bucket, 0)]
  }

  lemma {:induction false} LaterIsShorter(times: seq<int>, cutoff: int)
    ensures |Later(times, cutoff)| <= |times|
  {
    if times != [] {
      LaterIsShorter(times[..|times| - 1], cutoff);
    }
  }

  /** `n` hits of the bucket, all recorded at time 0. */
  predicate AllAtOnce(s: State, bucket: string, n: nat, end: int) {
    var times := Times(s.log, bucket);
    s.hits == s.log && |times| == n && Later(times, 0) == [] && Within(times, 0, end) == n
  }

  lemma BurstStep(s: State, bucket: string, n: nat, limit: nat, window: nat, maxAge: nat, end: int)
    requires AllAtOnce(s, bucket, n, end) && n < limit && end > 0
    ensures AllAtOnce(Apply(s, Check(bucket, 0), limit, window, maxAge), bucket, n + 1, end)
  {
    var times := Times(s.log, bucket);
    LaterIsShorter(times, (0 as int) - window);
    assert Allowed(s.hits, bucket, limit, window, 0);
    TimesOneMore(s.log, Hit(bucket, 0), bucket);
    LaterOneMore(times, 0, 0);
    WithinOneMore(times, 0, 0, end);
  }

  /** A burst up to the limit is let through. */
  lemma {:induction false} BurstPasses(bucket: string, n: nat, limit: nat, window: nat, maxAge: nat, end: int)
    requires n <= limit && end > 0
    ensures AllAtOnce(After(Burst(bucket, n), limit, window, maxAge), bucket, n, end)
  {
    if n > 0 {
      BurstPasses(bucket, n - 1, limit, window, maxAge, end);
      var steps := Burst(bucket, n);
      assert steps[..|steps| - 1] == Burst(bucket, n - 1);
      BurstStep(After(Burst(bucket, n - 1), limit, window, maxAge), bucket, n - 1, limit, window, maxAge, end);
    }
  }

  /** `limit` hits at once and one more exactly a window later, which does not see them. */
  lemma BurstAndOne(bucket: string, limit: nat, window: nat, maxAge: nat, length: int) returns (steps: seq<Step>)
    requires limit > 0 && length > window
    ensures Timely(steps, window, maxAge) && !Bounded(steps, limit, window, maxAge, bucket, 0, length)
  {
    var burst := Burst(bucket, limit);
    steps := burst + [Check(bucket, window)];
    NoPrunes(bucket, limit);
    assert forall k | 0 <= k < |steps| :: steps[k].Check?;
    assert steps[..|steps| - 1] == burst;
    BurstPasses(bucket, limit, limit, window, maxAge, length);
    var before := After(burst, limit, window, maxAge);
    TimesOneMore(before.log, Hit(bucket, window), bucket);
    WithinOneMore(Times(before.log, bucket), window, 0, length);
  }

  lemma {:induction false} NoPrunes(bucket: string, n: nat)
    ensures forall k | 0 <= k < |Burst(bucket, n)| :: Burst(bucket, n)[k].Check?
  {
    if n > 0 {
      NoPrunes(bucket, n - 1);
    }
  }

  /** The bound is that of the window and of nothing longer: stretches of a length hold at most
      `limit` hits, in every timely run and wherever they start, exactly up to the window's length. */
  lemma WindowIsExact(bucket: string, limit: nat, window: nat, maxAge: nat, length: int)
    requires limit > 0
    ensures length <= window
       <==> forall steps, start | Timely(steps, window, maxAge) ::
           Bounded(steps, limit, window, maxAge, bucket, start, length)
  {
    if length <= window {
      forall steps, start | Timely(steps, window, maxAge)
        ensures Bounded(steps, limit, window, maxAge, bucket, start, length)
      {
        WindowBound(steps, limit, window, maxAge, bucket, start);
        WithinGrows(Times(After(steps, limit, window, maxAge).log, bucket), start, start + length, start + window);
      }
    } else {
      var steps := BurstAndOne(bucket, limit, window, maxAge, length);
    }
  }

  // ----- retry_after

  lemma {:induction false} LaterShrinks(times: seq<int>, cutoff: int, next: int)
    requires cutoff <= next
    ensures forall t | t in Later(times, cutoff) :: t > cutoff
    ensures |Later(times, next)| <= |Later(times, cutoff)|
    ensures (exists t | t in Later(times, cutoff) :: t <= next) ==> |Later(times, next)| < |Later(times, cutoff)|
  {
    if times != [] {
      LaterShrinks(times[..|times| - 1], cutoff, next);
    }
  }

  /** retry_after is the least number of whole seconds that takes the earliest hit out of the window. */
  lemma RetryAfterIsExact(hits: seq<Hit>, bucket: string, window: nat, now: int)
    requires Recent(hits, bucket, now - window) != []
    ensures var earliest, seconds := Min(Recent(hits, bucket, now - window)), RetryAfter(hits, bucket, window, now);
            now + (seconds - 1) * 1_000_000 - window < earliest <= now + seconds * 1_000_000 - window
  {
    LaterShrinks(Times(hits, bucket), now - window, now - window);
  }

  /** Without a hit to wait for, which a limit of 0 refuses all the same, it is one second. */
  lemma NothingToWaitFor(hits: seq<Hit>, bucket: string, window: nat, now: int)
    requires Recent(hits, bucket, now - window) == []
    ensures RetryAfter(hits, bucket, window, now) == 1
  {
  }

  /** Waiting that long is enough when no more than `limit` hits were counted. */
  lemma RetryIsEnough(hits: seq<Hit>, bucket: string, limit: nat, window: nat, now: int, later: int)
    requires 0 < limit && |Recent(hits, bucket, now - window)| <= limit
    requires later >= now + RetryAfter(hits, bucket, window, now) * 1_000_000
    ensures Allowed(hits, bucket, limit, window, later)
  {
    LaterShrinks(Times(hits, bucket), now - window, later - window);
    if Recent(hits, bucket, now - window) != [] {
      RetryAfterIsExact(hits, bucket, window, now);
    }
  }

  predicate NoneAfter(steps: seq<Step>, now: int) {
    forall k | 0 <= k < |steps| :: steps[k].Check? ==> steps[k].now <= now
  }

  predicate AllBy(times: seq<int>, now: int) {
    forall i | 0 <= i < |times| :: times[i] <= now
  }

  lemma {:induction false} LogEndsBy(steps: seq<Step>, limit: nat, window: nat, maxAge: nat, bucket: string, now: int)
    requires NoneAfter(steps, now)
    ensures AllBy(Times(After(steps, limit, window, maxAge).log, bucket), now)
  {
    if steps != [] {
      var before, last := steps[..|steps| - 1], steps[|steps| - 1];
      assert forall k | 0 <= k < |before| :: before[k] == steps[k];
      LogEndsBy(before, limit, window, maxAge, bucket, now);
      LogEndsStep(After(before, limit, window, maxAge), last, limit, window, maxAge, bucket, now);
    }
  }

  lemma LogEndsStep(s: State, step: Step, limit: nat, window: nat, maxAge: nat, bucket: string, now: int)
    requires AllBy(Times(s.log, bucket), now) && (step.Check? ==> step.now <= now)
    ensures AllBy(Times(Apply(s, step, limit, window, maxAge).log, bucket), now)
  {
    if step.Check? {
      TimesOneMore(s.log, Hit(step.bucket, step.now), bucket);
    }
  }

  lemma {:induction false} LaterIsWithin(times: seq<int>, cutoff: int, now: int)
    requires AllBy(times, now)
    ensures |Later(times, cutoff)| == Within(times, cutoff + 1, now + 1)
  {
    if times != [] {
      LaterIsWithin(times[..|times| - 1], cutoff, now);
    }
  }

  lemma CountAtMostLimit(steps: seq<Step>, limit: nat, window: nat, maxAge: nat, bucket: string, now: int)
    requires Timely(steps, window, maxAge) && PrunesBefore(steps, now - window, maxAge) && NoneAfter(steps, now)
    ensures |Recent(After(steps, limit, window, maxAge).hits, bucket, now - window)| <= limit
  {
    var s := After(steps, limit, window, maxAge);
    TableCountsLog(steps, limit, window, maxAge, bucket, now - window);
    LogEndsBy(steps, limit, window, maxAge, bucket, now);
    LaterIsWithin(Times(s.log, bucket), now - window, now);
    WindowBound(steps, limit, window, maxAge, bucket, now - window + 1);
  }

  /** Over any run in which no check came from the future, a refused client that waits as long as
      it is told, with nothing let through meanwhile, is let through. */
  lemma WaitingIsEnough(steps: seq<Step>, limit: nat, window: nat, maxAge: nat, bucket: string, now: int, later: int)
    requires limit > 0 && Timely(steps, window, maxAge) && PrunesBefore(steps, now - window, maxAge)
               && NoneAfter(steps, now)
    requires var hits := After(steps, limit, window, maxAge).hits;
             later >= now + RetryAfter(hits, bucket, window, now) * 1_000_000
    ensures Allowed(After(steps, limit, window, maxAge).hits, bucket, limit, window, later)
  {
    CountAtMostLimit(steps, limit, window, maxAge, bucket, now);
    RetryIsEnough(After(steps, limit, window, maxAge).hits, bucket, limit, window, now, later);
  }
}
