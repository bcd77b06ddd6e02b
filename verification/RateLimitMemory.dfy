/** The process-local window (backend/app/services/auth/rate_limit.py), against the shared table. */
module RateLimitMemory {
  import opened RateLimit

  predicate InOrder(times: seq<int>, now: int) {
    (forall i, j | 0 <= i < j < |times| :: times[i] <= times[j]) && forall i | 0 <= i < |times| :: times[i] <= now
  }

  /** A deque misses only hits at or before the cutoff, from the left. */
  predicate HoldsAfter(deque: seq<int>, times: seq<int>, cutoff: int) {
    && |deque| <= |times| && deque == times[|times| - |deque|..]
    && forall i | 0 <= i < |times| - |deque| :: times[i] <= cutoff
  }

  function Deque(hits: map<string, seq<int>>, key: string): seq<int> {
    if key in hits then hits[key] else []
  }

  /** int(x) + 1 seconds, where Postgres rounds x up. */
  function MemoryRetryAfter(hits: seq<Hit>, bucket: string, window: nat, now: int): int {
    var times := Recent(hits, bucket, now - window);
    if times == [] then 1 else (window - (now - Min(times))) / SECOND + 1
  }

  class InMemoryWindow {
    const maxEvents: nat
    const window: nat
    var hits: map<string, seq<int>>
    /** What the same checks would have left in the table, and the time of the last one. */
    ghost var log: seq<Hit>
    ghost var clock: int

    ghost predicate Valid()
      reads this
    {
      maxEvents > 0 && AllHeld(hits, log, clock, window)
    }

    constructor (maxEvents: nat, window: nat, now: int)
      requires maxEvents > 0
      ensures Valid() && log == [] && clock == now && this.maxEvents == maxEvents && this.window == window
    {
      this.maxEvents, this.window, hits, log, clock := maxEvents, window, map[], [], now;
    }

    /** Drops the key's hits that left the window; what stays is what the table would count. */
    method Expire(key: string, now: int) returns (bucket: seq<int>)
      requires Valid() && now >= clock
      modifies this`hits, this`clock
      ensures Valid() && clock == now && bucket == Deque(hits, key) == Recent(log, key, now - window)
      ensures InOrder(Times(log, key), now)
    {
      assert Held(hits, log, key, clock, window);
      bucket := Trim(Deque(hits, key), now - window, Times(log, key));
      Trimmed(hits, log, clock, now, window, key, bucket);
      hits := hits[key := bucket];
      clock := now;
    }

    /** The decision the shared table would give on the same hits; time.monotonic() never goes back. */
    method Check(key: string, now: int) returns (allowed: bool, retryAfter: int)
      requires Valid() && now >= clock
      modifies this
      ensures Valid() && clock == now
      ensures allowed == Allowed(old(log), key, maxEvents, window, now)
      ensures log == Recorded(old(log), key, maxEvents, window, now)
      ensures retryAfter == if allowed then 0 else MemoryRetryAfter(old(log), key, window, now)
    {
      var bucket := Expire(key, now);
      if |bucket| >= maxEvents {
        FirstGivesRetry(log, key, window, now);
        var seconds := (window - (now - bucket[0])) / SECOND + 1;
        return false, if seconds >= 1 then seconds else 1;
      }
      Appended(hits, log, now, window, key, bucket);
      log := log + [Hit(key, now)];
      hits := hits[key := bucket + [now]];
      return true, 0;
    }
  }

  /** The key's deque holds, in order, the hits any later check can still count. */
  ghost predicate Held(hits: map<string, seq<int>>, log: seq<Hit>, key: string, now: int, window: nat) {
    InOrder(Times(log, key), now) && HoldsAfter(Deque(hits, key), Times(log, key), now - window)
  }

  /** Pops hits that left the window. */
  method Trim(deque: seq<int>, cutoff: int, ghost times: seq<int>) returns (bucket: seq<int>)
    requires HoldsAfter(deque, times, cutoff) && forall i, j | 0 <= i < j < |times| :: times[i] <= times[j]
    ensures HoldsAfter(bucket, times, cutoff) && bucket == Later(times, cutoff)
  {
    bucket := deque;
    while bucket != [] && bucket[0] <= cutoff
      invariant HoldsAfter(bucket, times, cutoff)
      decreases |bucket|
    {
      bucket := bucket[1..];
    }
    LaterIsSuffix(times, |times| - |bucket|, cutoff);
  }

  ghost predicate AllHeld(hits: map<string, seq<int>>, log: seq<Hit>, now: int, window: nat) {
    forall key: string :: Held(hits, log, key, now, window)
  }

  lemma Trimmed(hits: map<string, seq<int>>, log: seq<Hit>, clock: int, now: int, window: nat, key: string,
        bucket: seq<int>)
    requires now >= clock && AllHeld(hits, log, clock, window)
    requires HoldsAfter(bucket, Times(log, key), now - window)
    ensures AllHeld(hits[key := bucket], log, now, window)
  {
    var trimmed := hits[key := bucket];
    forall k: string
      ensures Held(trimmed, log, k, now, window)
    {
      assert Held(hits, log, k, clock, window);
    }
  }

  lemma Appended(hits: map<string, seq<int>>, log: seq<Hit>, now: int, window: nat, key: string, bucket: seq<int>)
    requires AllHeld(hits, log, now, window) && bucket == Deque(hits, key)
    ensures AllHeld(hits[key := bucket + [now]], log + [Hit(key, now)], now, window)
  {
    var longer, logged := hits[key := bucket + [now]], log + [Hit(key, now)];
    forall k: string
      ensures Held(longer, logged, k, now, window)
    {
      assert Held(hits, log, k, now, window);
      TimesOneMore(log, Hit(key, now), k);
      if k == key {
        HoldsOneMore(bucket, Times(log, key), now, window);
      }
    }
  }

  lemma HoldsOneMore(bucket: seq<int>, times: seq<int>, now: int, window: nat)
    requires InOrder(times, now) && HoldsAfter(bucket, times, now - window)
    ensures InOrder(times + [now], now) && HoldsAfter(bucket + [now], times + [now], now - window)
  {
  }

  lemma FirstGivesRetry(log: seq<Hit>, key: string, window: nat, now: int)
    requires Recent(log, key, now - window) != [] && InOrder(Times(log, key), now)
    ensures var bucket := Recent(log, key, now - window);
            MemoryRetryAfter(log, key, window, now) == (window - (now - bucket[0])) / SECOND + 1 >= 1
  {
    LaterInOrder(Times(log, key), now, now - window);
    LaterShrinks(Times(log, key), now - window, now - window);
    FirstIsMin(Recent(log, key, now - window));
    assert Recent(log, key, now - window)[0] in Recent(log, key, now - window);
  }

  lemma {:induction false} LaterInOrder(times: seq<int>, now: int, cutoff: int)
    requires InOrder(times, now)
    ensures InOrder(Later(times, cutoff), now)
    ensures forall t | t in Later(times, cutoff) :: t in times
  {
    if times != [] {
      var before, last := times[..|times| - 1], times[|times| - 1];
      LaterInOrder(before, now, cutoff);
      var kept := Later(before, cutoff);
      forall k | 0 <= k < |kept|
        ensures kept[k] <= last
      {
        assert kept[k] in kept;
        var i :| 0 <= i < |before| && before[i] == kept[k];
        assert times[i] <= times[|times| - 1];
      }
    }
  }

  lemma {:induction false} LaterIsSuffix(times: seq<int>, n: nat, cutoff: int)
    requires n <= |times|
    requires forall i | 0 <= i < n :: times[i] <= cutoff
    requires forall i | n <= i < |times| :: times[i] > cutoff
    ensures Later(times, cutoff) == times[n..]
  {
    if times != [] {
      if n < |times| {
        LaterIsSuffix(times[..|times| - 1], n, cutoff);
        assert times[n..] == times[..|times| - 1][n..] + [times[|times| - 1]];
      } else {
        LaterIsSuffix(times[..|times| - 1], n - 1, cutoff);
      }
    }
  }

  lemma FirstIsMin(times: seq<int>)
    requires times != [] && forall i, j | 0 <= i < j < |times| :: times[i] <= times[j]
    ensures Min(times) == times[0]
  {
    assert times[0] in times;
  }

  /** The two backends tell a client the same number of seconds, except that memory says one more
      exactly when the wait is a whole number of seconds. */
  lemma RetriesDiffer(hits: seq<Hit>, bucket: string, window: nat, now: int)
    requires Recent(hits, bucket, now - window) != []
    ensures var wait := window - (now - Min(Recent(hits, bucket, now - window)));
            MemoryRetryAfter(hits, bucket, window, now) ==
              RetryAfter(hits, bucket, window, now) + if wait % 1_000_000 == 0 then 1 else 0
  {
    LaterShrinks(Times(hits, bucket), now - window, now - window);
  }
}
