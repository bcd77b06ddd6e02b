/** The leader's loop (backend/app/workers/scheduler.py): when recurring jobs are enqueued and
    stalled ones reclaimed. Times are whole seconds of one clock. */
module LeaderCadence {
  import opened Wrappers

  const REAP_INTERVAL_SECONDS := 60

  /** A recurring job and its interval; the mailbox polls are the last of them. */
  datatype Recurring = Recurring(key: string, interval: nat)

  predicate Due(last: Option<int>, interval: nat, now: int) {
    last.None? || now - last.value >= interval
  }

  /** The times something fires at, of the times the loop ran: whenever it is due. */
  function Fires(ticks: seq<int>, last: Option<int>, interval: nat): seq<int> {
    if ticks == [] then []
    else
      var before, now := Fires(ticks[..|ticks| - 1], last, interval), ticks[|ticks| - 1];
      if Due(LastOf(before, last), interval, now) then before + [now] else before
  }

  function LastOf(times: seq<int>, last: Option<int>): Option<int> {
    if times == [] then last else Some(times[|times| - 1])
  }

  /** The first `n` of the lists with one more round each. */
  ghost function Extended(rounds: seq<seq<int>>, n: nat, now: int): seq<seq<int>> {
    seq(|rounds|, k requires 0 <= k < |rounds| => if k < n then rounds[k] + [now] else rounds[k])
  }

  /** The leader's state in one process. A round has one operation for each recurring job and then the
      reclaim; `rounds[k]` has the times of the rounds, as the leader, that got past operation k. */
  class Leader {
    const recurring: seq<Recurring>
    var last: map<string, int>
    var lastReap: int
    ghost var rounds: seq<seq<int>>

    ghost predicate Valid()
      reads this
    {
      && (forall i, j | 0 <= i < j < |recurring| :: recurring[i].key != recurring[j].key)
      && |rounds| == |recurring| + 1
      && (forall k | 0 <= k < |recurring| :: KeptUp(recurring[k], rounds[k]))
      && Some(lastReap) == LastOf(Fires(rounds[|recurring|], Some(0), REAP_INTERVAL_SECONDS), Some(0))
    }

    ghost predicate KeptUp(r: Recurring, ticks: seq<int>)
      reads this`last
    {
      LastFor(r.key) == LastOf(Fires(ticks, None, r.interval), None)
    }

    function LastFor(key: string): Option<int>
      reads this`last
    {
      if key in last then Some(last[key]) else None
    }

    ghost predicate IsDue(k: nat, now: int)
      requires k <= |recurring|
      reads this
    {
      if k < |recurring| then Due(LastFor(recurring[k].key), recurring[k].interval, now)
      else Due(Some(lastReap), REAP_INTERVAL_SECONDS, now)
    }

    /** How many operations a round completes whose operation number `raises`, if due, raises. */
    ghost function Completed(now: int, raises: nat): (n: nat)
      reads this
      ensures n <= |recurring| + 1
    {
      if raises <= |recurring| && IsDue(raises, now) then raises else |recurring| + 1
    }

    constructor (recurring: seq<Recurring>)
      requires forall i, j | 0 <= i < j < |recurring| :: recurring[i].key != recurring[j].key
      ensures Valid() && rounds == seq(|recurring| + 1, _ => []) && this.recurring == recurring
    {
      this.recurring, last, lastReap, rounds := recurring, map[], 0, seq(|recurring| + 1, _ => []);
    }

    /** The recurring jobs of one round, until one raises. */
    method EnqueueDue(now: int, raises: nat) returns (enqueued: seq<string>, done: nat)
      requires Valid()
      modifies this`last
      ensures done == if old(Completed(now, raises)) < |recurring| then raises else |recurring|
      ensures forall k | 0 <= k < done ::
                Fired(recurring[k], old(LastFor(recurring[k].key)), now, recurring[k].key in enqueued)
      ensures forall k | done <= k < |recurring| ::
                LastFor(recurring[k].key) == old(LastFor(recurring[k].key)) && recurring[k].key !in enqueued
    {
      enqueued := [];
      for i := 0 to |recurring|
        invariant raises < i ==> !old(IsDue(raises, now))
        invariant forall k | i <= k < |recurring| ::
                    LastFor(recurring[k].key) == old(LastFor(recurring[k].key)) && recurring[k].key !in enqueued
        invariant forall k | 0 <= k < i ::
                    Fired(recurring[k], old(LastFor(recurring[k].key)), now, recurring[k].key in enqueued)
      {
        var r := recurring[i];
        if Due(LastFor(r.key), r.interval, now) {
          if i == raises {
            return enqueued, i;
          }
          enqueued := enqueued + [r.key];
          last := last[r.key := now];
        }
      }
      done := |recurring|;
    }

    /** One round as the leader: enqueues what is due, in order, and reclaims when due. */
    method Tick(now: int, raises: nat) returns (enqueued: seq<string>, reaped: bool, failed: bool)
      requires Valid()
      modifies this
      ensures Valid() && rounds == Extended(old(rounds), old(Completed(now, raises)), now)
      ensures forall k | 0 <= k < |recurring| ::
                recurring[k].key in enqueued <==> k < old(Completed(now, raises)) && old(IsDue(k, now))
      ensures reaped <==> !failed && old(IsDue(|recurring|, now))
      ensures failed <==> old(Completed(now, raises)) <= |recurring|
    {
      var done;
      enqueued, done := EnqueueDue(now, raises);
      reaped, failed := false, done < |recurring|;
      if !failed && Due(Some(lastReap), REAP_INTERVAL_SECONDS, now) {
        if raises == |recurring| {
          failed := true;
        } else {
          lastReap, reaped := now, true;
        }
      }
      rounds := Extended(rounds, if failed then done else |recurring| + 1, now);
      forall k | 0 <= k < |recurring|
        ensures KeptUp(recurring[k], rounds[k])
      {
        FiresOneMore(old(rounds[k]), now, None, recurring[k].interval);
        assert old(KeptUp(recurring[k], rounds[k]));
      }
      FiresOneMore(old(rounds[|recurring|]), now, Some(0), REAP_INTERVAL_SECONDS);
    }

    ghost predicate Fired(r: Recurring, was: Option<int>, now: int, enqueued: bool)
      reads this`last
    {
      && (enqueued <==> Due(was, r.interval, now))
      && LastFor(r.key) == if enqueued then Some(now) else was
    }
  }

  lemma FiresOneMore(ticks: seq<int>, now: int, last: Option<int>, interval: nat)
    ensures var before := Fires(ticks, last, interval);
            Fires(ticks + [now], last, interval) ==
                if Due(LastOf(before, last), interval, now) then before + [now] else before
  {
    assert (ticks + [now])[..|ticks|] == ticks;
  }

  // ----- how often and how soon

  /** Two firings are never closer than the interval. */
  lemma {:induction false} FiresAreSpaced(ticks: seq<int>, last: Option<int>, interval: nat, i: nat, j: nat)
    requires i < j < |Fires(ticks, last, interval)|
    ensures Fires(ticks, last, interval)[j] - Fires(ticks, last, interval)[i] >= interval
    decreases |ticks|
  {
    var before := Fires(ticks[..|ticks| - 1], last, interval);
    if j < |before| {
      FiresAreSpaced(ticks[..|ticks| - 1], last, interval, i, j);
    } else if i < |before| - 1 {
      FiresAreSpaced(ticks[..|ticks| - 1], last, interval, i, |before| - 1);
    }
  }

  /** After every round of the leader, the last firing is less than an interval old. */
  lemma FiresAreFresh(ticks: seq<int>, last: Option<int>, interval: nat)
    requires ticks != [] && interval > 0
    ensures var newest := LastOf(Fires(ticks, last, interval), last);
            newest.Some? && ticks[|ticks| - 1] - newest.value < interval
  {
  }

  lemma {:induction false} FiresAreTicks(ticks: seq<int>, last: Option<int>, interval: nat)
    ensures forall t | t in Fires(ticks, last, interval) :: t in ticks
  {
    if ticks != [] {
      FiresAreTicks(ticks[..|ticks| - 1], last, interval);
    }
  }

  /** The rounds come one after another, at most `gap` apart. */
  ghost predicate Ticking(ticks: seq<int>, gap: nat) {
    && (forall i, j | 0 <= i < j < |ticks| :: ticks[i] <= ticks[j])
    && (forall i, j | 0 <= i < j < |ticks| && j == i + 1 :: ticks[j] - ticks[i] <= gap)
  }

  /** A leader that keeps ticking passes through every stretch of `gap` seconds it lives to see. */
  lemma {:induction false} TickInside(ticks: seq<int>, gap: nat, start: int) returns (k: nat)
    requires Ticking(ticks, gap) && ticks != [] && ticks[0] <= start < ticks[|ticks| - 1]
    ensures k < |ticks| && start < ticks[k] <= start + gap
    decreases |ticks|
  {
    var n := |ticks| - 1;
    if ticks[n - 1] <= start {
      k := n;
    } else {
      k := TickInside(ticks[..n], gap, start);
    }
  }

  lemma FreshReap(ticks: seq<int>, lastReap: int, since: int) returns (r: int)
    requires ticks != [] && lastReap <= since && since + REAP_INTERVAL_SECONDS < ticks[|ticks| - 1]
    ensures r in Fires(ticks, Some(lastReap), REAP_INTERVAL_SECONDS) && r > since
  {
    FiresAreFresh(ticks, Some(lastReap), REAP_INTERVAL_SECONDS);
    var fires := Fires(ticks, Some(lastReap), REAP_INTERVAL_SECONDS);
    r := fires[|fires| - 1];
  }

  lemma InPrefix<T>(a: seq<T>, b: seq<T>, x: T)
    requires a <= b && x in a
    ensures x in b
  {
  }

  /** A row whose worker died is stale from `stale` seconds after its claim on; a reclaim follows
      within the reap interval and one gap between rounds. */
  lemma StaleRowsAreReaped(ticks: seq<int>, gap: nat, lastReap: int, lockedAt: int, stale: nat) returns (r: int)
    requires Ticking(ticks, gap) && ticks != []
               && ticks[0] <= lockedAt + stale + REAP_INTERVAL_SECONDS < ticks[|ticks| - 1]
    requires lastReap <= lockedAt + stale
    ensures r in Fires(ticks, Some(lastReap), REAP_INTERVAL_SECONDS)
    ensures lockedAt + stale < r <= lockedAt + stale + 60 + gap
  {
    var k := TickInside(ticks, gap, lockedAt + stale + REAP_INTERVAL_SECONDS);
    r := FreshReap(ticks[..k + 1], lastReap, lockedAt + stale);
    FiresAreTicks(ticks[..k + 1], Some(lastReap), REAP_INTERVAL_SECONDS);
    var i :| 0 <= i <= k && ticks[i] == r;
    FiresGrow(ticks, k + 1, Some(lastReap), REAP_INTERVAL_SECONDS);
    InPrefix(Fires(ticks[..k + 1], Some(lastReap), REAP_INTERVAL_SECONDS),
        Fires(ticks, Some(lastReap), REAP_INTERVAL_SECONDS), r);
  }

  lemma {:induction false} FiresGrow(ticks: seq<int>, n: nat, last: Option<int>, interval: nat)
    requires n <= |ticks|
    ensures Fires(ticks[..n], last, interval) <= Fires(ticks, last, interval)
    decreases |ticks|
  {
    if n < |ticks| {
      FiresGrow(ticks[..|ticks| - 1], n, last, interval);
      assert ticks[..|ticks| - 1][..n] == ticks[..n];
    } else {
      assert ticks[..n] == ticks;
    }
  }
}
