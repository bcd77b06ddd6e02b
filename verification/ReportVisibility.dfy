/** Which reports count after any sequence of emails and setting changes. */
module ReportVisibility {
  import opened Wrappers
  import opened ReportTrust
  import opened ReportTypes

  /** The key shows up in the statistics: a copy is stored that did not fail the check (NULL counts). */
  ghost predicate Visible(s: State, key: Key) {
    exists i | i in s.tables.reports :: s.tables.reports[i].key == key && s.tables.reports[i].verified != Some(false)
  }

  // ----- what a step can take away

  /** An email never displaces a copy that counts or was not checked: a stored row goes only when
      it had failed and a verified copy of its key arrives, which is then the stored one. */
  lemma OnlyFailedCopiesGo(s: State, step: Step, i: ReportId)
    requires Inv(s) && Enabled(s, step) && i in s.tables.reports
    ensures var t, was := Apply(s, step), s.tables.reports[i];
            if i in t.tables.reports then
              t.tables.reports[i].key == was.key && t.tables.reports[i].facts == was.facts
            else
              && step.Arrive? && step.key == was.key && was.verified == Some(false)
              && step.id in t.tables.reports && t.tables.reports[step.id] == Report(was.key, step.facts, Some(true))
  {
    if step.Arrive? && i !in Apply(s, step).tables.reports {
      assert forall j | j in s.tables.reports && j != i :: s.tables.reports[j].key != step.key;
    }
  }

  // ----- a fixed mode: which of the copies of one key is stored

  predicate Arrivals(steps: seq<Step>) {
    forall k | 0 <= k < |steps| :: steps[k].Arrive?
  }

  function Copies(steps: seq<Step>, key: Key): seq<Step>
    requires Arrivals(steps)
  {
    if steps == [] then []
    else
      var last := steps[|steps| - 1];
      Copies(steps[..|steps| - 1], key) + if last.key == key then [last] else []
  }

  predicate Passes(mode: Mode, copy: Step) {
    copy.Arrive? && Decide(mode, copy.facts) == Some(true)
  }

  /** The first copy, unless it failed and some copy passed: then the first that passed. */
  ghost predicate IsKept(mode: Mode, copies: seq<Step>, k: nat) {
    && k < |copies| && copies[k].Arrive? && copies[0].Arrive?
    && if Decide(mode, copies[0].facts) == Some(false) && (exists j | 0 <= j < |copies| :: Passes(mode, copies[j]))
       then Passes(mode, copies[k]) && forall j | 0 <= j < k :: !Passes(mode, copies[j])
       else k == 0
  }

  /** What is stored for `key` after its copies arrived. */
  ghost predicate Stores(s: State, key: Key, copies: seq<Step>) {
    if copies == [] then !KeyStored(s.tables, key)
    else
      exists k: nat | k < |copies| ::
        && IsKept(s.mode, copies, k)
        && copies[k].id in s.tables.reports
        && s.tables.reports[copies[k].id] == Report(key, copies[k].facts, Decide(s.mode, copies[k].facts))
  }

  lemma OtherKeyStays(s: State, step: Step, key: Key, copies: seq<Step>)
    requires Inv(s) && Enabled(s, step) && step.Arrive? && step.key != key && Stores(s, key, copies)
    ensures Stores(Apply(s, step), key, copies)
  {
    var t := Apply(s, step);
    assert forall i | i in s.tables.reports && s.tables.reports[i].key == key ::
        i in t.tables.reports && t.tables.reports[i] == s.tables.reports[i];
  }

  lemma KeptWithOneMore(mode: Mode, copies: seq<Step>, k: nat, copy: Step)
    requires Arrivals(copies) && IsKept(mode, copies, k) && copy.Arrive?
    ensures var replaced := Decide(mode, copies[k].facts) == Some(false) && Passes(mode, copy);
            IsKept(mode, copies + [copy], if replaced then |copies| else k)
  {
    var more := copies + [copy];
    assert more[|copies|] == copy && forall j | 0 <= j < |copies| :: more[j] == copies[j];
    if j :| 0 <= j < |copies| && Passes(mode, copies[j]) {
      assert Passes(mode, more[j]);
    }
  }

  lemma FirstCopy(s: State, step: Step)
    requires Inv(s) && Enabled(s, step) && step.Arrive? && !KeyStored(s.tables, step.key)
    ensures Stores(Apply(s, step), step.key, [step])
  {
    var t := Apply(s, step);
    assert t.tables.reports[step.id] == Report(step.key, step.facts, Decide(s.mode, step.facts));
    assert IsKept(t.mode, [step], 0) by {
      assert [step][0] == step;
    }
    assert [step][0].id in t.tables.reports;
  }

  lemma OneMoreCopy(s: State, step: Step, copies: seq<Step>)
    requires Inv(s) && Enabled(s, step) && step.Arrive? && copies != [] && Arrivals(copies)
               && Stores(s, step.key, copies)
    ensures Stores(Apply(s, step), step.key, copies + [step])
  {
    var t := Apply(s, step);
    var k: nat :| k < |copies| && IsKept(s.mode, copies, k) && copies[k].id in s.tables.reports
                  && s.tables.reports[copies[k].id]
                      == Report(step.key, copies[k].facts, Decide(s.mode, copies[k].facts));
    KeptWithOneMore(s.mode, copies, k, step);
    var replaced := Decide(s.mode, copies[k].facts) == Some(false) && Passes(s.mode, step);
    var more := copies + [step];
    var n: nat := if replaced then |copies| else k;
    assert more[n] == if replaced then step else copies[k];
    if replaced {
      OnlyFailedCopiesGo(s, step, copies[k].id);
      assert !KeyStored(WithoutUnverified(s.tables, step.key), step.key) by {
        assert forall i | i in s.tables.reports && i != copies[k].id :: s.tables.reports[i].key != step.key;
      }
    } else {
      StoredKeyWins(s, step, copies[k].id);
    }
    assert IsKept(t.mode, more, n) && more[n].id in t.tables.reports;
  }

  lemma StoredKeyWins(s: State, step: Step, i: ReportId)
    requires Inv(s) && Enabled(s, step) && step.Arrive? && i in s.tables.reports && s.tables.reports[i].key == step.key
    requires s.tables.reports[i].verified != Some(false) || !Passes(s.mode, step)
    ensures i in Apply(s, step).tables.reports && Apply(s, step).tables.reports[i] == s.tables.reports[i]
  {
    var cleared := if Passes(s.mode, step) then WithoutUnverified(s.tables, step.key) else s.tables;
    assert i in cleared.reports && KeyStored(cleared, step.key);
  }

  lemma {:induction false} CopiesArrive(steps: seq<Step>, key: Key)
    requires Arrivals(steps)
    ensures Arrivals(Copies(steps, key))
    ensures forall k | 0 <= k < |Copies(steps, key)| :: Copies(steps, key)[k].key == key
    ensures forall copy :: copy in Copies(steps, key) <==> copy in steps && copy.key == key
  {
    if steps != [] {
      var before, last := steps[..|steps| - 1], steps[|steps| - 1];
      CopiesArrive(before, key);
      assert steps == before + [last];
    }
  }

  lemma {:induction false} ModeStays(s: State, steps: seq<Step>)
    requires Arrivals(steps)
    ensures After(s, steps).mode == s.mode
  {
    if steps != [] {
      ModeStays(s, steps[..|steps| - 1]);
    }
  }

  /** For every key, after any emails under one mode: exactly one of its copies is stored, the
      first one or, if that failed, the first that passed. */
  lemma {:induction false} StoredCopyIsKept(mode: Mode, steps: seq<Step>, key: Key)
    requires IsRun(Empty(mode), steps) && Arrivals(steps)
    ensures Stores(After(Empty(mode), steps), key, Copies(steps, key))
  {
    if steps != [] {
      var before, last := steps[..|steps| - 1], steps[|steps| - 1];
      var s := After(Empty(mode), before);
      StoredCopyIsKept(mode, before, key);
      StoreIsConsistent(mode, before);
      CopiesArrive(before, key);
      if last.key != key {
        OtherKeyStays(s, last, key, Copies(before, key));
        assert Copies(steps, key) == Copies(before, key);
      } else if Copies(before, key) == [] {
        FirstCopy(s, last);
        assert Copies(steps, key) == [last];
      } else {
        OneMoreCopy(s, last, Copies(before, key));
      }
    }
  }

  /** Exactly when a key counts: some copy passed, or the first to arrive was not checked. */
  lemma VisibleExactly(mode: Mode, steps: seq<Step>, key: Key)
    requires IsRun(Empty(mode), steps) && Arrivals(steps)
    ensures var copies := Copies(steps, key);
            Visible(After(Empty(mode), steps), key) <==>
              ((exists j | 0 <= j < |copies| :: Passes(mode, copies[j]))
               || (copies != [] && copies[0].Arrive? && copies[0].facts.origin.None?))
  {
    var copies, s := Copies(steps, key), After(Empty(mode), steps);
    StoredCopyIsKept(mode, steps, key);
    StoreIsConsistent(mode, steps);
    ModeStays(Empty(mode), steps);
    CopiesArrive(steps, key);
    if copies != [] {
      var k: nat :| k < |copies| && IsKept(mode, copies, k) && copies[k].id in s.tables.reports
                    && s.tables.reports[copies[k].id] == Report(key, copies[k].facts, Decide(mode, copies[k].facts));
      KeptPasses(mode, copies, k);
      assert forall i | i in s.tables.reports && s.tables.reports[i].key == key :: i == copies[k].id;
      assert Visible(s, key) <==> Decide(mode, copies[k].facts) != Some(false);
    }
  }

  lemma KeptPasses(mode: Mode, copies: seq<Step>, k: nat)
    requires Arrivals(copies) && IsKept(mode, copies, k)
    ensures Decide(mode, copies[k].facts) != Some(false)
        <==> (exists j | 0 <= j < |copies| :: Passes(mode, copies[j])) || copies[0].facts.origin.None?
  {
    if Decide(mode, copies[0].facts) == Some(true) {
      assert Passes(mode, copies[0]);
    }
  }

  /** The order of arrival does not matter where every email was checked. */
  lemma OrderDoesNotMatter(mode: Mode, a: seq<Step>, b: seq<Step>, key: Key)
    requires IsRun(Empty(mode), a) && IsRun(Empty(mode), b) && Arrivals(a) && Arrivals(b)
    requires forall step :: step in a <==> step in b
    requires forall step | step in a && step.key == key :: step.facts.origin.Some?
    ensures Visible(After(Empty(mode), a), key) <==> Visible(After(Empty(mode), b), key)
  {
    VisibleExactly(mode, a, key);
    VisibleExactly(mode, b, key);
    SamePassing(mode, a, b, key);
    SamePassing(mode, b, a, key);
    CopiesArrive(a, key);
    CopiesArrive(b, key);
    assert Copies(a, key) != [] ==> Copies(a, key)[0] in a;
    assert Copies(b, key) != [] ==> Copies(b, key)[0] in b;
  }

  lemma SamePassing(mode: Mode, a: seq<Step>, b: seq<Step>, key: Key)
    requires Arrivals(a) && Arrivals(b) && forall step :: step in a <==> step in b
    ensures (exists j | 0 <= j < |Copies(a, key)| :: Passes(mode, Copies(a, key)[j]))
        ==> (exists j | 0 <= j < |Copies(b, key)| :: Passes(mode, Copies(b, key)[j]))
  {
    if j :| 0 <= j < |Copies(a, key)| && Passes(mode, Copies(a, key)[j]) {
      CopiesArrive(a, key);
      CopiesArrive(b, key);
      assert Copies(a, key)[j] in Copies(b, key);
    }
  }

  // ----- changing the mode

  /** A change and its reverse restore every flag: nothing is lost by trying a mode out. */
  lemma ModeChangeIsReversible(s: State, mode: Mode)
    requires Inv(s)
    ensures Apply(Apply(s, SetMode(mode)), SetMode(s.mode)) == s
  {
    if mode != s.mode {
      var back := Rechecked(Rechecked(s.tables, mode), s.mode);
      assert forall r | r in s.tables.records :: RecordOk(s, r);
      assert back.reports == s.tables.reports;
      assert back.records == s.tables.records;
    }
  }

  /** Applying the current mode again would change nothing, so skipping it is right. */
  lemma SameModeIsNoChange(s: State)
    requires Inv(s)
    ensures Rechecked(s.tables, s.mode) == s.tables
  {
    assert forall r | r in s.tables.records :: RecordOk(s, r);
    assert Rechecked(s.tables, s.mode).reports == s.tables.reports;
    assert Rechecked(s.tables, s.mode).records == s.tables.records;
  }

  /** A mode change keeps every visible key visible, in every store, exactly when it does not tighten. */
  lemma RelaxingKeepsVisible(m: Mode, n: Mode)
    ensures (forall s, key | Inv(s) && s.mode == m && Visible(s, key) :: Visible(Apply(s, SetMode(n)), key))
       <==> Strictness(n) <= Strictness(m)
  {
    StricterCountsLess(m, n);
    if Strictness(n) <= Strictness(m) {
      forall s, key | Inv(s) && s.mode == m && Visible(s, key)
        ensures Visible(Apply(s, SetMode(n)), key)
      {
        var i :| i in s.tables.reports && s.tables.reports[i].key == key && s.tables.reports[i].verified != Some(false);
        assert n != m ==> Apply(s, SetMode(n)).tables.reports[i].verified == Decide(n, s.tables.reports[i].facts);
      }
    } else {
      var f :| Decide(m, f) == Some(true) && Decide(n, f) != Some(true);
      var s, key := OneReport(m, f);
      assert Inv(s) && Visible(s, key);
      var t := Apply(s, SetMode(n));
      assert forall i | i in t.tables.reports :: i in s.tables.reports && t.tables.reports[i].verified == Decide(n, f);
      assert !Visible(t, key);
    }
  }

  lemma OneReport(mode: Mode, f: Facts) returns (s: State, key: Key)
    requires Decide(mode, f) == Some(true)
    ensures Inv(s) && s.mode == mode && Visible(s, key)
    ensures forall i | i in s.tables.reports :: s.tables.reports[i].facts == f
  {
    key := Key("org", "1", "example.com");
    s := State(mode, Tables(map[ReportId(0) := Report(key, f, Some(true))], map[]), map[ReportId(0) := map[]]);
    assert s.tables.reports[ReportId(0)].key == key;
  }

  lemma OneMore(s: State, steps: seq<Step>, step: Step)
    requires IsRun(s, steps) && Enabled(After(s, steps), step)
    ensures IsRun(s, steps + [step]) && After(s, steps + [step]) == Apply(After(s, steps), step)
  {
    var more := steps + [step];
    assert more[..|more| - 1] == steps;
  }

  /** What a key shows after a change of mode: its kept copy, under the new mode. */
  lemma VisibleAfterChange(m: Mode, n: Mode, steps: seq<Step>, key: Key)
    requires IsRun(Empty(m), steps) && Arrivals(steps)
    ensures var copies := Copies(steps, key);
            Visible(Apply(After(Empty(m), steps), SetMode(n)), key) <==>
              exists k: nat | k < |copies| :: IsKept(m, copies, k) && Decide(n, copies[k].facts) != Some(false)
  {
    var copies, s := Copies(steps, key), After(Empty(m), steps);
    var t := Apply(s, SetMode(n));
    StoredCopyIsKept(m, steps, key);
    StoreIsConsistent(m, steps);
    ModeStays(Empty(m), steps);
    assert forall i :: i in t.tables.reports <==> i in s.tables.reports;
    assert forall i | i in t.tables.reports ::
        t.tables.reports[i].key == s.tables.reports[i].key
            && t.tables.reports[i].verified == Decide(n, s.tables.reports[i].facts);
    if copies != [] {
      var k: nat :| k < |copies| && IsKept(m, copies, k) && copies[k].id in s.tables.reports
                    && s.tables.reports[copies[k].id] == Report(key, copies[k].facts, Decide(m, copies[k].facts));
      assert forall i | i in s.tables.reports && s.tables.reports[i].key == key :: i == copies[k].id;
      forall j: nat | j < |copies| && IsKept(m, copies, j)
        ensures j == k
      {
        KeptOnce(m, copies, j, k);
      }
    }
  }

  lemma KeptOnce(mode: Mode, copies: seq<Step>, j: nat, k: nat)
    requires IsKept(mode, copies, j) && IsKept(mode, copies, k)
    ensures j == k
  {
  }

  /** A copy the mode counts has arrived under the key. */
  ghost predicate GenuineArrived(mode: Mode, steps: seq<Step>, key: Key)
    requires Arrivals(steps)
  {
    exists j | 0 <= j < |Copies(steps, key)| :: Passes(mode, Copies(steps, key)[j])
  }

  /** Whatever arrived under m: after changing to n, a key counts if n counts one of its copies. */
  ghost predicate GenuineSurvive(m: Mode, n: Mode) {
    forall steps, key | IsRun(Empty(m), steps) && Arrivals(steps) ::
      GenuineArrived(n, steps, key) ==> Visible(Apply(After(Empty(m), steps), SetMode(n)), key)
  }

  /** Two copies arrive: the first stays unless it failed and the second passed. */
  lemma FirstOfTwo(m: Mode, a: Step, b: Step)
    requires a.Arrive? && b.Arrive? && a.key == b.key && a.id != b.id && a.rows == b.rows == map[]
    requires Decide(m, a.facts) != Some(false) || Decide(m, b.facts) != Some(true)
    ensures IsRun(Empty(m), [a, b]) && Arrivals([a, b])
    ensures After(Empty(m), [a, b]).mode == m
    ensures After(Empty(m), [a, b]).tables.reports == map[a.id := Report(a.key, a.facts, Decide(m, a.facts))]
  {
    OneMore(Empty(m), [], a);
    assert [] + [a] == [a] && [a] + [b] == [a, b];
    var s := After(Empty(m), [a]);
    assert s.tables.reports == map[a.id := Report(a.key, a.facts, Decide(m, a.facts))];
    OneMore(Empty(m), [a], b);
    assert s.tables.reports[a.id].key == b.key;
    StoreIsConsistent(m, [a]);
    StoredKeyWins(s, b, a.id);
  }

  /** One run that loses a genuine copy: m stores the first of two, n counts only the second. */
  lemma FirstOfTwoHides(m: Mode, n: Mode, first: Facts, second: Facts)
    requires m != n && (Decide(m, first) != Some(false) || Decide(m, second) != Some(true))
    requires Decide(n, first) == Some(false) && Decide(n, second) == Some(true)
    ensures !GenuineSurvive(m, n)
  {
    var key := Key("org", "1", "example.com");
    var a, b := Arrive(ReportId(0), key, first, map[]), Arrive(ReportId(1), key, second, map[]);
    FirstOfTwo(m, a, b);
    CopiesArrive([a, b], key);
    var copies := Copies([a, b], key);
    assert b in copies;
    var j :| 0 <= j < |copies| && copies[j] == b;
    assert Passes(n, copies[j]) && GenuineArrived(n, [a, b], key);
    var t := Apply(After(Empty(m), [a, b]), SetMode(n));
    assert forall i | i in t.tables.reports :: i == a.id && t.tables.reports[i].verified == Some(false);
    assert !Visible(t, key);
  }

  /** No genuine copy is ever lost by a change from m to n exactly when it is no change, or turns
      the check off. Every other change, relaxing ones too, loses one: what m stored first n leaves
      out, and the copy n would count was turned away as its duplicate. */
  lemma GenuineSurviveExactly(m: Mode, n: Mode)
    ensures GenuineSurvive(m, n) <==> n == m || n == Off
  {
    if n == m || n == Off {
      forall steps, key | IsRun(Empty(m), steps) && Arrivals(steps) && GenuineArrived(n, steps, key)
        ensures Visible(Apply(After(Empty(m), steps), SetMode(n)), key)
      {
        KeptCounts(m, n, steps, key);
      }
    } else {
      var failed := Facts(Some("external"), Some("fail"), None);
      var untested := Facts(Some("external"), Some("none"), None);
      var passed := Facts(Some("external"), Some("pass"), None);
      if m == Strict {
        FirstOfTwoHides(m, n, failed, untested);
      } else if m == Standard {
        FirstOfTwoHides(m, n, untested, passed);
      } else {
        FirstOfTwoHides(m, n, failed, passed);
      }
    }
  }

  lemma KeptCounts(m: Mode, n: Mode, steps: seq<Step>, key: Key)
    requires n == m || n == Off
    requires IsRun(Empty(m), steps) && Arrivals(steps) && GenuineArrived(n, steps, key)
    ensures Visible(Apply(After(Empty(m), steps), SetMode(n)), key)
  {
    var copies := Copies(steps, key);
    VisibleAfterChange(m, n, steps, key);
    StoredCopyIsKept(m, steps, key);
    ModeStays(Empty(m), steps);
    CopiesArrive(steps, key);
    var k: nat :| k < |copies| && IsKept(m, copies, k);
    if n == m {
      KeptPasses(m, copies, k);
    }
    assert exists j: nat | j < |copies| :: IsKept(m, copies, j) && Decide(n, copies[j].facts) != Some(false) by {
      assert Decide(n, copies[k].facts) != Some(false);
    }
  }
}
