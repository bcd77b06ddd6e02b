/** Which copy of a report is stored, and which stored reports count
    (backend/app/services/ingestion/sender_auth.py, backend/app/services/ingestion/report_writer.py,
    backend/app/repositories/dmarc_reports.py). */
module ReportTrust {
  import opened ReportTypes
  import opened Wrappers

  // ----- the rule, once in Python and once in SQL

  datatype Mode = Off | Standard | Strict

  /** What the mailbox said about the email; no origin means it was never checked. */
  datatype Facts = Facts(origin: Option<string>, dmarc: Option<string>, matchesReporter: Option<bool>)

  predicate Passing(dmarc: string) {
    dmarc == "pass" || dmarc == "bestguesspass"
  }

  /** Counted, left out, or not checked. */
  function Decide(mode: Mode, f: Facts): Option<bool> {
    if f.origin.None? then None
    else if mode == Off then Some(true)
    else
      var external := f.origin.value == "external";
      if mode == Strict then
          Some(external && f.dmarc.Some? && Passing(f.dmarc.value) && f.matchesReporter != Some(false))
      else Some(external && f.dmarc != Some("fail") && f.matchesReporter != Some(false))
  }

  /** SQL's three truth values, and the operators decide_sql uses. */
  datatype Truth = Yes | No | Null

  function Known(b: bool): Truth {
    if b then Yes else No
  }

  function And(a: Truth, b: Truth): Truth {
    if a == No || b == No then No else if a == Null || b == Null then Null else Yes
  }

  function Equals(column: Option<string>, value: string): Truth {
    if column.None? then Null else Known(column.value == value)
  }

  function IsPassing(column: Option<string>): Truth {
    if column.None? then Null else Known(Passing(column.value))
  }

  function Counted(mode: Mode, f: Facts): Truth {
    if mode == Off then Yes
    else
      var external, matches := Equals(f.origin, "external"), Known(f.matchesReporter != Some(false));
      if mode == Strict then And(And(external, IsPassing(f.dmarc)), matches)
      else And(And(external, Known(f.dmarc != Some("fail"))), matches)
  }

  /** CASE WHEN origin IS NULL THEN NULL WHEN counted THEN true ELSE false; a NULL `counted` falls through. */
  function DecideSql(mode: Mode, f: Facts): (flag: Option<bool>)
    ensures flag == Decide(mode, f)
  {
    if f.origin.None? then None else if Counted(mode, f) == Yes then Some(true) else Some(false)
  }

  /** An email that was never checked is not decided about. With the check off every other counts;
      else it has to be external and not to contradict its reporter, and DMARC must not have failed,
      or in strict mode have passed. */
  lemma CountsExactly(mode: Mode, origin: string, dmarc: Option<string>, matches: Option<bool>)
    ensures Decide(mode, Facts(None, dmarc, matches)).None?
    ensures Decide(Off, Facts(Some(origin), dmarc, matches)) == Some(true)
    ensures Decide(Standard, Facts(Some(origin), dmarc, matches)) ==
              Some(origin == "external" && dmarc != Some("fail") && matches != Some(false))
    ensures Decide(Strict, Facts(Some(origin), dmarc, matches)) ==
              Some(origin == "external" && dmarc in {Some("pass"), Some("bestguesspass")} && matches != Some(false))
  {
  }

  function Strictness(mode: Mode): nat {
    match mode
    case Off => 0
    case Standard => 1
    case Strict => 2
  }

  /** Whatever one mode counts another counts too, exactly when the other is no stricter. */
  lemma StricterCountsLess(m: Mode, n: Mode)
    ensures (forall f :: Decide(m, f) == Some(true) ==> Decide(n, f) == Some(true)) <==> Strictness(n) <= Strictness(m)
  {
    var untested := Facts(Some("external"), Some("none"), None);
    var failing := Facts(Some("external"), Some("fail"), None);
    if Strictness(n) > Strictness(m) {
      assert Decide(m, if n == Strict then untested else failing) == Some(true);
      assert Decide(n, if n == Strict then untested else failing) == Some(false);
    }
  }

  // ----- the tables

  /** The natural key within one organization. */
  datatype Key = Key(orgName: string, reportId: string, publishedDomain: string)

  datatype Report = Report(key: Key, facts: Facts, verified: Option<bool>)

  datatype Record = Record(report: ReportId, count: nat, verified: Option<bool>)

  datatype Tables = Tables(reports: map<ReportId, Report>, records: map<RecordId, Record>)

  predicate UniqueKeys(reports: map<ReportId, Report>) {
    forall i, j | i in reports && j in reports && i != j :: reports[i].key != reports[j].key
  }

  predicate KeyStored(t: Tables, key: Key) {
    exists i | i in t.reports :: t.reports[i].key == key
  }

  /** Copies under `key` that failed the check go, and their records with them. */
  function WithoutUnverified(t: Tables, key: Key): Tables {
    var reports := map i | i in t.reports && !(t.reports[i].key == key && t.reports[i].verified == Some(false)) ::
        t.reports[i];
    Tables(reports, map r | r in t.records && !(t.records[r].report in t.reports && t.records[r].report !in reports) ::
        t.records[r])
  }

  function WithReport(t: Tables, id: ReportId, report: Report, rows: map<RecordId, nat>): Tables {
    Tables(
      t.reports[id := report],
      map r | r in t.records.Keys + rows.Keys ::
        if r in rows then Record(id, rows[r], report.verified) else t.records[r])
  }

  function Written(t: Tables, id: ReportId, key: Key, facts: Facts, verified: Option<bool>,
        rows: map<RecordId, nat>): Tables {
    var cleared := if verified == Some(true) then WithoutUnverified(t, key) else t;
    if KeyStored(cleared, key) then cleared else WithReport(cleared, id, Report(key, facts, verified), rows)
  }

  function Rechecked(t: Tables, mode: Mode): Tables {
    var reports := map i | i in t.reports :: t.reports[i].(verified := DecideSql(mode, t.reports[i].facts));
    Tables(
      reports,
      map r | r in t.records ::
        t.records[r].(verified :=
            if t.records[r].report in reports then reports[t.records[r].report].verified else None))
  }

  /** The statements, in the order the writer and the settings route issue them. */
  class ReportStore {
    var mode: Mode
    var tables: Tables

    ghost predicate Valid()
      reads this
    {
      UniqueKeys(tables.reports)
    }

    constructor (mode: Mode)
      ensures Valid() && this.mode == mode && tables == Tables(map[], map[])
    {
      this.mode, tables := mode, Tables(map[], map[]);
    }

    method DeleteUnverifiedDuplicate(key: Key)
      requires Valid()
      modifies this`tables
      ensures Valid() && tables == WithoutUnverified(old(tables), key)
      ensures forall i | i in tables.reports && tables.reports[i].key == key ::
                tables.reports[i].verified != Some(false)
    {
      tables := WithoutUnverified(tables, key);
    }

    /** False is the IntegrityError of the unique constraint, rolled back to its savepoint. */
    method InsertIfNew(id: ReportId, report: Report) returns (inserted: bool)
      requires Valid() && id !in tables.reports
      modifies this`tables
      ensures Valid() && inserted == !KeyStored(old(tables), report.key)
      ensures tables == if inserted then old(tables).(reports := old(tables).reports[id := report]) else old(tables)
    {
      var next := tables.reports[id := report];
      inserted := UniqueKeys(next);
      if inserted {
        assert next[id] == report && forall i | i in tables.reports :: next[i] == tables.reports[i];
        tables := tables.(reports := next);
      } else {
        DuplicateFound(tables, id, report);
      }
    }

    method WriteAggregateReport(id: ReportId, key: Key, facts: Facts, verified: Option<bool>, rows: map<RecordId, nat>)
      returns (isNew: bool)
      requires Valid() && id !in tables.reports
      modifies this`tables
      ensures Valid() && tables == Written(old(tables), id, key, facts, verified, rows)
      ensures isNew <==> id in tables.reports
    {
      if verified == Some(true) {
        DeleteUnverifiedDuplicate(key);
      }
      isNew := InsertIfNew(id, Report(key, facts, verified));
      if !isNew {
        return;
      }
      var records := tables.records;
      tables := tables.(records := map r | r in records.Keys + rows.Keys ::
          if r in rows then Record(id, rows[r], verified) else records[r]);
    }

    method ApplyReportSenderCheck(newMode: Mode)
      requires Valid()
      modifies this`tables
      ensures Valid() && tables == Rechecked(old(tables), newMode)
    {
      var before := tables;
      tables := before.(reports := map i | i in before.reports ::
          before.reports[i].(verified := DecideSql(newMode, before.reports[i].facts)));
      var reports := tables.reports;
      tables := tables.(records :=
        map r | r in before.records ::
          before.records[r].(verified :=
              if before.records[r].report in reports then reports[before.records[r].report].verified else None));
    }

    /** PATCH of the organization's report_sender_check; the same mode again is skipped. */
    method SetMode(newMode: Mode)
      requires Valid()
      modifies this
      ensures Valid() && mode == newMode
      ensures tables == if newMode == old(mode) then old(tables) else Rechecked(old(tables), newMode)
    {
      if newMode != mode {
        mode := newMode;
        ApplyReportSenderCheck(newMode);
      }
    }
  }

  lemma DuplicateFound(t: Tables, id: ReportId, report: Report)
    requires UniqueKeys(t.reports) && id !in t.reports && !UniqueKeys(t.reports[id := report])
    ensures KeyStored(t, report.key)
  {
    var next := t.reports[id := report];
    var i, j :| i in next && j in next && i != j && next[i].key == next[j].key;
    assert i == id || j == id;
  }

  // ----- runs: emails arrive, the setting changes

  datatype Step =
    | Arrive(id: ReportId, key: Key, facts: Facts, rows: map<RecordId, nat>)
    | SetMode(newMode: Mode)

  /** `carried` remembers the records every email brought. */
  datatype State = State(mode: Mode, tables: Tables, carried: map<ReportId, map<RecordId, nat>>)

  /** Fresh ids: a uuid4 is never drawn twice. */
  ghost predicate Enabled(s: State, step: Step) {
    step.Arrive? ==> step.id !in s.carried && forall i | i in s.carried :: s.carried[i].Keys !! step.rows.Keys
  }

  ghost function Apply(s: State, step: Step): State {
    match step
    case Arrive(id, key, facts, rows) =>
      State(s.mode, Written(s.tables, id, key, facts, Decide(s.mode, facts), rows), s.carried[id := rows])
    case SetMode(mode) =>
      if mode == s.mode then s else State(mode, Rechecked(s.tables, mode), s.carried)
  }

  function Empty(mode: Mode): State {
    State(mode, Tables(map[], map[]), map[])
  }

  ghost function After(s: State, steps: seq<Step>): State {
    if steps == [] then s else Apply(After(s, steps[..|steps| - 1]), steps[|steps| - 1])
  }

  ghost predicate IsRun(s: State, steps: seq<Step>) {
    steps == [] || (IsRun(s, steps[..|steps| - 1]) && Enabled(After(s, steps[..|steps| - 1]), steps[|steps| - 1]))
  }

  /** One report per key, flags that follow the facts under the current mode, and the records of
      each stored report, whole and with its flag. */
  ghost predicate Inv(s: State) {
    && UniqueKeys(s.tables.reports)
    && (forall i | i in s.tables.reports ::
        i in s.carried && s.tables.reports[i].verified == Decide(s.mode, s.tables.reports[i].facts))
    && (forall r | r in s.tables.records :: RecordOk(s, r))
    && (forall i | i in s.tables.reports ::
        forall r | r in s.carried[i] :: r in s.tables.records && s.tables.records[r].report == i)
  }

  ghost predicate RecordOk(s: State, r: RecordId) {
    r in s.tables.records &&
    var record := s.tables.records[r];
    && record.report in s.tables.reports && record.report in s.carried
    && r in s.carried[record.report] && record.count == s.carried[record.report][r]
    && record.verified == s.tables.reports[record.report].verified
  }

  lemma ClearedKeepsInv(s: State, key: Key)
    requires Inv(s)
    ensures Inv(s.(tables := WithoutUnverified(s.tables, key)))
  {
    var t := s.(tables := WithoutUnverified(s.tables, key));
    forall r | r in t.tables.records
      ensures RecordOk(t, r)
    {
      assert RecordOk(s, r);
    }
  }

  lemma InsertKeepsInv(s: State, id: ReportId, report: Report, rows: map<RecordId, nat>)
    requires Inv(s) && !KeyStored(s.tables, report.key) && report.verified == Decide(s.mode, report.facts)
    requires id !in s.carried && forall i | i in s.carried :: s.carried[i].Keys !! rows.Keys
    ensures Inv(State(s.mode, WithReport(s.tables, id, report, rows), s.carried[id := rows]))
  {
    var t := State(s.mode, WithReport(s.tables, id, report, rows), s.carried[id := rows]);
    forall r | r in t.tables.records
      ensures RecordOk(t, r)
    {
      assert r !in rows ==> RecordOk(s, r);
    }
    forall i, r | i in t.tables.reports && r in t.carried[i]
      ensures r in t.tables.records && t.tables.records[r].report == i
    {
      assert i != id ==> s.carried[i].Keys !! rows.Keys;
    }
  }

  lemma RecheckKeepsInv(s: State, mode: Mode)
    requires Inv(s)
    ensures Inv(State(mode, Rechecked(s.tables, mode), s.carried))
  {
    var t := State(mode, Rechecked(s.tables, mode), s.carried);
    forall r | r in t.tables.records
      ensures RecordOk(t, r)
    {
      assert RecordOk(s, r);
    }
  }

  lemma StepKeepsInv(s: State, step: Step)
    requires Inv(s) && Enabled(s, step)
    ensures Inv(Apply(s, step))
  {
    match step
    case SetMode(mode) =>
      RecheckKeepsInv(s, mode);
    case Arrive(id, key, facts, rows) =>
      var verified := Decide(s.mode, facts);
      var cleared := s;
      if verified == Some(true) {
        ClearedKeepsInv(s, key);
        cleared := s.(tables := WithoutUnverified(s.tables, key));
      }
      if KeyStored(cleared.tables, key) {
        RememberKeepsInv(cleared, id, rows);
      } else {
        InsertKeepsInv(cleared, id, Report(key, facts, verified), rows);
      }
  }

  lemma RememberKeepsInv(s: State, id: ReportId, rows: map<RecordId, nat>)
    requires Inv(s) && id !in s.carried
    ensures Inv(s.(carried := s.carried[id := rows]))
  {
    var t := s.(carried := s.carried[id := rows]);
    forall r | r in t.tables.records
      ensures RecordOk(t, r)
    {
      assert RecordOk(s, r);
    }
  }

  lemma {:induction false} StoreIsConsistent(mode: Mode, steps: seq<Step>)
    requires IsRun(Empty(mode), steps)
    ensures Inv(After(Empty(mode), steps))
  {
    if steps != [] {
      StoreIsConsistent(mode, steps[..|steps| - 1]);
      StepKeepsInv(After(Empty(mode), steps[..|steps| - 1]), steps[|steps| - 1]);
    }
  }
}
