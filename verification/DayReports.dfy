/** The reports-by-day page (backend/app/routers/dmarc_reports.py): one fetched page grouped
    into days, and the cursor the client takes from it. */
module DayReports {
  import opened Pagination
  import opened ReportTypes

  datatype Record = Record(report: ReportId, sourceIp: string, count: nat, disposition: Disposition)

  type RecordRow = Row<Record>

  datatype Day = Day(
    date: int,
    reportCount: nat,
    messageCount: nat,
    accepted: nat,
    quarantined: nat,
    rejected: nat,
    rows: seq<RecordRow>)

  const SECONDS_PER_DAY := 86400

  /** The UTC date of date_range_begin, in days. */
  function DateOf(r: RecordRow): int {
    r.key / SECONDS_PER_DAY
  }

  /** A row belongs to the day its time falls in: 86400 seconds from midnight on. */
  lemma DateExactly(r: RecordRow, d: int)
    ensures DateOf(r) == d <==> 86400 * d <= r.key < 86400 * (d + 1)
  {
  }

  function Messages(rows: seq<RecordRow>): nat {
    if rows == [] then 0 else Messages(rows[..|rows| - 1]) + rows[|rows| - 1].data.count
  }

  function MessagesWith(rows: seq<RecordRow>, d: Disposition): nat {
    if rows == [] then 0
    else
      var last := rows[|rows| - 1].data;
      MessagesWith(rows[..|rows| - 1], d) + if last.disposition == d then last.count else 0
  }

  function ReportIds(rows: seq<RecordRow>): set<ReportId> {
    set r | r in rows :: r.data.report
  }

  function RowsOf(days: seq<Day>): seq<RecordRow> {
    if days == [] then [] else RowsOf(days[..|days| - 1]) + days[|days| - 1].rows
  }

  /** A run of rows of one date, with its own totals. */
  ghost predicate IsDay(d: Day) {
    && d.rows != []
    && (forall r | r in d.rows :: DateOf(r) == d.date)
    && d.reportCount == |ReportIds(d.rows)|
    && d.messageCount == Messages(d.rows)
    && d.accepted == MessagesWith(d.rows, Accept)
    && d.quarantined == MessagesWith(d.rows, Quarantine)
    && d.rejected == MessagesWith(d.rows, Reject)
  }

  method BuildDay(date: int, group: seq<RecordRow>) returns (day: Day)
    requires group != [] && forall r | r in group :: DateOf(r) == date
    ensures IsDay(day) && day.date == date && day.rows == group
  {
    day := Day(date, |ReportIds(group)|, Messages(group), MessagesWith(group, Accept), MessagesWith(group, Quarantine),
               MessagesWith(group, Reject), group);
  }

  /** Neighbouring days have different dates. */
  ghost predicate IsGrouping(days: seq<Day>) {
    AllDays(days, d => IsDay(d)) && forall k | 0 < k < |days| :: days[k - 1].date != days[k].date
  }

  ghost predicate AllDays(days: seq<Day>, ok: Day -> bool) {
    forall k | 0 <= k < |days| :: ok(days[k])
  }

  lemma AddDay(days: seq<Day>, day: Day, ok: Day -> bool)
    requires AllDays(days, ok) && ok(day)
    ensures AllDays(days + [day], ok) && RowsOf(days + [day]) == RowsOf(days) + day.rows
  {
    var longer := days + [day];
    assert longer[..|longer| - 1] == days;
  }

  /** itertools.groupby over the rows of one page. */
  method GroupByDay(rows: seq<RecordRow>) returns (days: seq<Day>)
    ensures RowsOf(days) == rows
    ensures IsGrouping(days)
  {
    days := [];
    var i := 0;
    while i < |rows|
      invariant 0 <= i <= |rows|
      invariant RowsOf(days) == rows[..i]
      invariant IsGrouping(days)
      invariant days != [] && i < |rows| ==> days[|days| - 1].date != DateOf(rows[i])
    {
      var date := DateOf(rows[i]);
      var j := i + 1;
      while j < |rows| && DateOf(rows[j]) == date
        invariant i < j <= |rows|
        invariant forall k | i <= k < j :: DateOf(rows[k]) == date
      {
        j := j + 1;
      }
      var day := BuildDay(date, rows[i..j]);
      AddDay(days, day, d => IsDay(d));
      days := days + [day];
      assert rows[..i] + rows[i..j] == rows[..j];
      i := j;
    }
    assert rows[..|rows|] == rows;
  }

  lemma {:induction false} RowsOfDay(days: seq<Day>, k: nat, r: RecordRow)
    requires k < |days| && r in days[k].rows
    ensures r in RowsOf(days)
  {
    if k < |days| - 1 {
      RowsOfDay(days[..|days| - 1], k, r);
    }
  }

  lemma {:induction false} LaterDayIsOlder(days: seq<Day>, i: nat, j: nat, r: RecordRow, q: RecordRow)
    requires Ordered(RowsOf(days), true) && i < j < |days| && r in days[i].rows && q in days[j].rows
    ensures r.key >= q.key
  {
    var before := days[..|days| - 1];
    var rows, last := RowsOf(before), days[|days| - 1].rows;
    assert RowsOf(days) == rows + last;
    if j < |days| - 1 {
      assert Ordered(rows, true) by {
        assert forall k | 0 <= k < |rows| :: RowsOf(days)[k] == rows[k];
      }
      LaterDayIsOlder(before, i, j, r, q);
    } else {
      RowsOfDay(before, i, r);
      var x :| 0 <= x < |rows| && rows[x] == r;
      var y :| 0 <= y < |last| && last[y] == q;
      assert Before(RowsOf(days)[x], RowsOf(days)[|rows| + y], true);
    }
  }

  lemma NeighboursDescend(days: seq<Day>, k: nat)
    requires IsGrouping(days) && Ordered(RowsOf(days), true) && 0 < k < |days|
    ensures days[k - 1].date > days[k].date
  {
    assert IsDay(days[k - 1]) && IsDay(days[k]);
    LaterDayIsOlder(days, k - 1, k, days[k - 1].rows[0], days[k].rows[0]);
  }

  /** A fetched page is in page order, so no date heads two days. */
  lemma {:induction false} EachDateOnce(days: seq<Day>, i: nat, j: nat)
    requires IsGrouping(days) && Ordered(RowsOf(days), true) && i < j < |days|
    ensures days[i].date > days[j].date
    decreases j
  {
    NeighboursDescend(days, j);
    if i < j - 1 {
      EachDateOnce(days, i, j - 1);
    }
  }

  lemma {:induction false} DispositionsPartition(rows: seq<RecordRow>)
    ensures MessagesWith(rows, Accept) + MessagesWith(rows, Quarantine) + MessagesWith(rows, Reject) == Messages(rows)
  {
    if rows != [] {
      DispositionsPartition(rows[..|rows| - 1]);
    }
  }

  lemma DayTotalsAddUp(days: seq<Day>, k: nat)
    requires IsGrouping(days) && k < |days|
    ensures days[k].accepted + days[k].quarantined + days[k].rejected == days[k].messageCount
  {
    assert IsDay(days[k]);
    DispositionsPartition(days[k].rows);
  }

  /** The client's cursor, the last row of the last day, is the last row fetched. */
  lemma ClientCursorIsLastRow(days: seq<Day>)
    requires IsGrouping(days) && RowsOf(days) != []
    ensures days != [] && days[|days| - 1].rows != []
    ensures var last := days[|days| - 1].rows;
            AnchorOf(RowsOf(days)) == AnchorOf(last)
  {
    assert RowsOf(days) == RowsOf(days[..|days| - 1]) + days[|days| - 1].rows;
  }
}
