/** The independently written totals over aggregate records (backend/app/repositories/dmarc_reports.py). */
module Rollups {
  import opened Wrappers
  import opened Collections
  import Names
  import opened ReportTypes

  datatype Report = Report(
    orgName: string, begin: int, publishedDomain: string, p: Option<string>, sp: Option<string>, verified: Option<bool>)

  datatype Record = Record(
    report: ReportId, domain: Option<string>, sourceIp: string, count: nat, disposition: Disposition,
    spfPass: bool, dkimPass: bool, headerFrom: string, verified: Option<bool>)

  /** The nine sums of per_source_ip_volume_breakdown. */
  datatype Counts = Counts(
    volume: nat, spfPass: nat, dkimPass: nat, dmarcPass: nat,
    accepted: nat, quarantined: nat, rejected: nat, enforced: nat, enforcedBlocked: nat)

  const ZERO := Counts(0, 0, 0, 0, 0, 0, 0, 0, 0)

  datatype Measure =
    | Volume | SpfPass | DkimPass | DmarcPass | Accepted | Quarantined | Rejected | Enforced | EnforcedBlocked

  function Part(c: Counts, m: Measure): nat {
    match m
    case Volume => c.volume
    case SpfPass => c.spfPass
    case DkimPass => c.dkimPass
    case DmarcPass => c.dmarcPass
    case Accepted => c.accepted
    case Quarantined => c.quarantined
    case Rejected => c.rejected
    case Enforced => c.enforced
    case EnforcedBlocked => c.enforcedBlocked
  }

  function Plus(a: Counts, b: Counts): Counts {
    Counts(a.volume + b.volume, a.spfPass + b.spfPass, a.dkimPass + b.dkimPass, a.dmarcPass + b.dmarcPass,
           a.accepted + b.accepted, a.quarantined + b.quarantined, a.rejected + b.rejected,
           a.enforced + b.enforced, a.enforcedBlocked + b.enforcedBlocked)
  }

  function Total<T>(xs: seq<T>, counts: T -> Counts, m: Measure): nat {
    if xs == [] then 0 else Part(counts(xs[0]), m) + Total(xs[1..], counts, m)
  }

  function Sum<T>(xs: seq<T>, counts: T -> Counts): Counts {
    Counts(Total(xs, counts, Volume), Total(xs, counts, SpfPass),
           Total(xs, counts, DkimPass), Total(xs, counts, DmarcPass),
           Total(xs, counts, Accepted), Total(xs, counts, Quarantined), Total(xs, counts, Rejected),
           Total(xs, counts, Enforced), Total(xs, counts, EnforcedBlocked))
  }

  // ----- one record's contribution

  /** The policy that applied to the record's name asked to quarantine or reject. */
  predicate Enforcing(r: Record, report: Report) {
    var applied :=
      if Names.LowerAll(r.headerFrom) == Names.LowerAll(report.publishedDomain) then report.p
      else if report.sp.Some? then report.sp else report.p;
    applied.Some? && (Names.LowerAll(applied.value) == "quarantine" || Names.LowerAll(applied.value) == "reject")
  }

  function When(b: bool, count: nat): nat {
    if b then count else 0
  }

  /** A message passes DMARC when either mechanism passes (section 6.6.2 of RFC 7489). */
  function RecordCounts(r: Record, report: Report): Counts {
    var enforcing := Enforcing(r, report);
    Counts(r.count, When(r.spfPass, r.count), When(r.dkimPass, r.count), When(r.dkimPass || r.spfPass, r.count),
           When(r.disposition == Accept, r.count), When(r.disposition == Quarantine, r.count),
           When(r.disposition == Reject, r.count),
           When(enforcing, r.count), When(enforcing && r.disposition != Accept, r.count))
  }

  // ----- which records each query sees

  type Reports = map<ReportId, Report>

  /** The ORM filter on every SELECT: rows that failed the sender check are left out. */
  predicate SeenAlone(r: Record, domain: string) {
    r.domain == Some(domain) && r.verified != Some(false)
  }

  /** Joined to its report, which the filter applies to as well. */
  predicate SeenJoined(r: Record, reports: Reports, domain: string, since: Option<int>) {
    SeenAlone(r, domain) && ReportSeen(r, reports, since)
  }

  predicate ReportSeen(r: Record, reports: Reports, since: Option<int>) {
    && r.report in reports && reports[r.report].verified != Some(false)
    && (since.None? || reports[r.report].begin >= since.value)
  }

  function Select(records: seq<Record>, wanted: Record -> bool): seq<Record> {
    With(records, wanted, true)
  }

  function CountsIn(reports: Reports): Record -> Counts {
    (r: Record) => if r.report in reports then RecordCounts(r, reports[r.report]) else ZERO
  }

  /** dmarc_summary_totals: no join, so it needs nothing of the report. */
  function SummaryTotals(records: seq<Record>, domain: string): (nat, nat) {
    var rows := Select(records, AloneFilter(domain));
    (Messages(rows), Passed(rows))
  }

  function AloneFilter(domain: string): Record -> bool {
    (r: Record) => SeenAlone(r, domain)
  }

  function Messages(rows: seq<Record>): nat {
    if rows == [] then 0 else rows[0].count + Messages(rows[1..])
  }

  function Passed(rows: seq<Record>): nat {
    if rows == [] then 0 else When(rows[0].dkimPass || rows[0].spfPass, rows[0].count) + Passed(rows[1..])
  }

  /** report_totals, per_source_ip_volume_breakdown and report_records_grouped read the join. */
  function JoinedRows(records: seq<Record>, reports: Reports, domain: string, since: Option<int>): seq<Record> {
    Select(records, JoinedFilter(reports, domain, since))
  }

  function JoinedFilter(reports: Reports, domain: string, since: Option<int>): Record -> bool {
    (r: Record) => SeenJoined(r, reports, domain, since)
  }

  /** Every record follows its report's flag: what the sender check keeps true. */
  predicate FlagsFollow(records: seq<Record>, reports: Reports) {
    forall r | r in records :: r.report in reports && r.verified == reports[r.report].verified
  }

  lemma {:induction false} SelectSame(records: seq<Record>, p: Record -> bool, q: Record -> bool)
    requires forall r | r in records :: p(r) == q(r)
    ensures Select(records, p) == Select(records, q)
  {
    if records != [] {
      assert records == [records[0]] + records[1..];
      SelectSame(records[1..], p, q);
    }
  }

  lemma {:induction false} SumsMatch(rows: seq<Record>, reports: Reports)
    requires forall r | r in rows :: r.report in reports
    ensures Messages(rows) == Sum(rows, CountsIn(reports)).volume
              && Passed(rows) == Sum(rows, CountsIn(reports)).dmarcPass
  {
    if rows != [] {
      assert rows == [rows[0]] + rows[1..];
      SumsMatch(rows[1..], reports);
    }
  }

  lemma {:induction false} SelectDiffers(records: seq<Record>, p: Record -> bool, q: Record -> bool, r: Record)
    requires (forall x | x in records :: p(x) ==> q(x)) && r in records && q(r) && !p(r)
    ensures |Select(records, p)| < |Select(records, q)|
  {
    assert records == [records[0]] + records[1..];
    if records[0] != r {
      SelectDiffers(records[1..], p, q, r);
    } else {
      SelectFewer(records[1..], p, q);
    }
  }

  lemma {:induction false} SelectFewer(records: seq<Record>, p: Record -> bool, q: Record -> bool)
    requires forall x | x in records :: p(x) ==> q(x)
    ensures |Select(records, p)| <= |Select(records, q)|
  {
    if records != [] {
      assert records == [records[0]] + records[1..];
      SelectFewer(records[1..], p, q);
    }
  }

  /** The query without the join sees the rows the joined ones see, exactly when no record that
      counts hangs on a report that is left out or missing. */
  lemma JoinSeesTheSame(records: seq<Record>, reports: Reports, domain: string)
    ensures Select(records, AloneFilter(domain)) == JoinedRows(records, reports, domain, None)
       <==> forall r | r in records :: SeenAlone(r, domain) ==> SeenJoined(r, reports, domain, None)
  {
    var alone, joined := AloneFilter(domain), JoinedFilter(reports, domain, None);
    if forall r | r in records :: SeenAlone(r, domain) ==> SeenJoined(r, reports, domain, None) {
      SelectSame(records, alone, joined);
    } else {
      var r :| r in records && SeenAlone(r, domain) && !SeenJoined(r, reports, domain, None);
      SelectDiffers(records, joined, alone, r);
    }
  }

  /** The two headline numbers agree with report_totals. */
  lemma SummaryAgreesWithTotals(records: seq<Record>, reports: Reports, domain: string)
    requires FlagsFollow(records, reports)
    ensures var totals := Sum(JoinedRows(records, reports, domain, None), CountsIn(reports));
            SummaryTotals(records, domain) == (totals.volume, totals.dmarcPass)
  {
    JoinSeesTheSame(records, reports, domain);
    var rows := Select(records, AloneFilter(domain));
    InWith(records, AloneFilter(domain), true);
    SumsMatch(rows, reports);
  }

  // ----- GROUP BY

  datatype Group<K> = Group(key: K, counts: Counts)

  function GroupCounts<K>(g: Group<K>): Counts {
    g.counts
  }

  /** One row for each key that occurs, in any order, each with the sums of its own rows. */
  ghost predicate IsGroupBy<T(!new), K(!new)>(groups: seq<Group<K>>, xs: seq<T>, key: T -> K, counts: T -> Counts) {
    && (forall i, j | 0 <= i < j < |groups| :: groups[i].key != groups[j].key)
    && (forall k | 0 <= k < |groups| :: groups[k].counts == Sum(With(xs, key, groups[k].key), counts))
    && (forall x | x in xs :: exists k :: 0 <= k < |groups| && groups[k].key == key(x))
  }

  /** And no row for a key that does not occur. */
  ghost predicate NoEmptyGroups<T(!new), K(!new)>(groups: seq<Group<K>>, xs: seq<T>, key: T -> K) {
    forall k | 0 <= k < |groups| :: With(xs, key, groups[k].key) != []
  }

  lemma {:induction false} TotalSplits<T, K>(xs: seq<T>, key: T -> K, k: K, counts: T -> Counts, m: Measure)
    ensures Total(xs, counts, m) == Total(With(xs, key, k), counts, m) + Total(Without(xs, key, k), counts, m)
  {
    if xs != [] {
      TotalSplits(xs[1..], key, k, counts, m);
      var with, without := With(xs[1..], key, k), Without(xs[1..], key, k);
      assert ([xs[0]] + if key(xs[0]) == k then with else without)[1..] == if key(xs[0]) == k then with else without;
    }
  }

  lemma {:induction false} GroupTotals<T(!new), K(!new)>(groups: seq<Group<K>>, xs: seq<T>, key: T -> K,
        counts: T -> Counts, m: Measure)
    requires IsGroupBy(groups, xs, key, counts)
    ensures Total(groups, GroupCounts, m) == Total(xs, counts, m)
    decreases |groups|
  {
    if groups == [] {
      NoElements(xs);
    } else {
      RestIsGroupBy(groups, xs, key, counts);
      GroupTotals(groups[1..], Without(xs, key, groups[0].key), key, counts, m);
      TotalSplits(xs, key, groups[0].key, counts, m);
    }
  }

  /** The groups of any grouping column add up to the ungrouped totals. */
  lemma GroupsAddUp<T(!new), K(!new)>(groups: seq<Group<K>>, xs: seq<T>, key: T -> K, counts: T -> Counts)
    requires IsGroupBy(groups, xs, key, counts)
    ensures Sum(groups, GroupCounts) == Sum(xs, counts)
  {
    forall m: Measure
      ensures Total(groups, GroupCounts, m) == Total(xs, counts, m)
    {
      GroupTotals(groups, xs, key, counts, m);
    }
  }

  lemma RestIsGroupBy<T(!new), K(!new)>(groups: seq<Group<K>>, xs: seq<T>, key: T -> K, counts: T -> Counts)
    requires IsGroupBy(groups, xs, key, counts) && groups != []
    ensures IsGroupBy(groups[1..], Without(xs, key, groups[0].key), key, counts)
  {
    var rest, more := Without(xs, key, groups[0].key), groups[1..];
    forall k | 0 <= k < |more|
      ensures more[k].counts == Sum(With(rest, key, more[k].key), counts)
    {
      assert more[k] == groups[k + 1] && groups[0].key != groups[k + 1].key;
      WithOfWithout(xs, key, groups[0].key, more[k].key);
    }
    InWithout(xs, key, groups[0].key);
    forall x | x in rest
      ensures exists k :: 0 <= k < |more| && more[k].key == key(x)
    {
      var k :| 0 <= k < |groups| && groups[k].key == key(x);
      assert more[k - 1] == groups[k];
    }
  }

  // ----- how the counts of one row relate

  predicate WellCounted(c: Counts) {
    && c.accepted + c.quarantined + c.rejected == c.volume
    && c.spfPass <= c.dmarcPass && c.dkimPass <= c.dmarcPass <= c.spfPass + c.dkimPass
    && c.dmarcPass <= c.volume
    && c.enforcedBlocked <= c.enforced <= c.volume
    && c.enforcedBlocked <= c.quarantined + c.rejected
  }

  lemma {:induction false} SumWellCounted<T>(xs: seq<T>, counts: T -> Counts)
    requires forall x | x in xs :: WellCounted(counts(x))
    ensures WellCounted(Sum(xs, counts))
  {
    if xs != [] {
      assert xs == [xs[0]] + xs[1..];
      SumWellCounted(xs[1..], counts);
      assert WellCounted(counts(xs[0]));
      assert Sum(xs, counts) == Plus(counts(xs[0]), Sum(xs[1..], counts));
    }
  }

  /** Every row of every grouping is well counted, whatever the records say. */
  lemma GroupsWellCounted<K(!new)>(groups: seq<Group<K>>, rows: seq<Record>, key: Record -> K, reports: Reports)
    requires IsGroupBy(groups, rows, key, CountsIn(reports))
    ensures forall g | g in groups :: WellCounted(g.counts)
  {
    forall g | g in groups
      ensures WellCounted(g.counts)
    {
      var k :| 0 <= k < |groups| && groups[k] == g;
      SumWellCounted(With(rows, key, g.key), CountsIn(reports));
    }
  }
}
