/** What each of the sums counts: the messages of its own rows
    (backend/app/repositories/dmarc_reports.py). */
module RollupSums {
  import opened Wrappers
  import opened Collections
  import opened Rollups
  import opened ReportTypes
  import Names
  import Normalization

  // ----- which policy a record came under

  predicate AsksToAct(policy: Option<string>) {
    && policy.Some?
    && (|| Normalization.SameButCase(policy.value, "quarantine")
        || Normalization.SameButCase(policy.value, "reject"))
  }

  /** Mail in the published domain's own name comes under p; other mail, which is in a subdomain's
      name, under sp where there is one and else under p. */
  lemma EnforcingExactly(r: Record, report: Report)
    ensures var own := Normalization.SameButCase(r.headerFrom, report.publishedDomain);
            && (own || report.sp.None? ==> (Enforcing(r, report) <==> AsksToAct(report.p)))
            && (!own && report.sp.Some? ==> (Enforcing(r, report) <==> AsksToAct(report.sp)))
  {
    Normalization.LowerTwins(r.headerFrom, report.publishedDomain);
    ActingPolicy(report.p);
    ActingPolicy(report.sp);
  }

  lemma ActingPolicy(policy: Option<string>)
    ensures AsksToAct(policy) <==>
              policy.Some? && (Names.LowerAll(policy.value) == "quarantine" || Names.LowerAll(policy.value) == "reject")
  {
    if policy.Some? {
      Normalization.LowerTwins(policy.value, "quarantine");
      Normalization.LowerTwins(policy.value, "reject");
      assert Names.LowerAll("quarantine") == "quarantine" && Names.LowerAll("reject") == "reject";
    }
  }

  // ----- each sum is the volume of its own rows

  lemma {:induction false} TotalSelects(rows: seq<Record>, counts: Record -> Counts, m: Measure, kind: Record -> bool)
    requires forall r | r in rows :: Part(counts(r), m) == if kind(r) then r.count else 0
    ensures Total(rows, counts, m) == Messages(Select(rows, kind))
  {
    if rows != [] {
      assert rows == [rows[0]] + rows[1..];
      TotalSelects(rows[1..], counts, m, kind);
      var rest := Select(rows[1..], kind);
      assert ([rows[0]] + rest)[1..] == rest;
    }
  }

  function Disposed(d: Disposition): Record -> bool {
    (r: Record) => r.disposition == d
  }

  function Enforced(reports: Reports): Record -> bool {
    (r: Record) => r.report in reports && Enforcing(r, reports[r.report])
  }

  function Blocked(reports: Reports): Record -> bool {
    (r: Record) => Enforced(reports)(r) && (r.disposition == Quarantine || r.disposition == Reject)
  }

  ghost predicate AllKnown(rows: seq<Record>, reports: Reports) {
    forall r | r in rows :: r.report in reports
  }

  lemma OneSum(rows: seq<Record>, reports: Reports, m: Measure, kind: Record -> bool)
    requires AllKnown(rows, reports)
    requires forall r: Record | r.report in reports ::
               Part(RecordCounts(r, reports[r.report]), m) == if kind(r) then r.count else 0
    ensures Part(Sum(rows, CountsIn(reports)), m) == Messages(Select(rows, kind))
  {
    TotalSelects(rows, CountsIn(reports), m, kind);
  }

  /** The nine sums of a list of records: all its messages, and those of the records of each kind. */
  lemma SumsExactly(rows: seq<Record>, reports: Reports)
    requires AllKnown(rows, reports)
    ensures var c := Sum(rows, CountsIn(reports));
            && c.volume == Messages(rows)
            && c.accepted == Messages(Select(rows, Disposed(Accept)))
            && c.quarantined == Messages(Select(rows, Disposed(Quarantine)))
            && c.rejected == Messages(Select(rows, Disposed(Reject)))
            && c.spfPass == Messages(Select(rows, (r: Record) => r.spfPass))
            && c.dkimPass == Messages(Select(rows, (r: Record) => r.dkimPass))
            && c.dmarcPass == Messages(Select(rows, (r: Record) => r.spfPass || r.dkimPass))
            && c.enforced == Messages(Select(rows, Enforced(reports)))
            && c.enforcedBlocked == Messages(Select(rows, Blocked(reports)))
  {
    SumsMatch(rows, reports);
    OneSum(rows, reports, Accepted, Disposed(Accept));
    OneSum(rows, reports, Quarantined, Disposed(Quarantine));
    OneSum(rows, reports, Rejected, Disposed(Reject));
    OneSum(rows, reports, SpfPass, (r: Record) => r.spfPass);
    OneSum(rows, reports, DkimPass, (r: Record) => r.dkimPass);
    OneSum(rows, reports, DmarcPass, (r: Record) => r.spfPass || r.dkimPass);
    OneSum(rows, reports, Measure.Enforced, Enforced(reports));
    OneSum(rows, reports, EnforcedBlocked, Blocked(reports));
  }

  /** So in every row of every grouping of the joined records. */
  lemma GroupsCountTheirRows<K(!new)>(groups: seq<Group<K>>, records: seq<Record>, reports: Reports, domain: string,
                                      since: Option<int>, key: Record -> K, k: nat)
    requires IsGroupBy(groups, JoinedRows(records, reports, domain, since), key, CountsIn(reports)) && k < |groups|
    ensures var rows, c := With(JoinedRows(records, reports, domain, since), key, groups[k].key), groups[k].counts;
            && c.volume == Messages(rows)
            && c.accepted == Messages(Select(rows, Disposed(Accept)))
            && c.quarantined == Messages(Select(rows, Disposed(Quarantine)))
            && c.rejected == Messages(Select(rows, Disposed(Reject)))
            && c.dmarcPass == Messages(Select(rows, (r: Record) => r.spfPass || r.dkimPass))
            && c.enforcedBlocked == Messages(Select(rows, Blocked(reports)))
  {
    var joined := JoinedRows(records, reports, domain, since);
    InWith(records, JoinedFilter(reports, domain, since), true);
    InWith(joined, key, groups[k].key);
    SumsExactly(With(joined, key, groups[k].key), reports);
  }

  /** The rows the joined queries read: this domain's, of reports that exist, neither left out by the
      sender check, and of reports that begin within the window. */
  lemma JoinedExactly(records: seq<Record>, reports: Reports, domain: string, since: Option<int>, r: Record)
    ensures r in JoinedRows(records, reports, domain, since) <==>
              && r in records && r.domain == Some(domain) && r.verified != Some(false)
              && r.report in reports && reports[r.report].verified != Some(false)
              && (since.Some? ==> since.value <= reports[r.report].begin)
  {
    InWith(records, JoinedFilter(reports, domain, since), true);
  }
}
