/** One organization's registrations and the reports attributed to them, as the requests change
    them (backend/app/services/domain_setup.py, backend/app/routers/domains.py,
    backend/app/services/ingestion/report_writer.py). */
module DomainRegistry {
  import opened Wrappers
  import opened Names
  import Normalization
  import opened Attribution
  import opened DomainForest
  import opened ReportTypes

  datatype Report = Report(policyDomain: string, domain: Option<string>, shown: bool)

  type Reports = map<ReportId, Report>

  datatype Org = Org(domains: Forest, records: Records, reports: Reports)

  /** Only waiting reports are matched again; one that has a domain keeps it. */
  function SweepReports(reports: Reports, registered: set<string>): Reports {
    map i | i in reports ::
      if reports[i].shown && reports[i].domain.None?
      then reports[i].(domain := Match(registered, reports[i].policyDomain))
      else reports[i]
  }

  ghost function Linked(before: Reports, after: Reports): set<ReportId> {
    set i | i in before && i in after && before[i] != after[i]
  }

  function UnlinkedReports(reports: Reports, d: string): Reports {
    map i | i in reports :: if reports[i].domain == Some(d) then reports[i].(domain := None) else reports[i]
  }

  /** attribute_reports for each of `names`, all of them registered or removed already. */
  function Attribute(o: Org, names: set<string>): Org {
    Org(o.domains, Resweep(o.records, o.domains.Keys, names), SweepReports(o.reports, o.domains.Keys))
  }

  predicate HasReports(o: Org, n: string) {
    exists i | i in o.reports :: o.reports[i].shown && o.reports[i].domain == Some(n)
  }

  // ----- the requests

  datatype Request =
    | Create(name: string, parent: Option<string>)
    | AddDetected(name: string, rootName: string, detected: seq<string>)
    | Verify(name: string, found: bool)
    | Delete(name: string)
    | IngestReport(report: ReportId, policyDomain: string, shown: bool)
    | IngestRecord(record: RecordId, headerFrom: string, shown: bool)

  datatype Choice = Alone | Family(root: string)

  /** Where a detected name goes. `rootName` is its registrable domain (parsedmarc's get_base_domain). */
  ghost function FamilyRoot(f: Forest, name: string, rootName: string, detected: seq<string>): Choice {
    if exists r :: IsClosestRoot(f, name, r) then
      var r :| IsClosestRoot(f, name, r);
      Family(r)
    else if rootName != name && (rootName !in detected || rootName in f) then Alone
    else Family(rootName)
  }

  ghost function AfterAddDetected(o: Org, name: string, rootName: string, detected: seq<string>): Org {
    match FamilyRoot(o.domains, name, rootName, detected)
    case Alone => Attribute(o.(domains := WithDomain(o.domains, name, None)), {name})
    case Family(root) =>
      var names := FamilyNames(o.domains, root, name, detected);
      Attribute(o.(domains := WithFamily(o.domains, root, names)), names)
  }

  predicate MayDelete(o: Org, n: string) {
    n in o.domains && !HasSubdomains(o.domains, n) && !(o.domains[n].verified && HasReports(o, n))
  }

  function AfterDelete(o: Org, n: string): Org {
    Attribute(Org(Without(o.domains, n), Unlinked(o.records, n), UnlinkedReports(o.reports, n)), {n})
  }

  ghost function Apply(o: Org, r: Request): Org {
    match r
    case Create(raw, parent) =>
      var name := Norm(raw);
      if ValidName(name) && CreateRefusal(o.domains, name, parent).None?
      then Attribute(o.(domains := WithDomain(o.domains, name, parent)), {name}) else o
    case AddDetected(raw, rootName, detected) =>
      var name := Norm(Norm(raw));  // once for the check and once more in the routine
      if ValidName(Norm(raw)) && name !in o.domains then AfterAddDetected(o, name, rootName, detected) else o
    case Verify(name, found) => if name in o.domains && found then o.(domains := WithVerified(o.domains, name)) else o
    case Delete(name) => if MayDelete(o, name) then AfterDelete(o, name) else o
    case IngestReport(id, policyDomain, shown) =>
      o.(reports := o.reports[id := Report(policyDomain, Match(o.domains.Keys, policyDomain), shown)])
    case IngestRecord(id, headerFrom, shown) =>
      o.(records := o.records[id := Record(headerFrom, Match(o.domains.Keys, headerFrom), shown)])
  }

  /** get_base_domain's contract, and report names a LIKE pattern can carry. */
  ghost predicate Sane(r: Request) {
    r.AddDetected? ==>
      && (r.rootName == Norm(Norm(r.name)) || EndsWith(Norm(Norm(r.name)), "." + r.rootName))
      && forall o | o in r.detected :: Unescaped(o)
  }

  ghost function Run(o: Org, rs: seq<Request>): Org
    decreases |rs|
  {
    if rs == [] then o else Run(Apply(o, rs[0]), rs[1..])
  }

  const EMPTY := Org(map[], map[], map[])

  // ----- what every request keeps

  /** Links point at registered domains; a report's domain is its policy domain or an ancestor,
      and a report the application sees waits only if nothing registered matches it. */
  ghost predicate ReportsOk(o: Org) {
    forall i | i in o.reports ::
      && (o.reports[i].domain.Some? ==>
          Candidate(o.domains.Keys, Norm(o.reports[i].policyDomain), o.reports[i].domain.value))
      && (o.reports[i].shown && o.reports[i].domain.None? ==> Match(o.domains.Keys, o.reports[i].policyDomain).None?)
  }

  ghost predicate OrgOk(o: Org) {
    && ForestOk(o.domains)
    && (forall d | d in o.domains :: Unescaped(d))
    && WellWrittenExact(o.records, o.domains.Keys)
    && ReportsOk(o)
  }

  lemma ValidIsUnescaped(name: string)
    requires ValidName(name)
    ensures Unescaped(name)
  {
    if ValidHost(name) {
      ValidChars(name);
    } else {
      ValidChars(name[..|name| - 1]);
      assert name == name[..|name| - 1] + ['\n'];
    }
  }

  /** A family always fits: no insert repeats a registered or just-added name. */
  lemma FamilyFitsAlways(f: Forest, name: string, rootName: string, detected: seq<string>)
    requires name !in f && (rootName == name || EndsWith(name, "." + rootName))
    ensures match FamilyRoot(f, name, rootName, detected)
            case Alone => CreateRefusal(f, name, None).None?
            case Family(root) => FamilyFits(f, root, FamilyNames(f, root, name, detected))
  {
  }

  ghost predicate LinksOk(reports: Reports, registered: set<string>) {
    forall i | i in reports && reports[i].domain.Some? ::
        Candidate(registered, Norm(reports[i].policyDomain), reports[i].domain.value)
  }

  lemma SweepKeepsReports(o: Org, names: set<string>)
    requires LinksOk(o.reports, o.domains.Keys)
    ensures ReportsOk(Attribute(o, names))
  {
    forall i | i in o.reports
      ensures var m := Match(o.domains.Keys, o.reports[i].policyDomain);
              m.Some? ==> Candidate(o.domains.Keys, Norm(o.reports[i].policyDomain), m.value)
    {
      ClosestIsLongest(o.domains.Keys, Norm(o.reports[i].policyDomain));
    }
  }

  /** Registering names, then attributing reports, whatever the new rows' parents are. */
  lemma AddKeepsOrg(o: Org, domains: Forest, names: set<string>)
    requires OrgOk(o) && ForestOk(domains) && domains.Keys == o.domains.Keys + names
    requires forall d | d in names :: Unescaped(d)
    ensures OrgOk(Attribute(o.(domains := domains), names))
  {
    FamilyExact(o.records, o.domains.Keys, names);
    SweepKeepsReports(o.(domains := domains), names);
  }

  lemma DeleteKeepsOrg(o: Org, n: string)
    requires OrgOk(o) && MayDelete(o, n)
    ensures OrgOk(AfterDelete(o, n))
  {
    DeleteKeepsForest(o.domains, n);
    assert Without(o.domains, n).Keys == o.domains.Keys - {n};
    RemovalExact(o.records, o.domains.Keys, n);
    SweepKeepsReports(Org(Without(o.domains, n), Unlinked(o.records, n), UnlinkedReports(o.reports, n)), {n});
  }

  lemma AddDetectedKeepsOrg(o: Org, name: string, rootName: string, detected: seq<string>)
    requires OrgOk(o) && ValidHost(name) && name !in o.domains
    requires rootName == name || EndsWith(name, "." + rootName)
    requires forall d | d in detected :: Unescaped(d)
    ensures OrgOk(AfterAddDetected(o, name, rootName, detected))
    ensures VerificationKept(o.domains, AfterAddDetected(o, name, rootName, detected).domains)
  {
    ValidIsUnescaped(name);
    FamilyFitsAlways(o.domains, name, rootName, detected);
    match FamilyRoot(o.domains, name, rootName, detected)
    case Alone =>
      CreateKeepsForest(o.domains, name, None);
      AddKeepsOrg(o, WithDomain(o.domains, name, None), {name});
    case Family(root) =>
      var names := FamilyNames(o.domains, root, name, detected);
      SuffixIsUnescaped(name, rootName);
      FamilyKeepsForest(o.domains, root, names);
      AddKeepsOrg(o, WithFamily(o.domains, root, names), names);
  }

  lemma SuffixIsUnescaped(s: string, d: string)
    requires Unescaped(s) && (d == s || EndsWith(s, "." + d))
    ensures Unescaped(d)
  {
    if d != s {
      var k := |s| - |d| - 1;
      forall c | c in d
        ensures c in s
      {
        var j :| 0 <= j < |d| && d[j] == c;
        assert s[k..][j + 1] == ("." + d)[j + 1] == c;
      }
    }
  }

  lemma RequestKeepsOrg(o: Org, r: Request)
    requires OrgOk(o) && Sane(r)
    ensures OrgOk(Apply(o, r)) && VerificationKept(o.domains, Apply(o, r).domains)
  {
    match r
    case Create(raw, parent) =>
      var name := Norm(raw);
      if ValidName(name) && CreateRefusal(o.domains, name, parent).None? {
        ValidIsUnescaped(name);
        CreateKeepsForest(o.domains, name, parent);
        AddKeepsOrg(o, WithDomain(o.domains, name, parent), {name});
      }
    case AddDetected(raw, rootName, detected) =>
      if ValidName(Norm(raw)) && Norm(Norm(raw)) !in o.domains {
        Normalization.AcceptedName(raw);
        AddDetectedKeepsOrg(o, Norm(Norm(raw)), rootName, detected);
      }
    case Verify(name, found) =>
      if name in o.domains && found {
        VerifyKeepsForest(o.domains, name);
        assert WithVerified(o.domains, name).Keys == o.domains.Keys;
      }
    case Delete(name) =>
      if MayDelete(o, name) {
        DeleteKeepsOrg(o, name);
      }
    case IngestReport(_, policyDomain, _) => ClosestIsLongest(o.domains.Keys, Norm(policyDomain));
    case IngestRecord(_, _, _) =>
  }

  /** Over any run of requests from a consistent organization: the forest is one level deep with
      verification inherited, every shown record with a well-written header is on its closest
      domain, and a report's domain is its policy domain or some registered ancestor of it. */
  lemma {:induction false} RegistryIsConsistent(o: Org, rs: seq<Request>)
    requires OrgOk(o) && forall r | r in rs :: Sane(r)
    ensures OrgOk(Run(o, rs))
    decreases |rs|
  {
    if rs != [] {
      assert rs[0] in rs && forall r | r in rs[1..] :: r in rs;
      RequestKeepsOrg(o, rs[0]);
      RegistryIsConsistent(Apply(o, rs[0]), rs[1..]);
    }
  }

  /** The longest registered name at or above the given one, if there is any. */
  ghost predicate IsClosest(registered: set<string>, name: string, d: Option<string>) {
    && (d.None? <==> forall q | q in registered :: !Candidate(registered, Norm(name), q))
    && (d.Some? ==> Candidate(registered, Norm(name), d.value))
    && (d.Some? ==> forall q | q in registered :: Candidate(registered, Norm(name), q) ==> |q| <= |d.value|)
  }

  /** What arrives is stored as it is, on its closest domain, and moves nothing else. */
  lemma IngestedOnClosest(o: Org, report: ReportId, record: RecordId, name: string, shown: bool)
    ensures var g := Apply(o, IngestReport(report, name, shown));
            && g.domains == o.domains && g.records == o.records && g.reports.Keys == o.reports.Keys + {report}
            && (forall i | i in o.reports && i != report :: g.reports[i] == o.reports[i])
            && g.reports[report].policyDomain == name && g.reports[report].shown == shown
            && IsClosest(o.domains.Keys, name, g.reports[report].domain)
    ensures var g := Apply(o, IngestRecord(record, name, shown));
            && g.domains == o.domains && g.reports == o.reports && g.records.Keys == o.records.Keys + {record}
            && (forall i | i in o.records && i != record :: g.records[i] == o.records[i])
            && g.records[record].headerFrom == name && g.records[record].shown == shown
            && IsClosest(o.domains.Keys, name, g.records[record].domain)
  {
    ClosestIsLongest(o.domains.Keys, Norm(name));
  }

  ghost predicate NeverDeleted(rs: seq<Request>, n: string) {
    forall r | r in rs :: !(r.Delete? && r.name == n)
  }

  /** A verified domain stays registered and verified until it is deleted. */
  lemma {:induction false} VerificationIsNeverLost(o: Org, rs: seq<Request>, n: string)
    requires OrgOk(o) && (forall r | r in rs :: Sane(r)) && NeverDeleted(rs, n)
    requires n in o.domains && o.domains[n].verified
    ensures n in Run(o, rs).domains && Run(o, rs).domains[n].verified
    decreases |rs|
  {
    if rs != [] {
      assert rs[0] in rs && forall r | r in rs[1..] :: r in rs;
      RequestKeepsOrg(o, rs[0]);
      assert n in Apply(o, rs[0]).domains;
      VerificationIsNeverLost(Apply(o, rs[0]), rs[1..], n);
    }
  }

  // ----- reports against a full re-match

  /** Every report the application sees is on the closest registered domain of its policy domain. */
  ghost predicate ReportsExact(reports: Reports, registered: set<string>) {
    forall i | i in reports && reports[i].shown :: reports[i].domain == Match(registered, reports[i].policyDomain)
  }

  /** After adding names the sweep leaves the reports exact if and only if no report that has a
      domain belongs to one of the names now. */
  lemma ReportsAddExact(reports: Reports, registered: set<string>, names: set<string>)
    requires ReportsExact(reports, registered) && names !! registered
    ensures ReportsExact(SweepReports(reports, registered + names), registered + names) <==>
            forall i | i in reports && reports[i].shown && reports[i].domain.Some? ::
                !TakenOver(registered, names, reports[i].policyDomain)
  {
    var swept := SweepReports(reports, registered + names);
    forall i | i in reports && reports[i].shown
      ensures swept[i].domain == Match(registered + names, reports[i].policyDomain) <==>
              (reports[i].domain.Some? ==> !TakenOver(registered, names, reports[i].policyDomain))
    {
      MatchTakenOver(registered, names, Norm(reports[i].policyDomain));
    }
    if ReportsExact(swept, registered + names) {
      assert forall i | i in reports && reports[i].shown ::
          swept[i].domain == Match(registered + names, swept[i].policyDomain);
    }
  }

  /** A removal always leaves them exact: the removed domain's reports wait again and are swept. */
  lemma ReportsRemoveExact(reports: Reports, registered: set<string>, d: string)
    requires ReportsExact(reports, registered) && d in registered
    ensures ReportsExact(SweepReports(UnlinkedReports(reports, d), registered - {d}), registered - {d})
  {
    var rest := registered - {d};
    assert rest + {d} == registered;
    forall i | i in reports && reports[i].shown
      ensures SweepReports(UnlinkedReports(reports, d), rest)[i].domain == Match(rest, reports[i].policyDomain)
    {
      MatchTakenOver(rest, {d}, Norm(reports[i].policyDomain));
    }
  }

  /** Every report that has a domain and belongs to the new one now keeps the one it has. */
  lemma ReportKeepsOlderDomain(o: Org, i: ReportId, n: string, parent: Option<string>)
    requires i in o.reports && o.reports[i].domain.Some? && n !in o.domains
               && (parent.Some? ==> parent.value in o.domains)
    requires TakenOver(o.domains.Keys, {n}, o.reports[i].policyDomain) && o.reports[i].domain != Some(n)
    ensures var after := Attribute(o.(domains := WithDomain(o.domains, n, parent)), {n});
            after.reports[i].domain == o.reports[i].domain != Match(after.domains.Keys, o.reports[i].policyDomain)
  {
    assert WithDomain(o.domains, n, parent).Keys == o.domains.Keys + {n};
  }
}
