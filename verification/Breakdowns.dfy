/** service_breakdown, its batched sibling, and all the roll-ups against each other
    (backend/app/services/dmarc_analytics.py, backend/app/repositories/dmarc_reports.py). */
module Breakdowns {
  import opened Wrappers
  import opened Collections
  import opened Rollups
  import opened ServiceOrder
  import opened Services

  function IpOf(r: Record): string {
    r.sourceIp
  }

  method ServiceBreakdown(perIp: seq<IpRow>, ids: Identities) returns (services: seq<Service>)
    requires AllIdentified(perIp, ids)
    ensures services == ServicesOf(perIp, ids)
  {
    if perIp == [] {
      return [];
    }
    services := BuildServices(perIp, ids);
  }

  // ----- every total of one domain, whichever query it comes from

  /** With record flags that follow their reports': the headline numbers, report_totals, the rows
      of any grouping (by source, reporter or disposition), the per-IP rows and the services made
      from them all add up to the same volume, passes and dispositions. */
  lemma RollupsAgree<K(!new)>(records: seq<Record>, reports: Reports, domain: string,
                             grouped: seq<Group<K>>, column: Record -> K, perIp: seq<IpRow>, ids: Identities)
    requires FlagsFollow(records, reports)
    requires IsGroupBy(grouped, JoinedRows(records, reports, domain, None), column, CountsIn(reports))
    requires IsGroupBy(perIp, JoinedRows(records, reports, domain, None), IpOf, CountsIn(reports))
    ensures var totals := Sum(JoinedRows(records, reports, domain, None), CountsIn(reports));
            && SummaryTotals(records, domain) == (totals.volume, totals.dmarcPass)
            && Sum(grouped, GroupCounts) == totals
            && Sum(ServicesOf(perIp, ids), ServiceCounts) == totals
            && WellCounted(totals)
  {
    var rows := JoinedRows(records, reports, domain, None);
    SummaryAgreesWithTotals(records, reports, domain);
    GroupsAddUp(grouped, rows, column, CountsIn(reports));
    GroupsAddUp(perIp, rows, IpOf, CountsIn(reports));
    ServicesAddUp(perIp, ids);
    RowsWellCounted(rows, reports);
  }

  lemma RowsWellCounted(rows: seq<Record>, reports: Reports)
    ensures WellCounted(Sum(rows, CountsIn(reports)))
  {
    SumWellCounted(rows, CountsIn(reports));
  }

  /** From the records up: whatever they say, a service flagged as likely spoofed passes DMARC
      on at most 10.1% of its mail. */
  lemma FlaggedServicesPassLittle(rows: seq<Record>, reports: Reports, perIp: seq<IpRow>, ids: Identities)
    requires IsGroupBy(perIp, rows, IpOf, CountsIn(reports)) && AllIdentified(perIp, ids)
    ensures forall s | s in ServicesOf(perIp, ids) ::
              && WellCounted(s.counts)
              && (s.likelySpoofed ==> 1000 * s.counts.dmarcPass <= 101 * s.counts.volume)
  {
    GroupsWellCounted(perIp, rows, IpOf, reports);
    forall s | s in ServicesOf(perIp, ids)
      ensures WellCounted(s.counts)
      ensures s.likelySpoofed ==> 1000 * s.counts.dmarcPass <= 101 * s.counts.volume
    {
      ServiceFromRows(perIp, ids, s);
      if s.likelySpoofed {
        SpoofedPassesLittle(s.counts);
      }
    }
  }

  lemma ServiceFromRows(perIp: seq<IpRow>, ids: Identities, s: Service)
    requires forall g | g in perIp :: WellCounted(g.counts)
    ensures s in ServicesOf(perIp, ids) ==> WellCounted(s.counts) && s.likelySpoofed == LikelySpoofed(s.counts)
  {
    SortedIsStable(Listed(perIp, ids), ServiceByVolume);
    InListed(perIp, ids, s);
    InWith(perIp, ServiceOf(ids), s.name);
    SumWellCounted(With(perIp, ServiceOf(ids), s.name), GroupCounts);
  }

  // ----- several domains in one query

  datatype DomainIp = DomainIp(domain: string, sourceIp: string)

  type MultiRow = Group<DomainIp>

  function DomainOf(g: MultiRow): string {
    g.key.domain
  }

  function DomainIpOf(r: Record): DomainIp {
    DomainIp(if r.domain.Some? then r.domain.value else "", r.sourceIp)
  }

  function MultiFilter(reports: Reports, domains: seq<string>, since: Option<int>): Record -> bool {
    (r: Record) => r.domain.Some? && r.domain.value in domains && r.verified != Some(false)
        && ReportSeen(r, reports, since)
  }

  /** The rows of per_source_ip_volume_breakdown_multi read these records. */
  function MultiRows(records: seq<Record>, reports: Reports, domains: seq<string>, since: Option<int>): seq<Record> {
    Select(records, MultiFilter(reports, domains, since))
  }

  function AsIpRow(g: MultiRow): IpRow {
    Group(g.key.sourceIp, g.counts)
  }

  /** One domain's rows of the batched query, in its order. */
  function RowsFor(rows: seq<MultiRow>, domain: string): seq<IpRow> {
    Map(With(rows, DomainOf, domain), AsIpRow)
  }

  predicate AllRowsIdentified(rows: seq<MultiRow>, ids: Identities) {
    forall r | r in rows :: r.key.sourceIp in ids
  }

  lemma RowsForOneMore(rows: seq<MultiRow>, row: MultiRow, domain: string)
    ensures RowsFor(rows + [row], domain) == RowsFor(rows, domain) +
              if row.key.domain == domain then [AsIpRow(row)] else []
  {
    WithConcat(rows, [row], DomainOf, domain);
    WithOne(row, DomainOf, domain);
  }

  lemma RowsForIdentified(rows: seq<MultiRow>, domain: string, ids: Identities)
    requires AllRowsIdentified(rows, ids)
    ensures AllIdentified(RowsFor(rows, domain), ids)
  {
    InWith(rows, DomainOf, domain);
    var perIp := RowsFor(rows, domain);
    forall r | r in perIp
      ensures r.key in ids
    {
      var k :| 0 <= k < |perIp| && perIp[k] == r;
      assert With(rows, DomainOf, domain)[k] in rows;
    }
  }

  ghost predicate SplitUpTo(byDomain: map<string, seq<IpRow>>, rows: seq<MultiRow>) {
    forall d :: if d in byDomain then byDomain[d] == RowsFor(rows, d) && byDomain[d] != [] else RowsFor(rows, d) == []
  }

  /** per_ip_by_domain */
  method SplitByDomain(rows: seq<MultiRow>) returns (byDomain: map<string, seq<IpRow>>)
    ensures SplitUpTo(byDomain, rows)
  {
    byDomain := map[];
    for i := 0 to |rows|
      invariant SplitUpTo(byDomain, rows[..i])
    {
      var row := rows[i];
      assert rows[..i + 1] == rows[..i] + [row];
      forall d
        ensures RowsFor(rows[..i + 1], d) == RowsFor(rows[..i], d) + if d == row.key.domain then [AsIpRow(row)] else []
      {
        RowsForOneMore(rows[..i], row, d);
      }
      var before := if row.key.domain in byDomain then byDomain[row.key.domain] else [];
      byDomain := byDomain[row.key.domain := before + [Group(row.key.sourceIp, row.counts)]];
    }
    assert rows[..|rows|] == rows;
  }

  method BuildAll(byDomain: map<string, seq<IpRow>>, ids: Identities) returns (result: map<string, seq<Service>>)
    requires forall d | d in byDomain :: AllIdentified(byDomain[d], ids)
    ensures result.Keys == byDomain.Keys && Built(result, byDomain, ids)
  {
    result := map[];
    var left := byDomain.Keys;
    while left != {}
      invariant forall d :: d in byDomain <==> d in result || d in left
      invariant Built(result, byDomain, ids)
      decreases |left|
    {
      var d :| d in left;
      left := left - {d};
      var services := BuildServices(byDomain[d], ids);
      BuiltOne(result, byDomain, ids, d, services);
      result := result[d := services];
    }
  }

  ghost predicate Built(result: map<string, seq<Service>>, byDomain: map<string, seq<IpRow>>, ids: Identities) {
    forall d | d in result :: d in byDomain && result[d] == ServicesOf(byDomain[d], ids)
  }

  lemma BuiltOne(result: map<string, seq<Service>>, byDomain: map<string, seq<IpRow>>, ids: Identities,
                 d: string, services: seq<Service>)
    requires Built(result, byDomain, ids) && d in byDomain && services == ServicesOf(byDomain[d], ids)
    ensures Built(result[d := services], byDomain, ids)
  {
  }

  /** service_breakdown_multi: split by domain, then the same roll-up with the shared identities. */
  method ServiceBreakdownMulti(rows: seq<MultiRow>, ids: Identities) returns (result: map<string, seq<Service>>)
    requires AllRowsIdentified(rows, ids)
    ensures forall d :: d in result <==> RowsFor(rows, d) != []
    ensures forall d | d in result :: result[d] == ServicesOf(RowsFor(rows, d), ids)
  {
    var byDomain := SplitByDomain(rows);
    forall d | d in byDomain
      ensures AllIdentified(byDomain[d], ids)
    {
      RowsForIdentified(rows, d, ids);
    }
    result := BuildAll(byDomain, ids);
  }

  lemma {:induction false} SelectWith(records: seq<Record>, wide: Record -> bool, narrow: Record -> bool,
        domain: string, ip: string)
    requires forall r | r in records :: narrow(r) <==> wide(r) && r.domain == Some(domain)
    requires forall r | r in records && wide(r) :: r.domain.Some?
    ensures With(Select(records, wide), DomainIpOf, DomainIp(domain, ip)) == With(Select(records, narrow), IpOf, ip)
  {
    if records != [] {
      assert records == [records[0]] + records[1..];
      SelectWith(records[1..], wide, narrow, domain, ip);
      var w, n := Select(records[1..], wide), Select(records[1..], narrow);
      assert ([records[0]] + w)[1..] == w && ([records[0]] + n)[1..] == n;
    }
  }

  /** The batched query restricted to one of its domains is that domain's own query. */
  lemma MultiRestrictsToSingle(rows: seq<MultiRow>, records: seq<Record>, reports: Reports, domains: seq<string>,
        domain: string, since: Option<int>)
    requires domain in domains
    requires IsGroupBy(rows, MultiRows(records, reports, domains, since), DomainIpOf, CountsIn(reports))
    ensures IsGroupBy(RowsFor(rows, domain), JoinedRows(records, reports, domain, since), IpOf, CountsIn(reports))
  {
    var wide, narrow := MultiFilter(reports, domains, since), JoinedFilter(reports, domain, since);
    var mine, perIp := With(rows, DomainOf, domain), RowsFor(rows, domain);
    InWith(rows, DomainOf, domain);
    MineDistinct(rows, domain);
    forall i, j | 0 <= i < j < |perIp|
      ensures perIp[i].key != perIp[j].key
    {
      assert mine[i].key.sourceIp != mine[j].key.sourceIp;
    }
    forall k | 0 <= k < |perIp|
      ensures perIp[k].counts
                == Sum(With(JoinedRows(records, reports, domain, since), IpOf, perIp[k].key), CountsIn(reports))
    {
      assert mine[k] in mine && mine[k] in rows && mine[k].key == DomainIp(domain, perIp[k].key);
      var j :| 0 <= j < |rows| && rows[j] == mine[k];
      SelectWith(records, wide, narrow, domain, perIp[k].key);
    }
    InWith(records, narrow, true);
    InWith(records, wide, true);
    forall r | r in JoinedRows(records, reports, domain, since)
      ensures exists k :: 0 <= k < |perIp| && perIp[k].key == IpOf(r)
    {
      assert r in MultiRows(records, reports, domains, since);
      var j :| 0 <= j < |rows| && rows[j].key == DomainIpOf(r);
      assert rows[j] in mine;
      var k :| 0 <= k < |mine| && mine[k] == rows[j];
      assert perIp[k].key == IpOf(r);
    }
  }

  /** The batch reads the records of the domains asked for, and answers for no other. */
  lemma MultiExactly(rows: seq<MultiRow>, records: seq<Record>, reports: Reports, domains: seq<string>,
                     since: Option<int>, r: Record)
    ensures r in MultiRows(records, reports, domains, since) <==>
              exists d | d in domains :: r in JoinedRows(records, reports, d, since)
    ensures NoEmptyGroups(rows, MultiRows(records, reports, domains, since), DomainIpOf) ==>
              forall d | RowsFor(rows, d) != [] :: d in domains
  {
    var read := MultiRows(records, reports, domains, since);
    InWith(records, MultiFilter(reports, domains, since), true);
    forall d: string
      ensures r in JoinedRows(records, reports, d, since) <==>
                r in records && SeenJoined(r, reports, d, since)
    {
      InWith(records, JoinedFilter(reports, d, since), true);
    }
    if NoEmptyGroups(rows, read, DomainIpOf) {
      forall d | RowsFor(rows, d) != []
        ensures d in domains
      {
        var row := With(rows, DomainOf, d)[0];
        WithAt(rows, DomainOf, d, 0);
        var k :| 0 <= k < |rows| && rows[k] == row;
        WithAt(read, DomainIpOf, row.key, 0);
      }
    }
  }

  lemma MultiRowsOccur(rows: seq<MultiRow>, records: seq<Record>, reports: Reports, domains: seq<string>,
                       domain: string, since: Option<int>)
    requires domain in domains
    requires NoEmptyGroups(rows, MultiRows(records, reports, domains, since), DomainIpOf)
    ensures NoEmptyGroups(RowsFor(rows, domain), JoinedRows(records, reports, domain, since), IpOf)
  {
    var wide, narrow := MultiFilter(reports, domains, since), JoinedFilter(reports, domain, since);
    var mine, perIp := With(rows, DomainOf, domain), RowsFor(rows, domain);
    InWith(rows, DomainOf, domain);
    forall k | 0 <= k < |perIp|
      ensures With(JoinedRows(records, reports, domain, since), IpOf, perIp[k].key) != []
    {
      assert mine[k] in mine && mine[k] in rows && mine[k].key == DomainIp(domain, perIp[k].key);
      var j :| 0 <= j < |rows| && rows[j] == mine[k];
      SelectWith(records, wide, narrow, domain, perIp[k].key);
    }
  }

  /** The services the batch makes for one of its domains against those its own query makes: the
      same services but for the order, and the same list whatever order either query used exactly
      when the domain's rows are settled. */
  lemma MultiAgreesWithSingle(rows: seq<MultiRow>, perIp: seq<IpRow>, records: seq<Record>, reports: Reports,
                              domains: seq<string>, domain: string, since: Option<int>, ids: Identities)
    requires domain in domains && AllIdentified(perIp, ids)
    requires IsGroupBy(rows, MultiRows(records, reports, domains, since), DomainIpOf, CountsIn(reports))
    requires NoEmptyGroups(rows, MultiRows(records, reports, domains, since), DomainIpOf)
    requires IsListing(perIp, JoinedRows(records, reports, domain, since), IpOf, CountsIn(reports))
    ensures var mine := RowsFor(rows, domain);
            && SameRows(mine, perIp) && (mine == [] <==> perIp == [])
            && SameServices(mine, perIp, ids) && SameServices(perIp, mine, ids)
            && (AgreesWithAll(mine, JoinedRows(records, reports, domain, since), reports, ids) <==> Settled(perIp, ids))
  {
    var mine, xs := RowsFor(rows, domain), JoinedRows(records, reports, domain, since);
    MultiRestrictsToSingle(rows, records, reports, domains, domain, since);
    MultiRowsOccur(rows, records, reports, domains, domain, since);
    ListingsAgree(mine, perIp, xs, IpOf, CountsIn(reports));
    SameEmptiness(mine, perIp);
    ServicesUpToOrder(mine, perIp, ids);
    ServicesUpToOrder(perIp, mine, ids);
    OrderFreeExactly(mine, ids);
    OrderFreeExactly(perIp, ids);
    OrderFreeMoves(mine, perIp, ids);
    forall b
      ensures IsListing(b, xs, IpOf, CountsIn(reports)) <==> SameRows(mine, b)
    {
      ListingsAgree(mine, b, xs, IpOf, CountsIn(reports));
    }
  }

  /** Whichever listing the single query gives, its services are those of `mine`. */
  ghost predicate AgreesWithAll(mine: seq<IpRow>, xs: seq<Record>, reports: Reports, ids: Identities) {
    forall b | IsListing(b, xs, IpOf, CountsIn(reports)) :: ServicesOf(b, ids) == ServicesOf(mine, ids)
  }

  ghost predicate DistinctIps(rows: seq<MultiRow>) {
    forall i, j | 0 <= i < j < |rows| :: rows[i].key.sourceIp != rows[j].key.sourceIp
  }

  lemma {:induction false} MineDistinct(rows: seq<MultiRow>, domain: string)
    requires forall i, j | 0 <= i < j < |rows| :: rows[i].key != rows[j].key
    ensures DistinctIps(With(rows, DomainOf, domain))
  {
    if rows != [] {
      MineDistinct(rows[1..], domain);
      var mine := With(rows[1..], DomainOf, domain);
      if rows[0].key.domain == domain {
        assert With(rows, DomainOf, domain) == [rows[0]] + mine;
        forall k | 0 <= k < |mine|
          ensures mine[k].key.sourceIp != rows[0].key.sourceIp
        {
          WithAt(rows[1..], DomainOf, domain, k);
          var j :| 0 <= j < |rows[1..]| && rows[1..][j] == mine[k];
          assert rows[j + 1].key != rows[0].key;
        }
        assert DistinctIps(mine) && DistinctIps([rows[0]] + mine);
      }
    }
  }
}
