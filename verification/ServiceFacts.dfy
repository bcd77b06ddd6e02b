/** What the client is told about each service, from the IP rows alone
    (backend/app/services/dmarc_analytics.py). */
module ServiceFacts {
  import opened Wrappers
  import opened Collections
  import opened Rollups
  import opened Services

  /** n of d as a percentage in tenths, to the nearest, halves to the even side; unknown if d is 0. */
  predicate RoundsTo(pct: Option<nat>, n: nat, d: nat) {
    && (pct.None? <==> d == 0)
    && (pct.Some? ==>
          && 2000 * n - d <= 2 * pct.value * d <= 2000 * n + d
          && ((2 * pct.value * d == 2000 * n + d || 2 * pct.value * d == 2000 * n - d) ==> pct.value % 2 == 0))
  }

  lemma PctExactly(n: nat, d: nat)
    ensures RoundsTo(Pct(n, d), n, d)
  {
    if d > 0 {
      var q, r := 1000 * n / d, 1000 * n % d;
      assert 1000 * n == q * d + r;
      assert 2 * (q + 1) * d == 2 * (q * d) + 2 * d && 2 * q * d == 2 * (q * d);
    }
  }

  /** No other tenth would do. */
  lemma RoundingIsUnique(p: nat, q: nat, n: nat, d: nat)
    requires RoundsTo(Some(p), n, d) && RoundsTo(Some(q), n, d)
    ensures p == q
  {
    if p < q {
      Apart(p, q, n, d);
    } else if q < p {
      Apart(q, p, n, d);
    }
  }

  lemma Apart(p: nat, q: nat, n: nat, d: nat)
    requires p < q && d > 0 && 2 * q * d <= 2000 * n + d && 2000 * n - d <= 2 * p * d
    ensures q == p + 1 && 2 * q * d == 2000 * n + d && 2 * p * d == 2000 * n - d
  {
    assert 2 * q * d == 2 * p * d + 2 * ((q - p) * d);
    OneAtMost(q - p, d);
  }

  lemma OneAtMost(a: nat, d: nat)
    requires d > 0 && a > 0 && a * d <= d
    ensures a == 1
  {
    if a >= 2 {
      TimesAtLeast(2, a, d);
    }
  }

  /** The rows of one service, and of one address family of it. */
  predicate OfService(r: IpRow, ids: Identities, name: string) {
    r.key in ids && ids[r.key].service == name
  }

  ghost predicate FamilyState(state: Option<Fcrdns>, rows: seq<IpRow>, ids: Identities, v6: bool) {
    && (state.None? <==> forall r | r in rows :: (':' in r.key) != v6)
    && (state == Some(Pass) <==> state.Some? && forall r | r in rows && (':' in r.key) == v6 :: Confirmed(r, ids))
    && (state == Some(Fail) <==> state.Some? && forall r | r in rows && (':' in r.key) == v6 :: !Confirmed(r, ids))
  }

  /** The three percentages are of the service's own sums. */
  predicate Percentages(s: Service) {
    && RoundsTo(s.spfPct, s.counts.spfPass, s.counts.volume)
    && RoundsTo(s.dkimPct, s.counts.dkimPass, s.counts.volume)
    && RoundsTo(s.dmarcPct, s.counts.dmarcPass, s.counts.volume)
  }

  /** The state of each address family and of both, and whether there is IPv6 mail at all. */
  ghost predicate States(s: Service, rows: seq<IpRow>, ids: Identities) {
    && (s.fcrdns == Pass <==> forall r | r in rows :: Confirmed(r, ids))
    && (s.fcrdns == Fail <==> forall r | r in rows :: !Confirmed(r, ids))
    && FamilyState(s.fcrdnsV4, rows, ids, false) && FamilyState(s.fcrdnsV6, rows, ids, true)
    && (s.sendsIpv6 <==> exists r | r in rows :: ':' in r.key)
  }

  lemma DescribedPercentages(b: Bucket, ids: Identities)
    ensures Percentages(Describe(b, ids))
  {
    PctExactly(b.counts.spfPass, b.counts.volume);
    PctExactly(b.counts.dkimPass, b.counts.volume);
    PctExactly(b.counts.dmarcPass, b.counts.volume);
  }

  lemma DescribedStates(b: Bucket, ids: Identities)
    requires b.ips != []
    ensures States(Describe(b, ids), b.ips, ids)
  {
    FcrdnsExactly(b.ips, ids);
    FamilyExactly(b.ips, ids, false);
    FamilyExactly(b.ips, ids, true);
  }

  lemma Described(perIp: seq<IpRow>, ids: Identities, s: Service)
    requires s in ServicesOf(perIp, ids)
    ensures With(perIp, ServiceOf(ids), s.name) != [] && s == Describe(BucketOf(s.name, perIp, ids), ids)
  {
    InServices(perIp, ids, s);
  }

  /** One service: the sums, number and percentages of its rows, and how the first of them was matched. */
  lemma ServiceExactly(perIp: seq<IpRow>, ids: Identities, s: Service)
    requires AllIdentified(perIp, ids) && s in ServicesOf(perIp, ids)
    ensures var rows := With(perIp, ServiceOf(ids), s.name);
            && rows != [] && (forall r :: r in rows <==> r in perIp && OfService(r, ids, s.name))
            && s.counts == Sum(rows, GroupCounts) && s.ipCount == |rows| && Percentages(s)
            && s.matchMethod == ids[rows[0].key].matchMethod
  {
    Described(perIp, ids, s);
    var rows := With(perIp, ServiceOf(ids), s.name);
    InWith(perIp, ServiceOf(ids), s.name);
    assert rows[0] in rows;
    DescribedPercentages(BucketOf(s.name, perIp, ids), ids);
  }

  /** And its reverse-DNS states. */
  lemma ServiceStates(perIp: seq<IpRow>, ids: Identities, s: Service)
    requires s in ServicesOf(perIp, ids)
    ensures States(s, With(perIp, ServiceOf(ids), s.name), ids)
  {
    Described(perIp, ids, s);
    DescribedStates(BucketOf(s.name, perIp, ids), ids);
  }

  lemma FamilyExactly(rows: seq<IpRow>, ids: Identities, v6: bool)
    ensures var family := With(rows, IsIpv6, v6);
            FamilyState(if family == [] then None else Some(FcrdnsStatus(family, ids)), rows, ids, v6)
    ensures With(rows, IsIpv6, v6) != [] <==> exists r | r in rows :: (':' in r.key) == v6
  {
    var family := With(rows, IsIpv6, v6);
    InWith(rows, IsIpv6, v6);
    NoElements(family);
    FcrdnsExactly(family, ids);
  }

  /** Its list of IPs: each row's own facts, most mail first. */
  lemma SourceIpsExactly(perIp: seq<IpRow>, ids: Identities, s: Service, k: nat)
    requires AllIdentified(perIp, ids) && s in ServicesOf(perIp, ids) && k < |s.sourceIps|
    ensures var ip := s.sourceIps[k];
            && ip.row in perIp && OfService(ip.row, ids, s.name)
            && (ip.isIpv6 <==> ':' in ip.row.key) && ip.fcrdnsValid == ids[ip.row.key].fcrdnsValid
            && RoundsTo(ip.spfPct, ip.row.counts.spfPass, ip.row.counts.volume)
            && RoundsTo(ip.dkimPct, ip.row.counts.dkimPass, ip.row.counts.volume)
            && (k > 0 ==> s.sourceIps[k - 1].row.counts.volume >= ip.row.counts.volume)
  {
    RowsOfService(perIp, ids, s);
    InServices(perIp, ids, s);
    var ip := s.sourceIps[k];
    assert Rows(s)[k] == ip.row && ip.row in Rows(s);
    PctExactly(ip.row.counts.spfPass, ip.row.counts.volume);
    PctExactly(ip.row.counts.dkimPass, ip.row.counts.volume);
    if k > 0 {
      assert AtMost(ByVolume(Rows(s)[k - 1]), ByVolume(Rows(s)[k]));
    }
  }

  /** The services with the most mail come first. */
  lemma BusiestFirst(perIp: seq<IpRow>, ids: Identities, i: nat, j: nat)
    requires i < j < |ServicesOf(perIp, ids)|
    ensures ServicesOf(perIp, ids)[i].counts.volume >= ServicesOf(perIp, ids)[j].counts.volume
  {
    SortedIsStable(Listed(perIp, ids), ServiceByVolume);
    assert AtMost(ServiceByVolume(ServicesOf(perIp, ids)[i]), ServiceByVolume(ServicesOf(perIp, ids)[j]));
  }
}
