/** Per-IP rows rolled up into sending services (backend/app/services/dmarc_analytics.py). */
module Services {
  import opened Wrappers
  import opened Collections
  import opened Rollups

  /** One row of per_source_ip_volume_breakdown; its key is the source IP. */
  type IpRow = Group<string>

  /** What identify_many found out about an IP; no fcrdnsValid where there is no PTR. */
  datatype Identity = Identity(service: string, matchMethod: string, fcrdnsValid: Option<bool>)

  type Identities = map<string, Identity>

  datatype Bucket = Bucket(service: string, matchMethod: string, counts: Counts, ipCount: nat, ips: seq<IpRow>)

  function ServiceOf(ids: Identities): IpRow -> string {
    (r: IpRow) => if r.key in ids then ids[r.key].service else ""
  }

  predicate AllIdentified(perIp: seq<IpRow>, ids: Identities) {
    forall r | r in perIp :: r.key in ids
  }

  /** Everything of one service: its rows in order, their number and sums, and how its first IP was matched. */
  function BucketOf(service: string, perIp: seq<IpRow>, ids: Identities): Bucket {
    var rows := With(perIp, ServiceOf(ids), service);
    var matched := if rows != [] && rows[0].key in ids then ids[rows[0].key].matchMethod else "";
    Bucket(service, matched, Sum(rows, GroupCounts), |rows|, rows)
  }

  // ----- the loop over the rows

  /** The services in order of first appearance. */
  function ServiceNames(perIp: seq<IpRow>, ids: Identities): seq<string> {
    FirstSeen(perIp, ServiceOf(ids))
  }

  lemma {:induction false} TotalConcat(a: seq<IpRow>, b: seq<IpRow>, m: Measure)
    ensures Total(a + b, GroupCounts, m) == Total(a, GroupCounts, m) + Total(b, GroupCounts, m)
  {
    if a == [] {
      assert a + b == b;
    } else {
      assert (a + b)[1..] == a[1..] + b;
      TotalConcat(a[1..], b, m);
    }
  }

  lemma SumGrows(rows: seq<IpRow>, row: IpRow)
    ensures Sum(rows + [row], GroupCounts) == Plus(Sum(rows, GroupCounts), row.counts)
  {
    forall m: Measure
      ensures Total(rows + [row], GroupCounts, m) == Total(rows, GroupCounts, m) + Part(row.counts, m)
    {
      TotalConcat(rows, [row], m);
    }
  }

  lemma BucketGrows(name: string, before: seq<IpRow>, row: IpRow, ids: Identities)
    requires row.key in ids
    ensures var was := BucketOf(name, before, ids);
            BucketOf(name, before + [row], ids) ==
              if ServiceOf(ids)(row) != name then was
              else Bucket(name, if was.ips == [] then ids[row.key].matchMethod else was.matchMethod,
                          Plus(was.counts, row.counts), was.ipCount + 1, was.ips + [row])
  {
    WithConcat(before, [row], ServiceOf(ids), name);
    WithOne(row, ServiceOf(ids), name);
    var rows := With(before, ServiceOf(ids), name);
    if ServiceOf(ids)(row) == name {
      SumGrows(rows, row);
      assert With(before + [row], ServiceOf(ids), name) == rows + [row];
      assert (rows + [row])[0] == if rows == [] then row else rows[0];
    } else {
      assert With(before + [row], ServiceOf(ids), name) == rows;
    }
  }

  ghost predicate BucketsUpTo(buckets: map<string, Bucket>, perIp: seq<IpRow>, ids: Identities) {
    && (forall name :: name in buckets <==> name in ServiceNames(perIp, ids))
    && (forall name | name in buckets :: buckets[name] == BucketOf(name, perIp, ids))
  }

  lemma EmptyBucket(name: string, perIp: seq<IpRow>, ids: Identities)
    requires name !in ServiceNames(perIp, ids)
    ensures BucketOf(name, perIp, ids) == Bucket(name, "", ZERO, 0, [])
  {
    FirstSeenAreThose(perIp, ServiceOf(ids));
  }

  lemma BucketsGrow(buckets: map<string, Bucket>, before: seq<IpRow>, row: IpRow, ids: Identities, bucket: Bucket)
    requires BucketsUpTo(buckets, before, ids) && row.key in ids
    requires bucket == BucketOf(ServiceOf(ids)(row), before + [row], ids)
    ensures BucketsUpTo(buckets[bucket.service := bucket], before + [row], ids)
  {
    var all := before + [row];
    assert all[..|all| - 1] == before;
    forall name | name in buckets && name != bucket.service
      ensures buckets[name] == BucketOf(name, all, ids)
    {
      BucketGrows(name, before, row, ids);
    }
  }

  /** by_service: one bucket per service, updated row by row. */
  method FillBuckets(perIp: seq<IpRow>, ids: Identities) returns (order: seq<string>, buckets: map<string, Bucket>)
    requires AllIdentified(perIp, ids)
    ensures order == ServiceNames(perIp, ids) && BucketsUpTo(buckets, perIp, ids)
  {
    order, buckets := [], map[];
    for i := 0 to |perIp|
      invariant order == ServiceNames(perIp[..i], ids) && BucketsUpTo(buckets, perIp[..i], ids)
    {
      var row := perIp[i];
      assert perIp[..i + 1] == perIp[..i] + [row] && perIp[..i + 1][..i] == perIp[..i];
      var identity := ids[row.key];
      var bucket := Bucket(identity.service, identity.matchMethod, ZERO, 0, []);
      if identity.service in buckets {
        bucket := buckets[identity.service];
        FirstSeenAreThose(perIp[..i], ServiceOf(ids));
      } else {
        order := order + [identity.service];
        EmptyBucket(identity.service, perIp[..i], ids);
      }
      bucket := bucket.(counts := Plus(bucket.counts, row.counts));
      bucket := bucket.(ipCount := bucket.ipCount + 1);
      bucket := bucket.(ips := bucket.ips + [row]);
      BucketGrows(identity.service, perIp[..i], row, ids);
      BucketsGrow(buckets, perIp[..i], row, ids, bucket);
      buckets := buckets[identity.service := bucket];
    }
    assert perIp[..|perIp|] == perIp;
  }

  // ----- the signals of one service

  /** round(n / d * 100, 1) in tenths of a percent, halves to even; nothing when d is 0. */
  function Pct(n: nat, d: nat): Option<nat> {
    if d == 0 then None
    else
      var q, r := 1000 * n / d, 1000 * n % d;
      Some(if 2 * r < d || (2 * r == d && q % 2 == 0) then q else q + 1)
  }

  const BLOCKED_MIN_PCT := 90
  const ALIGNED_MAX_TENTHS := 50

  predicate AtMostAligned(tenths: Option<nat>) {
    tenths.None? || tenths.value <= ALIGNED_MAX_TENTHS
  }

  predicate LikelySpoofed(c: Counts) {
    c.enforced != 0
    && 100 * c.enforcedBlocked >= BLOCKED_MIN_PCT * c.enforced
    && AtMostAligned(Pct(c.spfPass, c.volume)) && AtMostAligned(Pct(c.dkimPass, c.volume))
  }

  lemma TimesAtLeast(a: nat, b: nat, d: nat)
    requires a <= b
    ensures a * d <= b * d
  {
  }

  /** Rounding lets a little more than 5.0% through: up to 5.05%. */
  lemma AlignedBound(n: nat, d: nat)
    requires d > 0
    ensures AtMostAligned(Pct(n, d)) <==> 2000 * n <= 101 * d
  {
    var q, r := 1000 * n / d, 1000 * n % d;
    assert 1000 * n == q * d + r;
    if q < 50 {
      TimesAtLeast(q, 49, d);
    } else if q > 50 {
      TimesAtLeast(51, q, d);
    }
  }

  /** When a service is flagged, in whole messages. */
  lemma SpoofedExactly(c: Counts)
    requires WellCounted(c)
    ensures LikelySpoofed(c) <==>
              (c.enforced > 0 && 10 * c.enforcedBlocked >= 9 * c.enforced
               && 2000 * c.spfPass <= 101 * c.volume && 2000 * c.dkimPass <= 101 * c.volume)
  {
    if c.volume > 0 {
      AlignedBound(c.spfPass, c.volume);
      AlignedBound(c.dkimPass, c.volume);
    }
  }

  /** A flagged service passes DMARC on at most 10.1% of its mail, and at least 90% of what it
      sent under enforcement was quarantined or rejected. */
  lemma SpoofedPassesLittle(c: Counts)
    requires WellCounted(c) && LikelySpoofed(c)
    ensures 1000 * c.dmarcPass <= 101 * c.volume
    ensures 10 * (c.quarantined + c.rejected) >= 9 * c.enforced > 0
  {
    SpoofedExactly(c);
  }

  /** The bound is met: 202 of 2000 messages pass, each by one mechanism, and rounding hides it. */
  lemma SpoofedBoundIsSharp()
    ensures var c := Counts(2000, 101, 101, 202, 0, 0, 2000, 2000, 2000);
            WellCounted(c) && LikelySpoofed(c) && 1000 * c.dmarcPass == 101 * c.volume
  {
    assert Pct(101, 2000) == Some(50) by {
      assert 1000 * 101 / 2000 == 50 && 1000 * 101 % 2000 == 1000;
    }
  }

  datatype Fcrdns = Pass | Partial | Fail

  function FcrdnsStatus(rows: seq<IpRow>, ids: Identities): Fcrdns {
    var hasPass := exists r | r in rows :: r.key in ids && ids[r.key].fcrdnsValid == Some(true);
    var hasUnconfirmed := exists r | r in rows :: !(r.key in ids && ids[r.key].fcrdnsValid == Some(true));
    if hasPass && !hasUnconfirmed then Pass else if hasPass && hasUnconfirmed then Partial else Fail
  }

  predicate Confirmed(r: IpRow, ids: Identities) {
    r.key in ids && ids[r.key].fcrdnsValid == Some(true)
  }

  /** Pass if every IP of at least one is confirmed, fail if none is, partial in between. */
  lemma FcrdnsExactly(rows: seq<IpRow>, ids: Identities)
    ensures FcrdnsStatus(rows, ids) == Pass <==> rows != [] && forall r | r in rows :: Confirmed(r, ids)
    ensures FcrdnsStatus(rows, ids) == Fail <==> forall r | r in rows :: !Confirmed(r, ids)
  {
    assert rows != [] ==> rows[0] in rows;
  }

  function IsIpv6(r: IpRow): bool {
    ':' in r.key
  }

  /** The overall state from the states of the two families, where both send. */
  lemma FcrdnsFromFamilies(rows: seq<IpRow>, ids: Identities)
    ensures var v4, v6 := With(rows, IsIpv6, false), With(rows, IsIpv6, true);
            var all := FcrdnsStatus(rows, ids);
            && (v4 == [] ==> all == FcrdnsStatus(v6, ids)) && (v6 == [] ==> all == FcrdnsStatus(v4, ids))
            && (v4 != [] && v6 != [] ==>
                  all == if FcrdnsStatus(v4, ids) == FcrdnsStatus(v6, ids) then FcrdnsStatus(v4, ids) else Partial)
  {
    InWith(rows, IsIpv6, false);
    InWith(rows, IsIpv6, true);
    var v4, v6 := With(rows, IsIpv6, false), With(rows, IsIpv6, true);
    assert v4 != [] ==> v4[0] in v4;
    assert v6 != [] ==> v6[0] in v6;
  }

  // ----- the list of services

  /** One entry of source_ips. */
  datatype SourceIp = SourceIp(
    row: IpRow, isIpv6: bool, fcrdnsValid: Option<bool>, spfPct: Option<nat>, dkimPct: Option<nat>)

  /** What the client gets of a service; of the counts only volume and dispositions are rendered. */
  datatype Service = Service(
    name: string, matchMethod: string, counts: Counts, ipCount: nat,
    spfPct: Option<nat>, dkimPct: Option<nat>, dmarcPct: Option<nat>,
    likelySpoofed: bool,
    fcrdns: Fcrdns, fcrdnsV4: Option<Fcrdns>, fcrdnsV6: Option<Fcrdns>, sendsIpv6: bool,
    sourceIps: seq<SourceIp>)

  function ByVolume(r: IpRow): Rank {
    Rank(-(r.counts.volume as int), 0)
  }

  function ServiceByVolume(s: Service): Rank {
    Rank(-(s.counts.volume as int), 0)
  }

  function Describe(b: Bucket, ids: Identities): Service {
    var c, v4, v6 := b.counts, With(b.ips, IsIpv6, false), With(b.ips, IsIpv6, true);
    Service(b.service, b.matchMethod, c, b.ipCount,
            Pct(c.spfPass, c.volume), Pct(c.dkimPass, c.volume), Pct(c.dmarcPass, c.volume), LikelySpoofed(c),
            FcrdnsStatus(b.ips, ids),
            if v4 == [] then None else Some(FcrdnsStatus(v4, ids)),
            if v6 == [] then None else Some(FcrdnsStatus(v6, ids)),
            v6 != [],
            Map(Sorted(b.ips, ByVolume), SourceIpIn(ids)))
  }

  function SourceIpIn(ids: Identities): IpRow -> SourceIp {
    (r: IpRow) => SourceIp(r, IsIpv6(r), if r.key in ids then ids[r.key].fcrdnsValid else None,
                           Pct(r.counts.spfPass, r.counts.volume), Pct(r.counts.dkimPass, r.counts.volume))
  }

  function RowOf(ip: SourceIp): IpRow {
    ip.row
  }

  /** The IP rows a service lists, in its order. */
  function Rows(s: Service): seq<IpRow> {
    Map(s.sourceIps, RowOf)
  }

  lemma RowsAreSorted(b: Bucket, ids: Identities)
    ensures Rows(Describe(b, ids)) == Sorted(b.ips, ByVolume)
  {
  }

  function DescribeIn(ids: Identities): Bucket -> Service {
    (b: Bucket) => Describe(b, ids)
  }

  function BucketIn(perIp: seq<IpRow>, ids: Identities): string -> Bucket {
    (name: string) => BucketOf(name, perIp, ids)
  }

  /** The services in order of first appearance. */
  function Listed(perIp: seq<IpRow>, ids: Identities): seq<Service> {
    Map(Map(ServiceNames(perIp, ids), BucketIn(perIp, ids)), DescribeIn(ids))
  }

  /** The services of these rows, those with the most mail first. */
  function ServicesOf(perIp: seq<IpRow>, ids: Identities): seq<Service> {
    Sorted(Listed(perIp, ids), ServiceByVolume)
  }

  /** by_service.values() */
  method Values(order: seq<string>, buckets: map<string, Bucket>) returns (values: seq<Bucket>)
    requires forall name | name in order :: name in buckets
    ensures |values| == |order| && forall k | 0 <= k < |order| :: values[k] == buckets[order[k]]
  {
    values := [];
    for k := 0 to |order|
      invariant |values| == k && forall j | 0 <= j < k :: values[j] == buckets[order[j]]
    {
      assert order[k] in order;
      values := values + [buckets[order[k]]];
    }
  }

  method BuildServices(perIp: seq<IpRow>, ids: Identities) returns (services: seq<Service>)
    requires AllIdentified(perIp, ids)
    ensures services == ServicesOf(perIp, ids)
  {
    var order, buckets := FillBuckets(perIp, ids);
    var values := Values(order, buckets);
    assert values == Map(order, BucketIn(perIp, ids)) by {
      assert forall k | 0 <= k < |order| :: order[k] in order && values[k] == BucketIn(perIp, ids)(order[k]);
    }
    services := Sorted(Map(values, DescribeIn(ids)), ServiceByVolume);
  }

  // ----- what the list says

  lemma InListed(perIp: seq<IpRow>, ids: Identities, s: Service)
    ensures s in Listed(perIp, ids) <==>
              s.name in ServiceNames(perIp, ids) && s == DescribeIn(ids)(BucketIn(perIp, ids)(s.name))
  {
    var names, list := ServiceNames(perIp, ids), Listed(perIp, ids);
    forall k | 0 <= k < |names|
      ensures list[k] == DescribeIn(ids)(BucketIn(perIp, ids)(names[k])) && list[k].name == names[k]
    {
    }
    if s.name in names && s == DescribeIn(ids)(BucketIn(perIp, ids)(s.name)) {
      var k :| 0 <= k < |names| && names[k] == s.name;
      assert list[k] == s;
    }
  }

  lemma InServices(perIp: seq<IpRow>, ids: Identities, s: Service)
    ensures s in ServicesOf(perIp, ids) <==>
              With(perIp, ServiceOf(ids), s.name) != [] && s == DescribeIn(ids)(BucketIn(perIp, ids)(s.name))
  {
    SortedIsStable(Listed(perIp, ids), ServiceByVolume);
    InListed(perIp, ids, s);
    FirstSeenAreThose(perIp, ServiceOf(ids));
  }

  lemma RowsOfService(perIp: seq<IpRow>, ids: Identities, s: Service)
    requires s in ServicesOf(perIp, ids)
    ensures IsStableSort(Rows(s), With(perIp, ServiceOf(ids), s.name), ByVolume)
    ensures forall row :: row in Rows(s) <==> row in perIp && ServiceOf(ids)(row) == s.name
  {
    InServices(perIp, ids, s);
    RowsAreSorted(BucketOf(s.name, perIp, ids), ids);
    SortedIsStable(With(perIp, ServiceOf(ids), s.name), ByVolume);
    InWith(perIp, ServiceOf(ids), s.name);
  }

  /** Each row is in exactly one service, its identity's, and each service lists its rows and
      nothing else, stably by volume; busier services come first. */
  lemma EachIpInOneService(perIp: seq<IpRow>, ids: Identities)
    requires AllIdentified(perIp, ids)
    ensures var services := ServicesOf(perIp, ids);
            && SortedBy(services, ServiceByVolume)
            && (forall s, row | s in services && row in perIp :: row in Rows(s) <==> s.name == ids[row.key].service)
            && (forall s, row | s in services && row in Rows(s) :: row in perIp)
            && (forall row | row in perIp :: exists s :: s in services && row in Rows(s))
            && (forall s, t | s in services && t in services && s.name == t.name :: s == t)
            && (forall s | s in services :: IsStableSort(Rows(s), With(perIp, ServiceOf(ids), s.name), ByVolume))
  {
    var services := ServicesOf(perIp, ids);
    SortedIsStable(Listed(perIp, ids), ServiceByVolume);
    forall s | s in services
      ensures s == DescribeIn(ids)(BucketIn(perIp, ids)(s.name))
      ensures IsStableSort(Rows(s), With(perIp, ServiceOf(ids), s.name), ByVolume)
      ensures forall row :: row in Rows(s) <==> row in perIp && ServiceOf(ids)(row) == s.name
    {
      InServices(perIp, ids, s);
      RowsOfService(perIp, ids, s);
    }
    forall row | row in perIp
      ensures exists s :: s in services && row in Rows(s)
    {
      var s := DescribeIn(ids)(BucketIn(perIp, ids)(ServiceOf(ids)(row)));
      InWith(perIp, ServiceOf(ids), s.name);
      InServices(perIp, ids, s);
      RowsOfService(perIp, ids, s);
    }
  }

  function ServiceCounts(s: Service): Counts {
    s.counts
  }

  lemma {:induction false} InsertTotals(s: Service, list: seq<Service>, m: Measure)
    ensures Total(Insert(s, list, ServiceByVolume), ServiceCounts, m)
              == Part(s.counts, m) + Total(list, ServiceCounts, m)
  {
    if list == [] || AtMost(ServiceByVolume(s), ServiceByVolume(list[0])) {
      assert ([s] + list)[1..] == list;
    } else {
      InsertTotals(s, list[1..], m);
      assert ([list[0]] + Insert(s, list[1..], ServiceByVolume))[1..] == Insert(s, list[1..], ServiceByVolume);
    }
  }

  lemma {:induction false} SortTotals(list: seq<Service>, m: Measure)
    ensures Total(Sorted(list, ServiceByVolume), ServiceCounts, m) == Total(list, ServiceCounts, m)
  {
    if list != [] {
      SortTotals(list[1..], m);
      InsertTotals(list[0], Sorted(list[1..], ServiceByVolume), m);
    }
  }

  function AsGroup(s: Service): Group<string> {
    Group(s.name, s.counts)
  }

  /** The services as the groups of a GROUP BY service. */
  function AsGroups(list: seq<Service>): seq<Group<string>> {
    Map(list, AsGroup)
  }

  lemma {:induction false} SameTotals<A, B>(xs: seq<A>, f: A -> Counts, ys: seq<B>, g: B -> Counts, m: Measure)
    requires |xs| == |ys| && forall k | 0 <= k < |xs| :: f(xs[k]) == g(ys[k])
    ensures Total(xs, f, m) == Total(ys, g, m)
  {
    if xs != [] {
      assert f(xs[0]) == g(ys[0]);
      assert forall k | 0 <= k < |xs[1..]| :: xs[1..][k] == xs[k + 1] && ys[1..][k] == ys[k + 1];
      SameTotals(xs[1..], f, ys[1..], g, m);
    }
  }

  lemma ListedIsGroupBy(perIp: seq<IpRow>, ids: Identities)
    ensures IsGroupBy(AsGroups(Listed(perIp, ids)), perIp, ServiceOf(ids), GroupCounts)
  {
    var names := ServiceNames(perIp, ids);
    var groups := AsGroups(Listed(perIp, ids));
    FirstSeenAreThose(perIp, ServiceOf(ids));
    forall row | row in perIp
      ensures exists k :: 0 <= k < |groups| && groups[k].key == ServiceOf(ids)(row)
    {
      InWith(perIp, ServiceOf(ids), ServiceOf(ids)(row));
      var k :| 0 <= k < |names| && names[k] == ServiceOf(ids)(row);
      assert groups[k].key == names[k];
    }
  }

  /** No mail is lost or counted twice on the way from IPs to services. */
  lemma ServicesAddUp(perIp: seq<IpRow>, ids: Identities)
    ensures Sum(ServicesOf(perIp, ids), ServiceCounts) == Sum(perIp, GroupCounts)
  {
    var list := Listed(perIp, ids);
    ListedIsGroupBy(perIp, ids);
    forall m: Measure
      ensures Total(ServicesOf(perIp, ids), ServiceCounts, m) == Total(perIp, GroupCounts, m)
    {
      SortTotals(list, m);
      SameTotals(AsGroups(list), GroupCounts, list, ServiceCounts, m);
      GroupTotals(AsGroups(list), perIp, ServiceOf(ids), GroupCounts, m);
    }
  }
}
