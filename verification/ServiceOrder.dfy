/** What the order of a query's rows does to the services made from them: GROUP BY promises none. */
module ServiceOrder {
  import opened Collections
  import opened Rollups
  import opened Services

  function KeyOf(r: IpRow): string {
    r.key
  }

  ghost predicate DistinctKeys(rows: seq<IpRow>) {
    forall i, j | 0 <= i < j < |rows| :: rows[i].key != rows[j].key
  }

  /** Two listings of the same rows. */
  ghost predicate SameRows(a: seq<IpRow>, b: seq<IpRow>) {
    DistinctKeys(a) && DistinctKeys(b) && forall r :: r in a <==> r in b
  }

  /** A result of a GROUP BY: a row for each key that occurs and for no other. */
  ghost predicate IsListing<T(!new)>(a: seq<IpRow>, xs: seq<T>, key: T -> string, counts: T -> Counts) {
    IsGroupBy(a, xs, key, counts) && NoEmptyGroups(a, xs, key)
  }

  /** The results of one GROUP BY are exactly the listings of the same rows. */
  lemma ListingsAgree<T(!new)>(a: seq<IpRow>, b: seq<IpRow>, xs: seq<T>, key: T -> string, counts: T -> Counts)
    requires IsListing(a, xs, key, counts)
    ensures IsListing(b, xs, key, counts) <==> SameRows(a, b)
  {
    if IsListing(b, xs, key, counts) {
      forall r
        ensures r in a <==> r in b
      {
        if r in a {
          RowIsListed(a, b, xs, key, counts, r);
        }
        if r in b {
          RowIsListed(b, a, xs, key, counts, r);
        }
      }
    }
    if SameRows(a, b) {
      SameRowsAreListing(a, b, xs, key, counts);
    }
  }

  lemma SameRowsAreListing<T(!new)>(a: seq<IpRow>, b: seq<IpRow>, xs: seq<T>, key: T -> string, counts: T -> Counts)
    requires IsListing(a, xs, key, counts) && SameRows(a, b)
    ensures IsListing(b, xs, key, counts)
  {
    forall k | 0 <= k < |b|
      ensures b[k].counts == Sum(With(xs, key, b[k].key), counts) && With(xs, key, b[k].key) != []
    {
      assert b[k] in a;
      var i :| 0 <= i < |a| && a[i] == b[k];
    }
    forall x | x in xs
      ensures exists k :: 0 <= k < |b| && b[k].key == key(x)
    {
      var i :| 0 <= i < |a| && a[i].key == key(x);
      assert a[i] in b;
    }
  }

  lemma RowIsListed<T(!new)>(a: seq<IpRow>, b: seq<IpRow>, xs: seq<T>, key: T -> string, counts: T -> Counts, r: IpRow)
    requires IsGroupBy(a, xs, key, counts) && NoEmptyGroups(a, xs, key) && r in a
    requires IsGroupBy(b, xs, key, counts)
    ensures r in b
  {
    var i :| 0 <= i < |a| && a[i] == r;
    WithAt(xs, key, r.key, 0);
    var x := With(xs, key, r.key)[0];
    var k :| 0 <= k < |b| && b[k].key == key(x);
    assert b[k] == r;
  }

  // ----- what does not depend on the order

  lemma {:induction false} WithDistinct<K>(rows: seq<IpRow>, key: IpRow -> K, k: K)
    requires DistinctKeys(rows)
    ensures DistinctKeys(With(rows, key, k))
  {
    if rows != [] {
      WithDistinct(rows[1..], key, k);
      InWith(rows[1..], key, k);
      var rest := With(rows[1..], key, k);
      forall i | 0 <= i < |rest|
        ensures rest[i].key != rows[0].key
      {
        WithAt(rows[1..], key, k, i);
        var j :| 0 <= j < |rows[1..]| && rows[1..][j] == rest[i];
        assert rows[j + 1] == rest[i];
      }
    }
  }

  lemma SameWith<K>(a: seq<IpRow>, b: seq<IpRow>, key: IpRow -> K, k: K)
    requires SameRows(a, b)
    ensures SameRows(With(a, key, k), With(b, key, k))
  {
    WithDistinct(a, key, k);
    WithDistinct(b, key, k);
    forall r
      ensures r in With(a, key, k) <==> r in With(b, key, k)
    {
      InWithOne(a, key, k, r);
      InWithOne(b, key, k, r);
    }
  }

  lemma {:induction false} WithoutDistinct(rows: seq<IpRow>, k: string)
    requires DistinctKeys(rows)
    ensures DistinctKeys(Without(rows, KeyOf, k))
  {
    if rows != [] {
      WithoutDistinct(rows[1..], k);
      InWithout(rows[1..], KeyOf, k);
      var rest := Without(rows[1..], KeyOf, k);
      forall i | 0 <= i < |rest|
        ensures rest[i].key != rows[0].key
      {
        assert rest[i] in rest && rest[i] in rows[1..];
        var j :| 0 <= j < |rows[1..]| && rows[1..][j] == rest[i];
        assert rows[j + 1] == rest[i];
      }
    }
  }

  lemma HeadOnce(rows: seq<IpRow>)
    requires DistinctKeys(rows) && rows != []
    ensures forall x | x in rows[1..] :: x.key != rows[0].key
  {
    forall x | x in rows[1..]
      ensures x.key != rows[0].key
    {
      var j :| 0 <= j < |rows[1..]| && rows[1..][j] == x;
      assert rows[j + 1] == x;
    }
  }

  lemma {:induction false} KeyOnce(rows: seq<IpRow>, r: IpRow)
    requires DistinctKeys(rows) && r in rows
    ensures With(rows, KeyOf, r.key) == [r]
  {
    assert rows == [rows[0]] + rows[1..];
    if rows[0] == r {
      HeadOnce(rows);
      forall x
        ensures x !in With(rows[1..], KeyOf, r.key)
      {
        InWithOne(rows[1..], KeyOf, r.key, x);
      }
      NoElements(With(rows[1..], KeyOf, r.key));
    } else {
      var j :| 0 <= j < |rows| && rows[j] == r;
      assert rows[1..][j - 1] == r;
      KeyOnce(rows[1..], r);
    }
  }

  lemma WithoutOne(rows: seq<IpRow>, r: IpRow)
    requires DistinctKeys(rows) && r in rows
    ensures With(rows, KeyOf, r.key) == [r] && DistinctKeys(Without(rows, KeyOf, r.key))
    ensures |rows| == 1 + |Without(rows, KeyOf, r.key)|
  {
    KeyOnce(rows, r);
    LengthSplits(rows, r.key);
    WithoutDistinct(rows, r.key);
  }

  lemma SameWithout(a: seq<IpRow>, b: seq<IpRow>, r: IpRow)
    requires SameRows(a, b) && r in a
    ensures SameRows(Without(a, KeyOf, r.key), Without(b, KeyOf, r.key))
  {
    WithoutDistinct(a, r.key);
    WithoutDistinct(b, r.key);
    forall x
      ensures x in Without(a, KeyOf, r.key) <==> x in Without(b, KeyOf, r.key)
    {
      InWithoutOne(a, KeyOf, r.key, x);
      InWithoutOne(b, KeyOf, r.key, x);
    }
  }

  /** Sums and lengths are those of the rows, not of their order. */
  lemma {:induction false} SameSums(a: seq<IpRow>, b: seq<IpRow>, m: Measure)
    requires SameRows(a, b)
    ensures |a| == |b| && Total(a, GroupCounts, m) == Total(b, GroupCounts, m)
    decreases |a|
  {
    SameEmptiness(a, b);
    if a != [] {
      var r := a[0];
      WithoutOne(a, r);
      WithoutOne(b, r);
      SameWithout(a, b, r);
      TotalSplits(a, KeyOf, r.key, GroupCounts, m);
      TotalSplits(b, KeyOf, r.key, GroupCounts, m);
      SameSums(Without(a, KeyOf, r.key), Without(b, KeyOf, r.key), m);
    }
  }

  lemma {:induction false} LengthSplits(rows: seq<IpRow>, k: string)
    ensures |rows| == |With(rows, KeyOf, k)| + |Without(rows, KeyOf, k)|
  {
    if rows != [] {
      LengthSplits(rows[1..], k);
    }
  }

  lemma SameCounts(a: seq<IpRow>, b: seq<IpRow>)
    requires SameRows(a, b)
    ensures |a| == |b| && Sum(a, GroupCounts) == Sum(b, GroupCounts)
  {
    forall m: Measure
      ensures |a| == |b| && Total(a, GroupCounts, m) == Total(b, GroupCounts, m)
    {
      SameSums(a, b, m);
    }
    SameSums(a, b, Volume);
  }

  lemma SameEmptiness(a: seq<IpRow>, b: seq<IpRow>)
    requires SameRows(a, b)
    ensures a == [] <==> b == []
  {
    NoElements(a);
    NoElements(b);
  }

  /** Two descriptions that differ at most in how the service was matched and in the order of its IPs. */
  ghost predicate SameButOrder(s: Service, t: Service) {
    && t.(matchMethod := s.matchMethod, sourceIps := s.sourceIps) == s
    && SameRows(Rows(s), Rows(t))
  }

  lemma SameStates(a: seq<IpRow>, b: seq<IpRow>, ids: Identities)
    requires SameRows(a, b)
    ensures FcrdnsStatus(a, ids) == FcrdnsStatus(b, ids)
  {
  }

  lemma {:induction false} SortedDistinct(rows: seq<IpRow>)
    requires DistinctKeys(rows)
    ensures SameRows(rows, Sorted(rows, ByVolume))
  {
    if rows != [] {
      SortedDistinct(rows[1..]);
      assert rows == [rows[0]] + rows[1..];
      forall i | 0 <= i < |rows[1..]|
        ensures rows[1..][i].key != rows[0].key
      {
        assert rows[1..][i] == rows[i + 1];
      }
      InsertDistinct(rows[0], Sorted(rows[1..], ByVolume));
    }
  }

  lemma {:induction false} InsertDistinct(r: IpRow, rows: seq<IpRow>)
    requires DistinctKeys(rows) && forall x | x in rows :: x.key != r.key
    ensures DistinctKeys(Insert(r, rows, ByVolume))
    ensures forall x :: x in Insert(r, rows, ByVolume) <==> x == r || x in rows
  {
    if rows != [] && !AtMost(ByVolume(r), ByVolume(rows[0])) {
      assert rows == [rows[0]] + rows[1..];
      InsertDistinct(r, rows[1..]);
      var rest := Insert(r, rows[1..], ByVolume);
      forall i | 0 <= i < |rest|
        ensures rest[i].key != rows[0].key
      {
        assert rest[i] in rest;
        if rest[i] != r {
          var j :| 0 <= j < |rows[1..]| && rows[1..][j] == rest[i];
          assert rows[j + 1] == rest[i];
        }
      }
    } else {
      forall i | 0 <= i < |rows|
        ensures rows[i].key != r.key
      {
        assert rows[i] in rows;
      }
    }
  }

  /** One service over two listings. */
  lemma SameService(a: seq<IpRow>, b: seq<IpRow>, ids: Identities, name: string)
    requires SameRows(a, b)
    ensures SameButOrder(Describe(BucketOf(name, a, ids), ids), Describe(BucketOf(name, b, ids), ids))
  {
    var mine, theirs := With(a, ServiceOf(ids), name), With(b, ServiceOf(ids), name);
    SameWith(a, b, ServiceOf(ids), name);
    SameCounts(mine, theirs);
    SameStates(mine, theirs, ids);
    SameFamily(mine, theirs, ids, false);
    SameFamily(mine, theirs, ids, true);
    RowsAreSorted(BucketOf(name, a, ids), ids);
    RowsAreSorted(BucketOf(name, b, ids), ids);
    SortedDistinct(mine);
    SortedDistinct(theirs);
  }

  lemma SameFamily(a: seq<IpRow>, b: seq<IpRow>, ids: Identities, v6: bool)
    requires SameRows(a, b)
    ensures With(a, IsIpv6, v6) == [] <==> With(b, IsIpv6, v6) == []
    ensures FcrdnsStatus(With(a, IsIpv6, v6), ids) == FcrdnsStatus(With(b, IsIpv6, v6), ids)
  {
    SameWith(a, b, IsIpv6, v6);
    SameEmptiness(With(a, IsIpv6, v6), With(b, IsIpv6, v6));
    SameStates(With(a, IsIpv6, v6), With(b, IsIpv6, v6), ids);
  }

  ghost predicate SameServices(a: seq<IpRow>, b: seq<IpRow>, ids: Identities) {
    forall s | s in ServicesOf(a, ids) :: exists t | t in ServicesOf(b, ids) :: SameButOrder(s, t)
  }

  /** Each service of one listing is a service of the other, with the same counts, number of IPs,
      percentages, flag, reverse-DNS states and IPs. */
  lemma ServicesUpToOrder(a: seq<IpRow>, b: seq<IpRow>, ids: Identities)
    requires SameRows(a, b)
    ensures SameServices(a, b, ids)
  {
    forall s | s in ServicesOf(a, ids)
      ensures exists t | t in ServicesOf(b, ids) :: SameButOrder(s, t)
    {
      InServices(a, ids, s);
      var t := DescribeIn(ids)(BucketIn(b, ids)(s.name));
      SameService(a, b, ids, s.name);
      SameWith(a, b, ServiceOf(ids), s.name);
      SameEmptiness(With(a, ServiceOf(ids), s.name), With(b, ServiceOf(ids), s.name));
      InServices(b, ids, t);
      assert t in ServicesOf(b, ids) && SameButOrder(s, t);
    }
  }

  // ----- when nothing depends on the order

  /** Rows that were all matched the same way, no two with the same volume. */
  ghost predicate Uniform(rows: seq<IpRow>, ids: Identities)
    requires AllIdentified(rows, ids)
  {
    forall r, q | r in rows && q in rows && r != q ::
      ids[r.key].matchMethod == ids[q.key].matchMethod && r.counts.volume != q.counts.volume
  }

  /** So are the IPs of each service. */
  ghost predicate SettledRows(a: seq<IpRow>, ids: Identities)
    requires AllIdentified(a, ids)
  {
    forall r, q | r in a && q in a && r != q && ServiceOf(ids)(r) == ServiceOf(ids)(q) ::
      ids[r.key].matchMethod == ids[q.key].matchMethod && r.counts.volume != q.counts.volume
  }

  /** No two services have the same volume. */
  ghost predicate SettledServices(services: seq<Service>) {
    forall s, t | s in services && t in services && s.name != t.name :: s.counts.volume != t.counts.volume
  }

  ghost predicate Settled(a: seq<IpRow>, ids: Identities)
    requires AllIdentified(a, ids)
  {
    SettledRows(a, ids) && SettledServices(ServicesOf(a, ids))
  }

  /** Elements told apart by their ranks have one sorted order. */
  lemma SortedAgree<T(!new)>(xs: seq<T>, ys: seq<T>, rank: T -> Rank)
    requires forall x :: x in xs <==> x in ys
    requires forall i, j | 0 <= i < j < |xs| :: rank(xs[i]) != rank(xs[j])
    requires forall i, j | 0 <= i < j < |ys| :: rank(ys[i]) != rank(ys[j])
    ensures Sorted(xs, rank) == Sorted(ys, rank)
  {
    SortedIsStable(xs, rank);
    SortedIsStable(ys, rank);
    forall k
      ensures With(xs, rank, k) == With(ys, rank, k)
    {
      AtMostOne(xs, rank, k);
      AtMostOne(ys, rank, k);
      forall x
        ensures x in With(xs, rank, k) <==> x in With(ys, rank, k)
      {
        InWithOne(xs, rank, k, x);
        InWithOne(ys, rank, k, x);
      }
      OneOrNone(With(xs, rank, k), With(ys, rank, k));
    }
    SameRuns(Sorted(xs, rank), Sorted(ys, rank), rank);
  }

  lemma OneOrNone<T(!new)>(xs: seq<T>, ys: seq<T>)
    requires |xs| <= 1 && |ys| <= 1 && forall x :: x in xs <==> x in ys
    ensures xs == ys
  {
    NoElements(xs);
    NoElements(ys);
    if |xs| == 1 {
      assert xs[0] in ys;
    }
  }

  lemma RanksDiffer<T>(xs: seq<T>, rank: T -> Rank, x: T)
    requires forall i, j | 0 <= i < j < |xs| :: rank(xs[i]) != rank(xs[j])
    requires xs != [] && x in xs[1..]
    ensures rank(x) != rank(xs[0])
  {
    var j :| 0 <= j < |xs[1..]| && xs[1..][j] == x;
    assert xs[j + 1] == x;
  }

  lemma {:induction false} AtMostOne<T(!new)>(xs: seq<T>, rank: T -> Rank, k: Rank)
    requires forall i, j | 0 <= i < j < |xs| :: rank(xs[i]) != rank(xs[j])
    ensures |With(xs, rank, k)| <= 1
  {
    if xs != [] {
      AtMostOne(xs[1..], rank, k);
      if rank(xs[0]) == k {
        forall x
          ensures x !in With(xs[1..], rank, k)
        {
          InWithOne(xs[1..], rank, k, x);
          if x in xs[1..] {
            RanksDiffer(xs, rank, x);
          }
        }
        NoElements(With(xs[1..], rank, k));
      }
    }
  }

  lemma DistinctRanks(rows: seq<IpRow>, ids: Identities)
    requires DistinctKeys(rows) && AllIdentified(rows, ids) && Uniform(rows, ids)
    ensures forall i, j | 0 <= i < j < |rows| :: ByVolume(rows[i]) != ByVolume(rows[j])
  {
    forall i, j | 0 <= i < j < |rows|
      ensures ByVolume(rows[i]) != ByVolume(rows[j])
    {
      assert rows[i] in rows && rows[j] in rows && rows[i] != rows[j];
    }
  }

  lemma UniformSort(a: seq<IpRow>, b: seq<IpRow>, ids: Identities)
    requires SameRows(a, b) && AllIdentified(a, ids) && Uniform(a, ids)
    ensures Sorted(a, ByVolume) == Sorted(b, ByVolume)
    ensures a != [] ==> b != [] && ids[a[0].key].matchMethod == ids[b[0].key].matchMethod
  {
    assert AllIdentified(b, ids);
    DistinctRanks(a, ids);
    DistinctRanks(b, ids);
    SortedAgree(a, b, ByVolume);
    SameEmptiness(a, b);
    if a != [] {
      assert a[0] in a && b[0] in b && b[0] in a;
    }
  }

  lemma UniformRows(a: seq<IpRow>, ids: Identities, name: string)
    requires AllIdentified(a, ids) && SettledRows(a, ids)
    ensures var rows := With(a, ServiceOf(ids), name);
            AllIdentified(rows, ids) && Uniform(rows, ids)
  {
    InWith(a, ServiceOf(ids), name);
  }

  lemma SettledService(a: seq<IpRow>, b: seq<IpRow>, ids: Identities, name: string)
    requires SameRows(a, b) && AllIdentified(a, ids) && SettledRows(a, ids)
    ensures Describe(BucketOf(name, a, ids), ids) == Describe(BucketOf(name, b, ids), ids)
  {
    var x, y := BucketOf(name, a, ids), BucketOf(name, b, ids);
    SameService(a, b, ids, name);
    SameWith(a, b, ServiceOf(ids), name);
    UniformRows(a, ids, name);
    UniformSort(x.ips, y.ips, ids);
    InWith(b, ServiceOf(ids), name);
    SameEmptiness(x.ips, y.ips);
    assert x.matchMethod == y.matchMethod by {
      assert y.ips != [] ==> y.ips[0] in y.ips && y.ips[0] in b && y.ips[0] in a;
      assert x.ips != [] ==> x.ips[0] in x.ips;
    }
    SameButNothing(Describe(x, ids), Describe(y, ids));
  }

  lemma SameButNothing(s: Service, t: Service)
    requires SameButOrder(s, t) && s.matchMethod == t.matchMethod && s.sourceIps == t.sourceIps
    ensures s == t
  {
  }

  lemma ListedAreDistinct(a: seq<IpRow>, ids: Identities)
    ensures forall i, j | 0 <= i < j < |Listed(a, ids)| :: Listed(a, ids)[i].name != Listed(a, ids)[j].name
  {
    FirstSeenAreThose(a, ServiceOf(ids));
    var names, list := ServiceNames(a, ids), Listed(a, ids);
    assert forall k | 0 <= k < |names| :: list[k].name == names[k];
  }

  lemma SettledAgrees(a: seq<IpRow>, b: seq<IpRow>, ids: Identities)
    requires SameRows(a, b) && AllIdentified(a, ids) && Settled(a, ids)
    ensures ServicesOf(a, ids) == ServicesOf(b, ids)
  {
    var mine, theirs := Listed(a, ids), Listed(b, ids);
    SortedIsStable(mine, ServiceByVolume);
    SortedIsStable(theirs, ServiceByVolume);
    forall s
      ensures s in mine <==> s in theirs
    {
      SettledService(a, b, ids, s.name);
      SameWith(a, b, ServiceOf(ids), s.name);
      SameEmptiness(With(a, ServiceOf(ids), s.name), With(b, ServiceOf(ids), s.name));
      InServices(a, ids, s);
      InServices(b, ids, s);
    }
    ListedAreDistinct(a, ids);
    ListedAreDistinct(b, ids);
    DistinctVolumes(ServicesOf(a, ids), mine);
    DistinctVolumes(ServicesOf(a, ids), theirs);
    SortedAgree(mine, theirs, ServiceByVolume);
  }

  lemma DistinctVolumes(services: seq<Service>, list: seq<Service>)
    requires SettledServices(services) && forall s | s in list :: s in services
    requires forall i, j | 0 <= i < j < |list| :: list[i].name != list[j].name
    ensures forall i, j | 0 <= i < j < |list| :: ServiceByVolume(list[i]) != ServiceByVolume(list[j])
  {
    forall i, j | 0 <= i < j < |list|
      ensures ServiceByVolume(list[i]) != ServiceByVolume(list[j])
    {
      assert list[i] in list && list[j] in list;
    }
  }

  // ----- and when something does

  /** The listing with one row moved to the front. */
  function Fronted(a: seq<IpRow>, r: IpRow): seq<IpRow> {
    [r] + Without(a, KeyOf, r.key)
  }

  lemma FrontedIsListing(a: seq<IpRow>, r: IpRow)
    requires DistinctKeys(a) && r in a
    ensures SameRows(a, Fronted(a, r))
  {
    var rest := Without(a, KeyOf, r.key);
    WithoutDistinct(a, r.key);
    forall x
      ensures x in a <==> x in Fronted(a, r)
      ensures x in rest ==> x.key != r.key
    {
      InWithoutOne(a, KeyOf, r.key, x);
      if x in a && x.key == r.key {
        SameKey(a, x, r);
      }
    }
    forall i | 0 <= i < |rest|
      ensures rest[i].key != r.key
    {
      assert rest[i] in rest;
    }
  }

  lemma SameKey(a: seq<IpRow>, x: IpRow, r: IpRow)
    requires DistinctKeys(a) && x in a && r in a && x.key == r.key
    ensures x == r
  {
    var i :| 0 <= i < |a| && a[i] == x;
    var j :| 0 <= j < |a| && a[j] == r;
  }

  lemma {:induction false} FirstSeenFirst<T, K>(xs: seq<T>, key: T -> K)
    requires xs != []
    ensures FirstSeen(xs, key) != [] && FirstSeen(xs, key)[0] == key(xs[0])
  {
    if |xs| > 1 {
      FirstSeenFirst(xs[..|xs| - 1], key);
    } else {
      assert xs[..0] == [];
    }
  }

  /** With r in front: its service is matched as r is, lists r first among its IPs of that volume,
      and comes first among the services of its own volume. */
  lemma FrontedFirst(a: seq<IpRow>, r: IpRow, ids: Identities) returns (s: Service)
    requires DistinctKeys(a) && r in a && r.key in ids
    ensures s in ServicesOf(Fronted(a, r), ids) && s.name == ServiceOf(ids)(r)
              && s.matchMethod == ids[r.key].matchMethod
    ensures IsFirst(Rows(s), ByVolume, r) && IsFirst(ServicesOf(Fronted(a, r), ids), ServiceByVolume, s)
  {
    var b, name := Fronted(a, r), ServiceOf(ids)(r);
    var rest := Without(a, KeyOf, r.key);
    assert b[1..] == rest && b[0] == r;
    var rows := With(b, ServiceOf(ids), name);
    assert rows == [r] + With(rest, ServiceOf(ids), name);
    s := DescribeIn(ids)(BucketIn(b, ids)(name));
    InServices(b, ids, s);
    RowsOfService(b, ids, s);
    assert rows[1..] == With(rest, ServiceOf(ids), name);
    assert With(rows, ByVolume, ByVolume(r)) == [r] + With(rows[1..], ByVolume, ByVolume(r));
    FirstSeenFirst(b, ServiceOf(ids));
    var list := Listed(b, ids);
    assert list[0] == s;
    SortedIsStable(list, ServiceByVolume);
    assert With(list, ServiceByVolume, ServiceByVolume(s))
        == [s] + With(list[1..], ServiceByVolume, ServiceByVolume(s));
  }

  ghost predicate OrderFree(a: seq<IpRow>, ids: Identities) {
    forall b | SameRows(a, b) :: ServicesOf(b, ids) == ServicesOf(a, ids)
  }

  lemma OrderFreeMoves(a: seq<IpRow>, b: seq<IpRow>, ids: Identities)
    requires SameRows(a, b)
    ensures OrderFree(a, ids) <==> OrderFree(b, ids)
  {
    assert SameRows(a, a) && SameRows(b, b);
    if OrderFree(a, ids) {
      forall c | SameRows(b, c)
        ensures ServicesOf(c, ids) == ServicesOf(b, ids)
      {
        assert SameRows(a, c);
      }
    }
    if OrderFree(b, ids) {
      forall c | SameRows(a, c)
        ensures ServicesOf(c, ids) == ServicesOf(a, ids)
      {
        assert SameRows(b, c);
        assert SameRows(b, a);
      }
    }
  }

  lemma FrontIn(a: seq<IpRow>, ids: Identities, r: IpRow) returns (s: Service)
    requires DistinctKeys(a) && OrderFree(a, ids) && r in a && r.key in ids
    ensures s in ServicesOf(a, ids) && s.name == ServiceOf(ids)(r) && s.matchMethod == ids[r.key].matchMethod
    ensures IsFirst(Rows(s), ByVolume, r) && IsFirst(ServicesOf(a, ids), ServiceByVolume, s)
  {
    FrontedIsListing(a, r);
    assert ServicesOf(Fronted(a, r), ids) == ServicesOf(a, ids);
    s := FrontedFirst(a, r, ids);
  }

  /** x is the first of those that rank as it does. */
  ghost predicate IsFirst<T>(xs: seq<T>, rank: T -> Rank, x: T) {
    With(xs, rank, rank(x)) != [] && With(xs, rank, rank(x))[0] == x
  }

  lemma OneFirst<T>(xs: seq<T>, rank: T -> Rank, x: T, y: T)
    requires IsFirst(xs, rank, x) && IsFirst(xs, rank, y) && x != y
    ensures rank(x) != rank(y)
  {
  }

  lemma OneOfName(a: seq<IpRow>, ids: Identities, s: Service, t: Service)
    requires s in ServicesOf(a, ids) && t in ServicesOf(a, ids) && s.name == t.name
    ensures s == t
  {
    InServices(a, ids, s);
    InServices(a, ids, t);
  }

  lemma OrderFreeRows(a: seq<IpRow>, ids: Identities, r: IpRow, q: IpRow)
    requires DistinctKeys(a) && AllIdentified(a, ids) && OrderFree(a, ids)
    requires r in a && q in a && r != q && ServiceOf(ids)(r) == ServiceOf(ids)(q)
    ensures ids[r.key].matchMethod == ids[q.key].matchMethod && r.counts.volume != q.counts.volume
  {
    var s := FrontIn(a, ids, r);
    var t := FrontIn(a, ids, q);
    OneOfName(a, ids, s, t);
    OneFirst(Rows(s), ByVolume, r, q);
  }

  lemma OrderFreeServices(a: seq<IpRow>, ids: Identities, s: Service, t: Service)
    requires DistinctKeys(a) && AllIdentified(a, ids) && OrderFree(a, ids)
    requires s in ServicesOf(a, ids) && t in ServicesOf(a, ids) && s.name != t.name
    ensures s.counts.volume != t.counts.volume
  {
    var r := SomeRow(a, ids, s);
    var q := SomeRow(a, ids, t);
    var s' := FrontIn(a, ids, r);
    var t' := FrontIn(a, ids, q);
    OneOfName(a, ids, s, s');
    OneOfName(a, ids, t, t');
    OneFirst(ServicesOf(a, ids), ServiceByVolume, s, t);
  }

  lemma SomeRow(a: seq<IpRow>, ids: Identities, s: Service) returns (r: IpRow)
    requires s in ServicesOf(a, ids)
    ensures r in a && ServiceOf(ids)(r) == s.name
  {
    InServices(a, ids, s);
    WithAt(a, ServiceOf(ids), s.name, 0);
    r := With(a, ServiceOf(ids), s.name)[0];
  }

  /** The whole list, order and match methods included, is the same for every listing of the rows
      exactly when the rows are settled. */
  lemma OrderFreeExactly(a: seq<IpRow>, ids: Identities)
    requires DistinctKeys(a) && AllIdentified(a, ids)
    ensures OrderFree(a, ids) <==> Settled(a, ids)
  {
    if Settled(a, ids) {
      forall b | SameRows(a, b)
        ensures ServicesOf(b, ids) == ServicesOf(a, ids)
      {
        SettledAgrees(a, b, ids);
      }
    }
    if OrderFree(a, ids) {
      OrderFreeSettles(a, ids);
    }
  }

  lemma OrderFreeSettles(a: seq<IpRow>, ids: Identities)
    requires DistinctKeys(a) && AllIdentified(a, ids) && OrderFree(a, ids)
    ensures Settled(a, ids)
  {
    forall r, q | r in a && q in a && r != q && ServiceOf(ids)(r) == ServiceOf(ids)(q)
      ensures ids[r.key].matchMethod == ids[q.key].matchMethod && r.counts.volume != q.counts.volume
    {
      OrderFreeRows(a, ids, r, q);
    }
    forall s, t | s in ServicesOf(a, ids) && t in ServicesOf(a, ids) && s.name != t.name
      ensures s.counts.volume != t.counts.volume
    {
      OrderFreeServices(a, ids, s, t);
    }
  }
}
