/** Who becomes verified, and what cannot be removed: each request's exact effect on the domains of
    an organization, and what follows for whole runs (backend/app/services/domain_setup.py,
    backend/app/services/dns_checks/domain_verification.py, backend/app/repositories/domains.py). */
module DomainVerification {
  import opened Wrappers
  import opened Names
  import opened DomainForest
  import opened DomainRegistry
  import opened ReportTypes

  // ----- one request

  ghost predicate Verified(f: Forest, m: string) {
    m in f && f[m].verified
  }

  /** The request is a passed challenge on m, or on the root m hangs under. */
  ghost predicate Challenged(f: Forest, r: Request, m: string) {
    r.Verify? && r.found && r.name in f && m in f && (m == r.name || f[m].parent == Some(r.name))
  }

  /** The request registers m under a verified domain, or moves it there. */
  ghost predicate Joins(f: Forest, g: Forest, m: string) {
    && m in g && g[m].parent.Some? && Verified(f, g[m].parent.value)
    && (m in f ==> f[m].parent.None?)
  }

  /** After any request exactly those domains are verified that were before, that the request
      challenged with success, or that joined a verified root by it. */
  lemma VerifiedExactly(o: Org, r: Request, m: string)
    requires OrgOk(o) && Sane(r) && m in Apply(o, r).domains
    ensures var f, g := o.domains, Apply(o, r).domains;
            Verified(g, m) <==> Verified(f, m) || Challenged(f, r, m) || Joins(f, g, m)
  {
    match r
    case Verify(name, found) =>
      if name in o.domains && found && o.domains[m].parent == Some(name) {
        assert ChildOk(o.domains, m);
      }
    case AddDetected(raw, rootName, detected) =>
      var name := Norm(Norm(raw));
      if ValidName(Norm(raw)) && name !in o.domains {
        AddedVerified(o.domains, name, rootName, detected, m);
      }
    case _ =>
  }

  lemma AddedVerified(f: Forest, name: string, rootName: string, detected: seq<string>, m: string)
    requires ForestOk(f) && name !in f && (rootName == name || EndsWith(name, "." + rootName))
    ensures var g := match FamilyRoot(f, name, rootName, detected)
                     case Alone => WithDomain(f, name, None)
                     case Family(root) => WithFamily(f, root, FamilyNames(f, root, name, detected));
            m in g ==> (Verified(g, m) <==> Verified(f, m) || Joins(f, g, m))
  {
    FamilyFitsAlways(f, name, rootName, detected);
    if m in f && f[m].parent.Some? {
      assert ChildOk(f, m);
    }
  }

  /** A challenge changes no name and no parent; with the exact set above, that is all it does. */
  lemma ChallengeKeepsShape(o: Org, name: string, found: bool)
    ensures var g := Apply(o, Verify(name, found));
            && g.domains.Keys == o.domains.Keys && g.records == o.records && g.reports == o.reports
            && forall m | m in o.domains :: g.domains[m].parent == o.domains[m].parent
  {
  }

  /** A create request registers its name exactly when the name is a host name not yet registered,
      and the parent, if one is given, is a registered root the name ends in. */
  lemma CreatedExactly(o: Org, raw: string, parent: Option<string>)
    ensures var n, f, g := Norm(raw), o.domains, Apply(o, Create(raw, parent)).domains;
            if ValidName(n) && n !in f && (parent.Some? ==> IsRoot(f, parent.value) && EndsWith(n, "." + parent.value))
            then g.Keys == f.Keys + {n} && g[n].parent == parent && forall m | m in f :: g[m] == f[m]
            else g == f
  {
  }

  /** What the refusals say; the first reason that applies is given. */
  lemma RefusedFor(f: Forest, name: string, parent: Option<string>)
    ensures var why := CreateRefusal(f, name, parent);
            && (why == Some(ParentNotFound) <==> parent.Some? && parent.value !in f)
            && (why == Some(ParentNotApex) <==> parent.Some? && parent.value in f && f[parent.value].parent.Some?)
            && (why == Some(NotASubdomain) <==>
                  parent.Some? && IsRoot(f, parent.value) && !EndsWith(name, "." + parent.value))
            && (why == Some(AlreadyRegistered) <==>
                  name in f && (parent.Some? ==> IsRoot(f, parent.value) && EndsWith(name, "." + parent.value)))
  {
  }

  /** A removal takes exactly its domain, and only one that nothing hangs under and that has no
      report history as a verified domain. */
  lemma DeletedExactly(o: Org, n: string)
    ensures var g := Apply(o, Delete(n)).domains;
            var kept := (exists m | m in o.domains :: o.domains[m].parent == Some(n))
                        || (Verified(o.domains, n) &&
                            exists i | i in o.reports :: o.reports[i].shown && o.reports[i].domain == Some(n));
            && (n in g <==> n in o.domains && kept)
            && g.Keys == o.domains.Keys - (if kept then {} else {n})
            && forall m | m in g :: g[m] == o.domains[m]
  {
  }

  /** What adding a detected name does to the forest. */
  ghost function Added(f: Forest, n: string, rootName: string, detected: seq<string>): Forest {
    match FamilyRoot(f, n, rootName, detected)
    case Alone => WithDomain(f, n, None)
    case Family(root) => WithFamily(f, root, FamilyNames(f, root, n, detected))
  }

  /** New names are the name itself, detected ones and its registrable domain. Those with a parent
      are named under it, and it is a root. What was there stays in place unless it moves from the
      top level under a root it is named under, and then it had nothing under it. */
  ghost predicate FitsIn(f: Forest, g: Forest, n: string, rootName: string, detected: seq<string>) {
    && n in g && f.Keys <= g.Keys
    && (forall m | m in g && m !in f :: m == n || m in detected || m == rootName)
    && (forall m | m in g && m !in f && g[m].parent.Some? ::
          IsRoot(g, g[m].parent.value) && EndsWith(m, "." + g[m].parent.value))
    && (forall m | m in f && g[m].parent != f[m].parent ::
          && f[m].parent.None? && g[m].parent.Some? && EndsWith(m, "." + g[m].parent.value)
          && forall c | c in f :: f[c].parent != Some(m))
  }

  lemma FamilyFitsIn(f: Forest, root: string, n: string, rootName: string, detected: seq<string>)
    requires ForestOk(f) && n !in f && FamilyFits(f, root, FamilyNames(f, root, n, detected))
    requires root !in f ==> root == rootName
    ensures var g := WithFamily(f, root, FamilyNames(f, root, n, detected));
            FitsIn(f, g, n, rootName, detected) && g[n].parent == if n == root then None else Some(root)
  {
    var g := WithFamily(f, root, FamilyNames(f, root, n, detected));
    assert IsRoot(g, root);
  }

  /** A detected name goes under the longest registered root above it. If there is none it goes under
      its registrable domain, where that is detected too and not registered, or on its own. */
  lemma AddedExactly(f: Forest, n: string, rootName: string, detected: seq<string>)
    requires ForestOk(f) && n !in f && (rootName == n || EndsWith(n, "." + rootName))
    ensures var g := Added(f, n, rootName, detected);
            && FitsIn(f, g, n, rootName, detected)
            && (forall r | IsClosestRoot(f, n, r) :: g[n].parent == Some(r))
            && ((forall r | r in f :: !IsAncestorRoot(f, n, r)) ==>
                  g[n].parent ==
                    if rootName != n && rootName in detected && rootName !in f then Some(rootName) else None)
  {
    FamilyFitsAlways(f, n, rootName, detected);
    match FamilyRoot(f, n, rootName, detected)
    case Alone =>
    case Family(root) =>
      FamilyFitsIn(f, root, n, rootName, detected);
      forall r | IsClosestRoot(f, n, r)
        ensures root == r
      {
        assert IsClosestRoot(f, n, root);
        ClosestRootIsUnique(f, n, r, root);
      }
  }

  /** The request does that, for any name that passes the check and is not registered. */
  lemma AddRequestAdds(o: Org, raw: string, rootName: string, detected: seq<string>)
    ensures var n := Norm(Norm(raw));
            var adds := ValidName(Norm(raw)) && n !in o.domains;
            Apply(o, AddDetected(raw, rootName, detected)).domains ==
              if adds then Added(o.domains, n, rootName, detected) else o.domains
  {
  }

  // ----- whole runs

  lemma UnderIsTransitive(a: string, b: string, c: string)
    requires Under(a, b) && Under(b, c)
    ensures Under(a, c)
  {
    if a != b && b != c {
      var k := |a| - |b|;
      assert a[k - 1..][1..] == a[k..] && ("." + b)[1..] == b;
      assert a[k..][|b| - |c| - 1..] == a[|a| - |c| - 1..];
    }
  }

  /** A verified domain of `o` at or above n. */
  ghost predicate CoveredAt(o: Org, n: string) {
    exists p | p in o.domains :: o.domains[p].verified && Under(n, p)
  }

  /** A passed challenge among the requests, on n or on a domain above it. */
  ghost predicate ChallengedIn(rs: seq<Request>, n: string) {
    exists r | r in rs :: r.Verify? && r.found && Under(n, r.name)
  }

  lemma CoverHasReason(o: Org, r: Request, n: string)
    requires OrgOk(o) && Sane(r) && CoveredAt(Apply(o, r), n)
    ensures CoveredAt(o, n) || ChallengedIn([r], n)
  {
    var g := Apply(o, r).domains;
    var p :| p in g && g[p].verified && Under(n, p);
    VerifiedExactly(o, r, p);
    RequestKeepsOrg(o, r);
    if Challenged(o.domains, r, p) {
      if p != r.name {
        assert ChildOk(o.domains, p);
      }
      UnderIsTransitive(n, p, r.name);
      assert r in [r];
    } else if Joins(o.domains, g, p) {
      assert ChildOk(g, p);
      UnderIsTransitive(n, p, g[p].parent.value);
    }
  }

  /** Nothing becomes verified but by a challenge: after any run a verified domain is covered by one
      that was verified at the start, or by a challenge passed meanwhile, at its own name or above. */
  lemma {:induction false} VerifiedHasReason(o: Org, rs: seq<Request>, n: string)
    requires OrgOk(o) && (forall r | r in rs :: Sane(r)) && CoveredAt(Run(o, rs), n)
    ensures CoveredAt(o, n) || ChallengedIn(rs, n)
    decreases |rs|
  {
    if rs != [] {
      assert rs[0] in rs && forall r | r in rs[1..] :: r in rs;
      RequestKeepsOrg(o, rs[0]);
      VerifiedHasReason(Apply(o, rs[0]), rs[1..], n);
      if CoveredAt(Apply(o, rs[0]), n) {
        CoverHasReason(o, rs[0], n);
      }
    }
  }

  /** For an empty organization: only challenges verify. */
  lemma OnlyChallengesVerify(rs: seq<Request>, n: string)
    requires (forall r | r in rs :: Sane(r)) && Verified(Run(EMPTY, rs).domains, n)
    ensures ChallengedIn(rs, n)
  {
    assert Under(n, n);
    VerifiedHasReason(EMPTY, rs, n);
  }

  ghost predicate OnRecord(o: Org, n: string, i: ReportId) {
    Verified(o.domains, n) && i in o.reports && o.reports[i].shown && o.reports[i].domain == Some(n)
  }

  lemma RequestKeepsHistory(o: Org, r: Request, n: string, i: ReportId)
    requires OrgOk(o) && Sane(r) && OnRecord(o, n, i) && !(r.IngestReport? && r.report == i)
    ensures OnRecord(Apply(o, r), n, i)
  {
    RequestKeepsOrg(o, r);
  }

  /** A verified domain with a report keeps both, through every run. */
  lemma {:induction false} HistoryIsKept(o: Org, rs: seq<Request>, n: string, i: ReportId)
    requires OrgOk(o) && (forall r | r in rs :: Sane(r)) && OnRecord(o, n, i)
    requires forall r | r in rs :: !(r.IngestReport? && r.report == i)  // report ids are drawn once
    ensures OnRecord(Run(o, rs), n, i)
    decreases |rs|
  {
    if rs != [] {
      assert rs[0] in rs && forall r | r in rs[1..] :: r in rs;
      RequestKeepsOrg(o, rs[0]);
      RequestKeepsHistory(o, rs[0], n, i);
      HistoryIsKept(Apply(o, rs[0]), rs[1..], n, i);
    }
  }
}
