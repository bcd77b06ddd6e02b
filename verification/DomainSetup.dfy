/** The registrations as the services and routes change them, step by step, each proved
    against the request it carries out in DomainRegistry. */
module DomainSetup {
  import opened Wrappers
  import opened Names
  import opened Attribution
  import opened DomainForest
  import opened DomainRegistry
  import opened ReportTypes

  class Registry {
    var domains: Forest
    var records: Records
    var reports: Reports

    constructor ()
      ensures State() == EMPTY
    {
      domains, records, reports := map[], map[], map[];
    }

    ghost function State(): Org
      reads this
    {
      Org(domains, records, reports)
    }

    /** Inserts the domain; the caller has ruled out an IntegrityError. */
    method AddDomain(name: string, parent: Option<string>)
      requires name !in domains && (parent.Some? ==> parent.value in domains)
      modifies this`domains
      ensures domains == WithDomain(old(domains), name, parent)
    {
      var verified := parent.Some? && domains[parent.value].verified;
      domains := domains[name := Domain(parent, verified)];
    }

    /** Returns how many reports were linked. */
    method ResweepUnmatchedReports() returns (linked: nat)
      modifies this`reports
      ensures reports == SweepReports(old(reports), domains.Keys)
      ensures linked == |Linked(old(reports), reports)|
    {
      reports, linked := SweepWaiting(reports, domains.Keys);
    }

    /** UPDATE ... WHERE header_from = h AND domain_id IS DISTINCT FROM found. */
    method UpdateRecordDomain(h: string, found: Option<string>) returns (updated: nat)
      modifies this`records
      ensures records == Moved(old(records), RowsToMove(old(records), h, found), found)
      ensures updated == |RowsToMove(old(records), h, found)|
    {
      var rows := RowsToMove(records, h, found);
      records := Moved(records, rows, found);
      updated := |rows|;
    }

    /** One UPDATE per distinct header the pattern reaches; returns the rows changed. */
    method ResweepDomainRecords(name: string) returns (updated: nat)
      modifies this`records
      ensures records == Resweep(old(records), domains.Keys, {name})
      ensures updated == |Changed(old(records), records)|
    {
      updated := 0;
      var headers := Candidates(records, {name});
      ghost var all := headers;
      while headers != {}
        invariant headers <= all
        invariant records == Rematched(old(records), domains.Keys, all - headers)
        invariant updated == |Changed(old(records), records)|
        decreases |headers|
      {
        var h :| h in headers;
        var found := MatchDomain(domains.Keys, h);
        ResweepStep(old(records), domains.Keys, all, headers, h);
        headers := headers - {h};
        var moved := UpdateRecordDomain(h, found);
        updated := updated + moved;
      }
      assert all - {} == all;
    }

    /** The counts a route reports: reports linked and records moved. */
    method AttributeReports(name: string) returns (linked: nat, updated: nat)
      modifies this`records, this`reports
      ensures State() == Attribute(old(State()), {name})
      ensures linked == |Linked(old(reports), reports)| && updated == |Changed(old(records), records)|
    {
      linked := ResweepUnmatchedReports();
      updated := ResweepDomainRecords(name);
    }

    method AttributeAll(names: seq<string>)
      requires names != []
      modifies this`records, this`reports
      ensures State() == Attribute(old(State()), Elements(names))
    {
      var linked, updated := AttributeReports(names[0]);
      assert Elements(names[..1]) == {names[0]};
      for k := 1 to |names|
        invariant State() == Attribute(old(State()), Elements(names[..k]))
      {
        AttributeTwice(old(State()), Elements(names[..k]), {names[k]});
        assert Elements(names[..k + 1]) == Elements(names[..k]) + {names[k]};
        linked, updated := AttributeReports(names[k]);
      }
      assert names[..|names|] == names;
    }

    // ----- the routes

    /** POST /domains. */
    method CreateDomain(raw: string, parent: Option<string>) returns (refusal: Option<CreateError>)
      requires ValidName(Norm(raw))  // else the request is refused before the route runs
      modifies this
      ensures State() == Apply(old(State()), Create(raw, parent))
      ensures refusal == CreateRefusal(old(domains), Norm(raw), parent)
    {
      var name := Norm(raw);
      refusal := CreateRefusal(domains, name, parent);
      if refusal.None? {
        AddDomain(name, parent);
        var linked, updated := AttributeReports(name);
      }
    }

    /** POST /domains/{id}/verify; `found` is the outcome of the DNS challenge. */
    method VerifyDomain(name: string, found: bool) returns (verified: bool)
      requires name in domains
      modifies this`domains
      ensures State() == Apply(old(State()), Verify(name, found))
      ensures verified <==> domains[name].verified
    {
      if domains[name].verified {
        return true;
      }
      if !found {
        return false;
      }
      var isRoot := domains[name].parent.None?;
      ghost var before := domains;
      domains := domains[name := domains[name].(verified := true)];
      if isRoot {
        domains := map m | m in domains ::
          if domains[m].parent == Some(name) && !domains[m].verified then domains[m].(verified := true) else domains[m];
      }
      assert domains == WithVerified(before, name);
      return true;
    }

    /** DELETE /domains/{id}. */
    method DeleteDomain(name: string) returns (deleted: bool)
      modifies this
      ensures State() == Apply(old(State()), Delete(name))
      ensures deleted <==> MayDelete(old(State()), name)
    {
      var hasReports := exists i | i in reports :: reports[i].shown && reports[i].domain == Some(name);
      if name !in domains || HasSubdomains(domains, name) || (domains[name].verified && hasReports) {
        return false;
      }
      domains := Without(domains, name);
      records := Unlinked(records, name);
      reports := UnlinkedReports(reports, name);
      var linked, updated := AttributeReports(name);
      return true;
    }

    // ----- a family

    /** The detected subdomains of `root`, each inserted once. */
    method AddFamilyMembers(existing: Forest, root: string, first: seq<string>, detected: seq<string>)
      returns (added: seq<string>)
      requires root in existing.Keys + Elements(first) && (root in existing ==> existing[root].parent.None?)
      requires domains == Grown(existing, root, Elements(first))
      modifies this`domains
      ensures first <= added
      ensures Elements(added) == Elements(first) + DetectedUnder(existing, root, detected)
      ensures domains == Grown(existing, root, Elements(added))
    {
      added := first;
      for k := 0 to |detected|
        invariant first <= added
        invariant Elements(added) == Elements(first) + DetectedUnder(existing, root, detected[..k])
        invariant domains == Grown(existing, root, Elements(added))
      {
        var other := detected[k];
        DetectedStep(existing, root, detected, k);
        if EndsWith(other, "." + root) && other !in existing && other !in added {
          GrowOne(existing, root, Elements(added), other);
          AddDomain(other, Some(root));
          assert Elements(added + [other]) == Elements(added) + {other};
          added := added + [other];
        }
      }
      assert detected[..|detected|] == detected;
    }

    /** Root-level domains under `root` without subdomains of their own move under it. */
    method MoveRoots(existing: Forest, root: string, ghost names: set<string>) returns (moved: set<string>)
      requires names !! existing.Keys && root in existing.Keys + names
                 && (root in existing ==> existing[root].parent.None?)
      requires domains == Grown(existing, root, names)
      modifies this`domains
      ensures domains == WithFamily(existing, root, names)
      ensures moved == set o | o in existing && Moves(existing, root, o)
    {
      var roots := set d | d in existing && existing[d].parent.None?;
      AllRootsLeft(existing, root, roots);
      moved := {};
      while roots != {}
        invariant forall d | d in roots :: IsRoot(existing, d)
        invariant moved == MovedBut(existing, root, roots)
        invariant domains == PartlyMoved(existing, root, names, moved)
        decreases |roots|
      {
        var other :| other in roots;
        MovedStep(existing, root, roots, other);
        roots := roots - {other};
        if other != root && EndsWith(other, "." + root) {
          SubdomainsStay(existing, root, names, moved, other);
          if !HasSubdomains(domains, other) {
            MoveOne(existing, root, names, moved, other);
            var verified := domains[root].verified || domains[other].verified;
            domains := domains[other := Domain(Some(root), verified)];
            moved := moved + {other};
          }
        }
      }
      NoRootsLeft(existing, root);
      AllMoved(existing, root, names, moved);
    }

    /** The family once its root is known; `first` is that root when it was just inserted. */
    method AddFamily(existing: Forest, name: string, root: string, first: seq<string>, detected: seq<string>)
      returns (added: seq<string>, moved: set<string>)
      requires name !in existing && (root == name || EndsWith(name, "." + root))
      requires first == (if root in existing then [] else [root]) && (root in existing ==> existing[root].parent.None?)
      requires domains == Grown(existing, root, Elements(first))
      modifies this
      ensures var names := FamilyNames(existing, root, name, detected);
              && Elements(added) == names
              && State() == Attribute(old(State()).(domains := WithFamily(existing, root, names)), names)
      ensures moved == set o | o in existing && Moves(existing, root, o)
    {
      added := first;
      if name != root {
        GrowOne(existing, root, Elements(added), name);
        AddDomain(name, Some(root));
        assert Elements(added + [name]) == Elements(added) + {name};
        added := added + [name];
      }
      added := AddFamilyMembers(existing, root, added, detected);
      assert Elements(added) == FamilyNames(existing, root, name, detected);
      moved := MoveRoots(existing, root, Elements(added));
      assert name in Elements(added);
      AttributeAll(added);
    }

    /** The name on its own, when nothing ties it to a family. */
    method AddAlone(name: string)
      requires name !in domains
      modifies this
      ensures State() == Attribute(old(State()).(domains := WithDomain(old(domains), name, None)), {name})
    {
      AddDomain(name, None);
      var linked, updated := AttributeReports(name);
    }

    /** The root the name goes under, inserted first when it is only detected. */
    method AddFamilyFrom(existing: Forest, name: string, root: string, detected: seq<string>)
      returns (added: seq<string>, moved: set<string>)
      requires existing == domains && name !in existing && (root == name || EndsWith(name, "." + root))
      requires root in existing ==> existing[root].parent.None?
      modifies this
      ensures var names := FamilyNames(existing, root, name, detected);
              && Elements(added) == names
              && State() == Attribute(old(State()).(domains := WithFamily(existing, root, names)), names)
    {
      var first := [];
      if root in existing {
        assert Grown(existing, root, Elements([])) == existing;
      } else {
        AddDomain(root, None);
        first := [root];
        assert Grown(existing, root, Elements([root])) == domains;
      }
      added, moved := AddFamily(existing, name, root, first, detected);
    }

    /** POST /domains/detected: a detected domain with its family. */
    method AddDetectedDomain(raw: string, rootName: string, detected: seq<string>) returns (added: seq<string>)
      requires ValidName(Norm(raw))  // else the request is refused before the route runs
      requires rootName == Norm(Norm(raw)) || EndsWith(Norm(Norm(raw)), "." + rootName)  // get_base_domain
      modifies this
      ensures State() == Apply(old(State()), AddDetected(raw, rootName, detected))
      ensures if Norm(Norm(raw)) in old(domains) then added == [] else Norm(Norm(raw)) in Elements(added)
    {
      var name := Norm(Norm(raw));
      added := [];
      if name in domains {
        return;
      }
      var existing := domains;
      var above := set d | d in existing && IsAncestorRoot(existing, name, d);
      var root := rootName;
      if above != {} {
        root := LongestOf(above);
        ClosestRootChosen(existing, name, above, root);
      } else {
        assert forall d | d in existing :: IsAncestorRoot(existing, name, d) ==> d in above;
        NoRootAbove(existing, name, rootName, detected);
        if root != name && (root !in detected || root in existing) {
          AddAlone(name);
          return [name];
        }
      }
      var moved;
      added, moved := AddFamilyFrom(existing, name, root, detected);
    }
  }

  /** The sweep with the reports `waiting` still to be looked at; `done` have been linked. */
  ghost predicate PartlySwept(reports: Reports, swept: Reports, waiting: set<ReportId>, after: Reports,
        done: set<ReportId>) {
    && waiting <= reports.Keys == swept.Keys == after.Keys && done <= reports.Keys
    && forall i | i in reports ::
         after[i] == (if i in waiting then reports[i] else swept[i])
         && (i in done <==> i !in waiting && swept[i] != reports[i])
  }

  lemma SweepStep(reports: Reports, swept: Reports, waiting: set<ReportId>, after: Reports, done: set<ReportId>,
        i: ReportId)
    requires PartlySwept(reports, swept, waiting, after, done) && i in waiting
    ensures after[i] == reports[i] && i !in done
    ensures PartlySwept(reports, swept, waiting - {i}, after[i := swept[i]],
                        if swept[i] != reports[i] then done + {i} else done)
  {
  }

  lemma SweepEnds(reports: Reports, swept: Reports, after: Reports, done: set<ReportId>)
    requires PartlySwept(reports, swept, {}, after, done)
    ensures after == swept && done == Linked(reports, after)
  {
  }

  method Relink(reports: Reports, registered: set<string>, i: ReportId) returns (report: Report)
    requires i in reports && reports[i].shown && reports[i].domain.None?
    ensures report == SweepReports(reports, registered)[i]
  {
    report := reports[i];
    var found := MatchDomain(registered, report.policyDomain);
    if found.Some? {
      report := report.(domain := found);
    }
  }

  /** One waiting report after the other. */
  method SweepWaiting(reports: Reports, registered: set<string>) returns (after: Reports, linked: nat)
    ensures after == SweepReports(reports, registered)
    ensures linked == |Linked(reports, after)|
  {
    after, linked := reports, 0;
    var waiting := set i | i in reports && reports[i].shown && reports[i].domain.None?;
    ghost var swept, done: set<ReportId> := SweepReports(reports, registered), {};
    while waiting != {}
      invariant PartlySwept(reports, swept, waiting, after, done) && linked == |done|
      invariant forall i | i in waiting :: reports[i].shown && reports[i].domain.None?
      decreases |waiting|
    {
      var i :| i in waiting;
      SweepStep(reports, swept, waiting, after, done, i);
      var report := Relink(reports, registered, i);
      after := after[i := report];
      if report != reports[i] {
        done := done + {i};
        linked := linked + 1;
      }
      waiting := waiting - {i};
    }
    SweepEnds(reports, swept, after, done);
  }

  method LongestOf(names: set<string>) returns (longest: string)
    requires names != {}
    ensures longest in names && forall n | n in names :: |n| <= |longest|
  {
    longest :| longest in names;
    var rest := names - {longest};
    while rest != {}
      invariant longest in names && rest <= names
      invariant forall n | n in names - rest :: |n| <= |longest|
      decreases |rest|
    {
      var n :| n in rest;
      rest := rest - {n};
      if |n| > |longest| {
        longest := n;
      }
    }
  }

  lemma ClosestRootChosen(f: Forest, name: string, above: set<string>, r: string)
    requires above == set d | d in f && IsAncestorRoot(f, name, d)
    requires r in above && forall q | q in above :: |q| <= |r|
    ensures forall rootName, detected :: FamilyRoot(f, name, rootName, detected) == Family(r)
  {
    assert IsClosestRoot(f, name, r);
    forall q | IsClosestRoot(f, name, q)
      ensures q == r
    {
      ClosestRootIsUnique(f, name, q, r);
    }
  }

  lemma NoRootAbove(f: Forest, name: string, rootName: string, detected: seq<string>)
    requires forall d | d in f :: !IsAncestorRoot(f, name, d)
    ensures FamilyRoot(f, name, rootName, detected)
         == if rootName != name && (rootName !in detected || rootName in f) then Alone else Family(rootName)
  {
    assert forall r :: !IsClosestRoot(f, name, r);
  }

  function DetectedUnder(f: Forest, root: string, detected: seq<string>): set<string> {
    set o | o in detected && EndsWith(o, "." + root) && o !in f
  }

  lemma DetectedStep(f: Forest, root: string, detected: seq<string>, k: nat)
    requires k < |detected|
    ensures DetectedUnder(f, root, detected[..k + 1])
         == DetectedUnder(f, root, detected[..k])
            + if EndsWith(detected[k], "." + root) && detected[k] !in f then {detected[k]} else {}
  {
    assert detected[..k + 1] == detected[..k] + [detected[k]];
  }

  lemma GrowOne(f: Forest, root: string, names: set<string>, n: string)
    requires n !in f && n !in names && n != root && root in f.Keys + names
    ensures root in Grown(f, root, names) && n !in Grown(f, root, names)
    ensures WithDomain(Grown(f, root, names), n, Some(root)) == Grown(f, root, names + {n})
  {
  }

  /** The forest while roots move. */
  ghost function PartlyMoved(f: Forest, root: string, names: set<string>, moved: set<string>): Forest {
    var g := Grown(f, root, names);
    map n | n in g ::
        if n in f && n in moved then Domain(Some(root), f[n].verified || (root in f && f[root].verified)) else g[n]
  }

  lemma MoveOne(f: Forest, root: string, names: set<string>, moved: set<string>, other: string)
    requires names !! f.Keys && root in f.Keys + names && root !in moved && IsRoot(f, other) && other !in moved
    ensures var g := PartlyMoved(f, root, names, moved);
            && root in g && other in g && g[other] == f[other] && g[root].verified == (root in f && f[root].verified)
            && g[other := Domain(Some(root), g[root].verified || g[other].verified)]
                == PartlyMoved(f, root, names, moved + {other})
  {
  }

  /** The roots that have moved when `roots` are still to be looked at. */
  ghost function MovedBut(f: Forest, root: string, roots: set<string>): set<string> {
    set o | o in f && o !in roots && Moves(f, root, o)
  }

  lemma AllRootsLeft(f: Forest, root: string, roots: set<string>)
    requires roots == set d | d in f && f[d].parent.None?
    ensures MovedBut(f, root, roots) == {}
  {
  }

  lemma NoRootsLeft(f: Forest, root: string)
    ensures MovedBut(f, root, {}) == set o | o in f && Moves(f, root, o)
  {
  }

  lemma MovedStep(f: Forest, root: string, roots: set<string>, other: string)
    requires other in roots && IsRoot(f, other)
    ensures MovedBut(f, root, roots - {other}) == MovedBut(f, root, roots) +
              if Moves(f, root, other) then {other} else {}
    ensures other !in MovedBut(f, root, roots) && root !in MovedBut(f, root, roots)
    ensures forall m | m in MovedBut(f, root, roots) :: IsRoot(f, m)
  {
  }

  lemma AllMoved(f: Forest, root: string, names: set<string>, moved: set<string>)
    requires names !! f.Keys && moved == set o | o in f && Moves(f, root, o)
    ensures PartlyMoved(f, root, names, moved) == WithFamily(f, root, names)
  {
    var g, h := PartlyMoved(f, root, names, moved), WithFamily(f, root, names);
    assert g.Keys == h.Keys;
    forall n | n in g
      ensures g[n] == h[n]
    {
      assert n in f ==> (n in moved <==> Moves(f, root, n));
    }
  }

  /** New and moved rows hang under the root, so no other domain gains or loses a subdomain. */
  lemma SubdomainsStay(f: Forest, root: string, names: set<string>, moved: set<string>, other: string)
    requires names !! f.Keys && other in f && other != root
    requires forall m | m in moved :: IsRoot(f, m)
    ensures HasSubdomains(PartlyMoved(f, root, names, moved), other) <==> HasSubdomains(f, other)
  {
    var g := PartlyMoved(f, root, names, moved);
    assert forall m | m in f && f[m].parent == Some(other) :: m in g && g[m] == f[m];
    assert forall m | m in g && g[m].parent == Some(other) :: m in f && f[m].parent == Some(other);
  }

  function Elements(names: seq<string>): set<string> {
    set n | n in names
  }

  /** The forest with a family's new rows in it, before anything moves. */
  function Grown(f: Forest, root: string, names: set<string>): Forest {
    map n | n in f.Keys + names ::
      if n in f then f[n]
      else if n == root then Domain(None, false)
      else Domain(Some(root), root in f && f[root].verified)
  }

  lemma AttributeTwice(o: Org, a: set<string>, b: set<string>)
    ensures Attribute(Attribute(o, a), b) == Attribute(o, a + b)
  {
    ResweepUnion(o.records, o.domains.Keys, a, b);
    var once := SweepReports(o.reports, o.domains.Keys);
    assert SweepReports(once, o.domains.Keys) == once;
  }

  function Moved(records: Records, rows: set<RecordId>, domain: Option<string>): Records {
    map i | i in records :: if i in rows then records[i].(domain := domain) else records[i]
  }

  function RowsToMove(records: Records, h: string, domain: Option<string>): set<RecordId> {
    set i | i in records && records[i].headerFrom == h && records[i].domain != domain
  }

  lemma MovedIsRematched(records: Records, registered: set<string>, headers: set<string>, h: string)
    requires h !in headers
    ensures var partial := Rematched(records, registered, headers);
            Moved(partial, RowsToMove(partial, h, Match(registered, h)), Match(registered, h))
                == Rematched(records, registered, headers + {h})
  {
    var partial := Rematched(records, registered, headers);
    var moved := Moved(partial, RowsToMove(partial, h, Match(registered, h)), Match(registered, h));
    var more := Rematched(records, registered, headers + {h});
    assert moved.Keys == more.Keys;
    forall i | i in records
      ensures moved[i] == more[i]
    {
      assert partial[i].headerFrom == records[i].headerFrom;
    }
  }

  /** The rows an UPDATE reports are the rows it changed, and no header's rows are another's. */
  lemma MovedCount(records: Records, registered: set<string>, headers: set<string>, h: string)
    requires h !in headers
    ensures var partial := Rematched(records, registered, headers);
            |Changed(records, Rematched(records, registered, headers + {h}))|
            == |Changed(records, partial)| + |RowsToMove(partial, h, Match(registered, h))|
  {
    var partial := Rematched(records, registered, headers);
    var more := Rematched(records, registered, headers + {h});
    var rows := RowsToMove(partial, h, Match(registered, h));
    forall i | i in records
      ensures i in rows <==> records[i].headerFrom == h && records[i] != more[i]
      ensures i in rows ==> records[i] == partial[i]
      ensures i !in rows ==> more[i] == partial[i]
    {
      assert partial[i].headerFrom == records[i].headerFrom;
    }
    assert Changed(records, partial) !! rows;
    assert Changed(records, more) == Changed(records, partial) + rows;
  }

  lemma ResweepStep(records: Records, registered: set<string>, all: set<string>, headers: set<string>, h: string)
    requires headers <= all && h in headers
    ensures var partial := Rematched(records, registered, all - headers);
            var next := Rematched(records, registered, all - (headers - {h}));
            var rows := RowsToMove(partial, h, Match(registered, h));
            && Moved(partial, rows, Match(registered, h)) == next
            && |Changed(records, next)| == |Changed(records, partial)| + |rows|
  {
    assert all - (headers - {h}) == (all - headers) + {h};
    MovedIsRematched(records, registered, all - headers, h);
    MovedCount(records, registered, all - headers, h);
  }
}
