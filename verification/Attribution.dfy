/** The attribution index: which domain each aggregate record belongs to, kept up to date by
    re-matching only the records a registration change can reach
    (backend/app/services/ingestion/report_writer.py, backend/app/repositories/dmarc_reports.py). */
module Attribution {
  import opened Wrappers
  import opened Names
  import opened ReportTypes

  /** `shown` is false when the sender check left the record's report out (report_trust.py):
      every ORM SELECT skips such a record. */
  datatype Record = Record(headerFrom: string, domain: Option<string>, shown: bool)

  type Records = map<RecordId, Record>

  // ----- which records a resweep touches

  /** SQL LIKE: % is any run of characters, _ any one, and a backslash escapes. */
  predicate Like(s: string, p: string)
    decreases |s| + |p|
  {
    if p == "" then s == ""
    else if p[0] == '%' then Like(s, p[1..]) || (s != "" && Like(s[1..], p))
    else if p[0] == '\\' && |p| > 1 then s != "" && s[0] == p[1] && Like(s[1..], p[2..])
    else s != "" && (p[0] == '_' || s[0] == p[0]) && Like(s[1..], p[1..])
  }

  predicate Touched(headerFrom: string, d: string) {
    headerFrom == d || Like(headerFrom, "%." + d)
  }

  predicate TouchedBy(headerFrom: string, names: set<string>) {
    exists d | d in names :: Touched(headerFrom, d)
  }

  /** No backslash: what the LIKE pattern needs to match the name itself. */
  predicate Unescaped(d: string) {
    '\\' !in d
  }

  predicate Plain(d: string) {
    Unescaped(d) && '%' !in d && '_' !in d
  }

  lemma {:induction false} LikeItself(d: string)
    requires Unescaped(d)
    ensures Like(d, d)
  {
    if d != "" {
      LikeItself(d[1..]);
      if d[0] == '%' {
        assert Like(d[1..], d);
      }
    }
  }

  lemma {:induction false} LikeAnyPrefix(s: string, p: string, k: nat)
    requires k <= |s| && Like(s[k..], p)
    ensures Like(s, "%" + p)
    decreases k
  {
    assert ("%" + p)[1..] == p;
    if k == 0 {
      assert s[0..] == s;
    } else {
      assert s[1..][k - 1..] == s[k..];
      LikeAnyPrefix(s[1..], p, k - 1);
    }
  }

  /** What LIKE's pattern characters stand for: any one character, the next one itself, and the rest
      themselves. */
  lemma LikeExactly(s: string, c: char, p: string)
    ensures Like(s, "") <==> s == ""
    ensures Like(s, "_" + p) <==> s != "" && Like(s[1..], p)
    ensures Like(s, "\\" + [c] + p) <==> s != "" && s[0] == c && Like(s[1..], p)
    ensures c != '%' && c != '_' && c != '\\' ==> (Like(s, [c] + p) <==> s != "" && s[0] == c && Like(s[1..], p))
  {
    assert ("_" + p)[1..] == p && ([c] + p)[1..] == p && ("\\" + [c] + p)[2..] == p;
  }

  /** And any run of characters. */
  lemma {:induction false} LikeRun(s: string, p: string)
    ensures Like(s, "%" + p) <==> exists k: nat :: k <= |s| && Like(s[k..], p)
    decreases |s|
  {
    assert ("%" + p)[1..] == p && s[0..] == s;
    if s != "" {
      LikeRun(s[1..], p);
      if k: nat :| k <= |s[1..]| && Like(s[1..][k..], p) {
        assert s[1..][k..] == s[k + 1..];
      }
      if k: nat :| 0 < k <= |s| && Like(s[k..], p) {
        assert s[1..][k - 1..] == s[k..];
      }
    }
  }

  /** The pattern reaches every name under d. */
  lemma UnderIsTouched(h: string, d: string)
    requires Unescaped(d) && Under(h, d)
    ensures Touched(h, d)
  {
    if h != d {
      LikeItself("." + d);
      LikeAnyPrefix(h, "." + d, |h| - |d| - 1);
      assert "%" + ("." + d) == "%." + d;
    }
  }

  lemma {:induction false} LikePlain(s: string, p: string)
    requires Plain(p) && Like(s, p)
    ensures s == p
  {
    if p != "" {
      LikePlain(s[1..], p[1..]);
      assert s == [s[0]] + s[1..] && p == [p[0]] + p[1..];
    }
  }

  lemma {:induction false} LikeSuffix(s: string, p: string)
    requires Plain(p) && Like(s, "%" + p)
    ensures EndsWith(s, p)
    decreases |s|
  {
    assert ("%" + p)[1..] == p;
    if Like(s, p) {
      LikePlain(s, p);
      assert s[0..] == s;
    } else {
      LikeSuffix(s[1..], p);
      assert s[1..][|s| - 1 - |p|..] == s[|s| - |p|..];
    }
  }

  /** So a header is touched by a plain name exactly when it is that name or ends in a dot and it. */
  lemma TouchedExactly(h: string, d: string)
    requires Plain(d)
    ensures Touched(h, d) <==> Under(h, d)
  {
    if Under(h, d) {
      UnderIsTouched(h, d);
    }
    if Like(h, "%." + d) {
      assert "%" + ("." + d) == "%." + d;
      LikeSuffix(h, "." + d);
    }
  }

  // ----- the resweep

  /** Every record the application can see is on the closest registered domain of its header. */
  ghost predicate Attributed(records: Records, registered: set<string>) {
    forall i | i in records && records[i].shown :: records[i].domain == Match(registered, records[i].headerFrom)
  }

  /** SELECT DISTINCT header_from: an ORM query, so of shown records only. */
  function Candidates(records: Records, names: set<string>): set<string> {
    set i | i in records && records[i].shown && TouchedBy(records[i].headerFrom, names) :: records[i].headerFrom
  }

  function Rematched(records: Records, registered: set<string>, headers: set<string>): Records {
    map i | i in records ::
      if records[i].headerFrom in headers then records[i].(domain := Match(registered, records[i].headerFrom))
      else records[i]
  }

  /** One UPDATE per candidate header, and that is a Core statement: it reaches hidden records too. */
  function Resweep(records: Records, registered: set<string>, names: set<string>): Records {
    Rematched(records, registered, Candidates(records, names))
  }

  /** ON DELETE SET NULL. */
  function Unlinked(records: Records, d: string): Records {
    map i | i in records :: if records[i].domain == Some(d) then records[i].(domain := None) else records[i]
  }

  ghost function Changed(before: Records, after: Records): set<RecordId> {
    set i | i in before && i in after && before[i] != after[i]
  }

  lemma ShownIsCandidate(records: Records, names: set<string>, i: RecordId)
    requires i in records && records[i].shown
    ensures records[i].headerFrom in Candidates(records, names) <==> TouchedBy(records[i].headerFrom, names)
  {
  }

  /** What the incremental resweep must not miss: every record whose match moved. */
  lemma SweepExact(records: Records, before: set<string>, after: set<string>, names: set<string>)
    requires Attributed(records, before)
    ensures Attributed(Resweep(records, after, names), after) <==>
            forall i | i in records && records[i].shown ::
              Match(after, records[i].headerFrom) != Match(before, records[i].headerFrom) ==>
                  TouchedBy(records[i].headerFrom, names)
  {
    var swept := Resweep(records, after, names);
    forall i | i in records && records[i].shown
      ensures swept[i].domain ==
                if TouchedBy(records[i].headerFrom, names) then Match(after, records[i].headerFrom)
                else records[i].domain
    {
      ShownIsCandidate(records, names, i);
    }
    if Attributed(swept, after) {
      forall i | i in records && records[i].shown
          && Match(after, records[i].headerFrom) != Match(before, records[i].headerFrom)
        ensures TouchedBy(records[i].headerFrom, names)
      {
        assert swept[i].domain == Match(after, swept[i].headerFrom);
      }
    }
  }

  /** After adding d the index is exact if and only if every record whose closest
      registered name is now d is one the LIKE pattern reaches. */
  lemma AddExact(records: Records, registered: set<string>, d: string)
    requires Attributed(records, registered) && d !in registered
    ensures Attributed(Resweep(records, registered + {d}, {d}), registered + {d}) <==>
            forall i | i in records && records[i].shown ::
              Match(registered + {d}, records[i].headerFrom) == Some(d) ==> Touched(records[i].headerFrom, d)
  {
    SweepExact(records, registered, registered + {d}, {d});
    forall i | i in records
      ensures Match(registered + {d}, records[i].headerFrom) == Some(d) <==>
              Match(registered + {d}, records[i].headerFrom) != Match(registered, records[i].headerFrom)
      ensures TouchedBy(records[i].headerFrom, {d}) <==> Touched(records[i].headerFrom, d)
    {
      MatchGrows(registered, d, Norm(records[i].headerFrom));
      ClosestIsLongest(registered, Norm(records[i].headerFrom));
      assert d in {d};
    }
  }

  /** After removing d (its records unlinked first) the index is exact if and only if every record
      that was on d, and now belongs to another domain, is one the pattern reaches. */
  lemma RemoveExact(records: Records, registered: set<string>, d: string)
    requires Attributed(records, registered) && d in registered
    ensures var rest := registered - {d};
            Attributed(Resweep(Unlinked(records, d), rest, {d}), rest) <==>
            forall i | i in records && records[i].shown ::
              Match(registered, records[i].headerFrom) == Some(d) ==>
                Touched(records[i].headerFrom, d) || Match(rest, records[i].headerFrom).None?
  {
    var rest := registered - {d};
    var swept := Resweep(Unlinked(records, d), rest, {d});
    assert rest + {d} == registered;
    var unlinked := Unlinked(records, d);
    forall i | i in records && records[i].shown
      ensures swept[i].domain == Match(rest, records[i].headerFrom) <==>
              (Match(registered, records[i].headerFrom) == Some(d) ==>
                Touched(records[i].headerFrom, d) || Match(rest, records[i].headerFrom).None?)
    {
      ShownIsCandidate(unlinked, {d}, i);
      MatchGrows(rest, d, Norm(records[i].headerFrom));
      ClosestIsLongest(rest, Norm(records[i].headerFrom));
      assert d in {d};
    }
    assert Attributed(swept, rest) <==>
        forall i | i in records && records[i].shown :: swept[i].domain == Match(rest, records[i].headerFrom);
  }

  // ----- the headers for which that always works

  /** Written the way the walk reads it, or a name that matches nothing anyway. */
  predicate WellWritten(headerFrom: string) {
    Norm(headerFrom) == headerFrom || '.' !in Norm(headerFrom)
  }

  /** Every shown record with a well-written header is on its closest registered domain. */
  ghost predicate WellWrittenExact(records: Records, registered: set<string>) {
    forall i | i in records && records[i].shown && WellWritten(records[i].headerFrom) ::
      records[i].domain == Match(registered, records[i].headerFrom)
  }

  /** A well-written header is touched whenever its match can move. */
  lemma WellWrittenIsReached(h: string, registered: set<string>, d: string)
    requires WellWritten(h) && Unescaped(d) && !Touched(h, d)
    ensures Match(registered + {d}, h) == Match(registered - {d}, h) == Match(registered, h)
  {
    if Under(h, d) {
      UnderIsTouched(h, d);
    }
    if '.' in Norm(h) {
      MatchFrame(registered, d, h);
    }
  }

  lemma {:induction false} WellWrittenFamily(h: string, registered: set<string>, names: set<string>)
    requires WellWritten(h) && (forall d | d in names :: Unescaped(d)) && !TouchedBy(h, names)
    ensures Match(registered + names, h) == Match(registered, h)
    decreases names
  {
    if names == {} {
      assert registered + names == registered;
    } else {
      var d :| d in names;
      WellWrittenFamily(h, registered, names - {d});
      WellWrittenIsReached(h, registered + (names - {d}), d);
      assert registered + (names - {d}) + {d} == registered + names;
    }
  }

  /** Adding any family of names, resweeping once all are in, keeps the index exact. */
  lemma FamilyExact(records: Records, registered: set<string>, names: set<string>)
    requires WellWrittenExact(records, registered) && forall d | d in names :: Unescaped(d)
    ensures WellWrittenExact(Resweep(records, registered + names, names), registered + names)
  {
    var swept := Resweep(records, registered + names, names);
    forall i | i in records && records[i].shown && WellWritten(records[i].headerFrom)
      ensures swept[i].domain == Match(registered + names, records[i].headerFrom)
    {
      ShownIsCandidate(records, names, i);
      if !TouchedBy(records[i].headerFrom, names) {
        WellWrittenFamily(records[i].headerFrom, registered, names);
      }
    }
  }

  /** So does removing a name, whose records are unlinked first. */
  lemma RemovalExact(records: Records, registered: set<string>, d: string)
    requires WellWrittenExact(records, registered) && d in registered && Unescaped(d)
    ensures WellWrittenExact(Resweep(Unlinked(records, d), registered - {d}, {d}), registered - {d})
  {
    var rest := registered - {d};
    var unlinked := Unlinked(records, d);
    var swept := Resweep(unlinked, rest, {d});
    forall i | i in records && records[i].shown && WellWritten(records[i].headerFrom)
      ensures swept[i].domain == Match(rest, records[i].headerFrom)
    {
      var h := records[i].headerFrom;
      ShownIsCandidate(unlinked, {d}, i);
      assert d in {d};
      if !Touched(h, d) {
        WellWrittenIsReached(h, registered, d);
        ClosestIsLongest(rest, Norm(h));
      }
    }
  }

  /** A second resweep finds nothing to change. */
  lemma ResweepTwice(records: Records, registered: set<string>, names: set<string>)
    ensures var once := Resweep(records, registered, names);
            Changed(once, Resweep(once, registered, names)) == {}
  {
    var once := Resweep(records, registered, names);
    assert forall i | i in records :: once[i].headerFrom == records[i].headerFrom && once[i].shown == records[i].shown;
    assert Candidates(once, names) == Candidates(records, names);
    assert Resweep(once, registered, names) == once;
  }

  /** Resweeping name after name, once all are registered, is one resweep of all of them. */
  lemma ResweepUnion(records: Records, registered: set<string>, a: set<string>, b: set<string>)
    ensures Resweep(Resweep(records, registered, a), registered, b) == Resweep(records, registered, a + b)
  {
    var once := Resweep(records, registered, a);
    assert forall i | i in records :: once[i].headerFrom == records[i].headerFrom && once[i].shown == records[i].shown;
    assert Candidates(once, b) == Candidates(records, b);
    assert Candidates(records, a + b) == Candidates(records, a) + Candidates(records, b) by {
      forall i | i in records && records[i].shown
        ensures TouchedBy(records[i].headerFrom, a + b) <==>
                  TouchedBy(records[i].headerFrom, a) || TouchedBy(records[i].headerFrom, b)
      {
      }
    }
  }

  // ----- records the sender check hides

  /** A change of the sender check: the records in `shown` count from now on, the others do not. */
  function Reflagged(records: Records, shown: set<RecordId>): (g: Records)
    ensures g.Keys == records.Keys && forall i | i in g && i in shown :: g[i].shown
    ensures forall i | i in g && i !in shown :: !g[i].shown
  {
    map i | i in records :: records[i].(shown := i in shown)
  }

  /** Shown or hidden, every record is on the closest registered domain of its header. */
  ghost predicate AllExact(records: Records, registered: set<string>) {
    forall i | i in records :: records[i].domain == Match(registered, records[i].headerFrom)
  }

  /** The pattern of one of the names matches the header, and some shown record carries it: the
      UPDATE that follows then moves hidden records with that header too. */
  predicate Reached(records: Records, headerFrom: string, names: set<string>) {
    TouchedBy(headerFrom, names) && exists j | j in records :: records[j].shown && records[j].headerFrom == headerFrom
  }

  lemma SameHeaders(records: Records, swept: Records, registered: set<string>)
    requires swept.Keys == records.Keys && forall i | i in records :: swept[i].headerFrom == records[i].headerFrom
    ensures AllExact(swept, registered) <==>
              forall i | i in records :: swept[i].domain == Match(registered, records[i].headerFrom)
  {
  }

  /** The header belongs to one of the names once they are registered. */
  predicate TakenOver(registered: set<string>, names: set<string>, headerFrom: string) {
    var m := Match(registered + names, headerFrom);
    m.Some? && m.value in names
  }

  /** After adding a family all records are exact, the hidden ones as well, if and only if each
      record the family takes over has a header a pattern matches and a shown record carries. */
  lemma AllAddExact(records: Records, registered: set<string>, names: set<string>)
    requires AllExact(records, registered) && names !! registered
    ensures AllExact(Resweep(records, registered + names, names), registered + names) <==>
            forall i | i in records ::
                TakenOver(registered, names, records[i].headerFrom) ==> Reached(records, records[i].headerFrom, names)
  {
    var swept := Resweep(records, registered + names, names);
    forall i | i in records
      ensures swept[i].domain == Match(registered + names, records[i].headerFrom) <==>
              (TakenOver(registered, names, records[i].headerFrom) ==> Reached(records, records[i].headerFrom, names))
    {
      MatchTakenOver(registered, names, Norm(records[i].headerFrom));
    }
    SameHeaders(records, swept, registered + names);
  }

  /** After removing d: if and only if each record that was on d is reached in that way or matches
      nothing any more. */
  lemma AllRemoveExact(records: Records, registered: set<string>, d: string)
    requires AllExact(records, registered) && d in registered
    ensures var rest := registered - {d};
            AllExact(Resweep(Unlinked(records, d), rest, {d}), rest) <==>
            forall i | i in records :: Match(registered, records[i].headerFrom) == Some(d) ==>
              Reached(records, records[i].headerFrom, {d}) || Match(rest, records[i].headerFrom).None?
  {
    var rest, unlinked := registered - {d}, Unlinked(records, d);
    var swept := Resweep(unlinked, rest, {d});
    assert rest + {d} == registered;
    forall i | i in records
      ensures swept[i].domain == Match(rest, records[i].headerFrom) <==>
              (Match(registered, records[i].headerFrom) == Some(d) ==>
                Reached(records, records[i].headerFrom, {d}) || Match(rest, records[i].headerFrom).None?)
    {
      UnlinkedReached(records, records[i].headerFrom, d);
      MatchGrows(rest, d, Norm(records[i].headerFrom));
      ClosestIsLongest(rest, Norm(records[i].headerFrom));
    }
    SameHeaders(records, swept, rest);
  }

  lemma UnlinkedReached(records: Records, headerFrom: string, d: string)
    ensures Reached(Unlinked(records, d), headerFrom, {d}) <==> Reached(records, headerFrom, {d})
  {
    var unlinked := Unlinked(records, d);
    assert forall j | j in records ::
        unlinked[j].shown == records[j].shown && unlinked[j].headerFrom == records[j].headerFrom;
  }

  /** No change of the sender check can bring up a record on the wrong domain exactly when the
      hidden records are exact too. */
  lemma ShowingIsSafe(records: Records, registered: set<string>)
    ensures (forall shown :: Attributed(Reflagged(records, shown), registered)) <==> AllExact(records, registered)
  {
    var all := Reflagged(records, records.Keys);
    assert forall i | i in records ::
        all[i].shown && all[i].domain == records[i].domain && all[i].headerFrom == records[i].headerFrom;
    if forall shown :: Attributed(Reflagged(records, shown), registered) {
      assert Attributed(all, registered);
      SameHeaders(records, all, registered);
    }
  }

  /** So a family added while records are hidden does no harm later, whatever the sender check
      comes to show, if and only if every record it takes over is reached. */
  lemma AddThenShow(records: Records, registered: set<string>, names: set<string>)
    requires AllExact(records, registered) && names !! registered
    ensures (forall shown ::
              Attributed(Reflagged(Resweep(records, registered + names, names), shown), registered + names)) <==>
            forall i | i in records ::
                TakenOver(registered, names, records[i].headerFrom) ==> Reached(records, records[i].headerFrom, names)
  {
    AllAddExact(records, registered, names);
    ShowingIsSafe(Resweep(records, registered + names, names), registered + names);
  }

  /** The same for a removed domain. */
  lemma RemoveThenShow(records: Records, registered: set<string>, d: string)
    requires AllExact(records, registered) && d in registered
    ensures var rest := registered - {d};
            (forall shown :: Attributed(Reflagged(Resweep(Unlinked(records, d), rest, {d}), shown), rest)) <==>
            forall i | i in records :: Match(registered, records[i].headerFrom) == Some(d) ==>
              Reached(records, records[i].headerFrom, {d}) || Match(rest, records[i].headerFrom).None?
  {
    AllRemoveExact(records, registered, d);
    ShowingIsSafe(Resweep(Unlinked(records, d), registered - {d}, {d}), registered - {d});
  }

  lemma PlainIsNorm(s: string)
    requires s != "" && s[|s| - 1] != '.' && forall i | 0 <= i < |s| :: s[i] == '.' || 'a' <= s[i] <= 'z'
    ensures Norm(s) == s
  {
    assert !IsSpace(s[0]) && !IsSpace(s[|s| - 1]);
    assert LowerAll(s) == s;
  }

  /** And hidden records do go stale: one was matched to its parent, its own domain is added
      while it is hidden, and it is still on the parent when it shows again. */
  lemma HiddenRecordGoesStale(id: RecordId)
    ensures var sub, apex := "a.b.c", "b.c";
            var before := map[id := Record(sub, Some(apex), false)];
            var after := Resweep(before, {apex, sub}, {sub});
            && before[id].domain == Match({apex}, sub)
            && Attributed(after, {apex, sub})
            && !Attributed(Reflagged(after, {id}), {apex, sub})
  {
    var sub, apex := "a.b.c", "b.c";
    assert forall i | 0 <= i < |sub| :: sub[i] == '.' || 'a' <= sub[i] <= 'z';
    PlainIsNorm(sub);
    assert sub[0] != '.' && sub[1..] == ".b.c" && Parent(sub[1..]) == sub[1..][1..] == apex;
    assert Parent(sub) == apex;
    assert '.' in sub by { assert sub[1] == '.'; }
    assert '.' in apex by { assert apex[1] == '.'; }
    assert Match({apex}, sub) == Closest({apex}, apex) == Some(apex);
    assert Match({apex, sub}, sub) == Some(sub);
    var before := map[id := Record(sub, Some(apex), false)];
    assert Resweep(before, {apex, sub}, {sub}) == before;
    assert Reflagged(before, {id})[id].shown;
  }

  lemma {:induction false} StripDotsPrefix(s: string)
    ensures |StripDots(s)| <= |s| && StripDots(s) == s[..|StripDots(s)|]
    ensures StripDots(s) == s <==> s == "" || s[|s| - 1] != '.'
    ensures StripDots(s) != "" ==> StripDots(s)[|StripDots(s)| - 1] != '.'
  {
    if s != "" && s[|s| - 1] == '.' {
      StripDotsPrefix(s[..|s| - 1]);
    }
  }

  lemma NoSpaces(h: string)
    requires forall c | c in h :: !IsSpace(c)
    ensures Norm(h) == StripDots(LowerAll(h))
  {
    assert h == "" || (h[0] in h && h[|h| - 1] in h);
  }

  lemma LastOfSuffix(h: string, d: string)
    requires d != "" && EndsWith(h, "." + d)
    ensures h[|h| - 1] == d[|d| - 1]
  {
    var k := |h| - |d| - 1;
    assert h[k..][|d|] == ("." + d)[|d|];
  }

  lemma DotIsCut(h: string)
    requires forall c | c in h :: !IsSpace(c)
    requires Norm(h) != ""
    ensures h != "" && Norm(h)[|Norm(h)| - 1] != '.'
    ensures |Norm(h)| == |h| || (|Norm(h)| < |h| && h[|h| - 1] == '.')
  {
    NoSpaces(h);
    StripDotsPrefix(LowerAll(h));
    assert |LowerAll(h)| == |h|;
    assert h != "" ==> LowerAll(h)[|h| - 1] == Lower(h[|h| - 1]);
  }

  /** The raw text of any other header does not end with the name it matches. */
  lemma RawTextIsMissed(h: string)
    requires (forall c | c in h :: !IsSpace(c)) && Plain(Norm(h)) && Norm(h) != h && Norm(h) != ""
    ensures !Touched(h, Norm(h))
  {
    var d := Norm(h);
    DotIsCut(h);
    if EndsWith(h, "." + d) {
      LastOfSuffix(h, d);
    }
    if Like(h, "%." + d) {
      assert "%" + ("." + d) == "%." + d;
      LikeSuffix(h, "." + d);
    }
  }

  /** Whatever is registered, adding a name never makes the resweep miss the header. */
  ghost predicate NeverMissed(h: string) {
    forall registered: set<string>, d | Unescaped(d) && d !in registered ::
      Match(registered + {d}, h) == Match(registered, h) || Touched(h, d)
  }

  /** For any header: it is never missed if and only if the raw text is touched by each name that
      could take it over, which are the normalized header and its ancestors of two labels or more. */
  lemma NeverMissedExactly(h: string)
    ensures NeverMissed(h) <==> forall d | Unescaped(d) && '.' in d && Under(Norm(h), d) :: Touched(h, d)
  {
    if NeverMissed(h) {
      forall d | Unescaped(d) && '.' in d && Under(Norm(h), d)
        ensures Touched(h, d)
      {
        var none: set<string> := {};
        ClosestIsLongest(none, Norm(h));
        ClosestIsLongest(none + {d}, Norm(h));
        assert Candidate(none + {d}, Norm(h), d);
      }
    } else {
      var registered: set<string>, d :| Unescaped(d) && d !in registered
                                         && Match(registered + {d}, h) != Match(registered, h) && !Touched(h, d);
      MatchGrows(registered, d, Norm(h));
      ClosestIsLongest(registered + {d}, Norm(h));
    }
  }

  /** For plain headers without spaces these are exactly the well-written ones: for any other there
      is a registration the resweep misses. */
  lemma SafeHeaders(h: string)
    requires (forall c | c in h :: !IsSpace(c)) && Plain(Norm(h))
    ensures WellWritten(h) <==> NeverMissed(h)
  {
    if WellWritten(h) {
      forall registered: set<string>, d | Unescaped(d) && !Touched(h, d)
        ensures Match(registered + {d}, h) == Match(registered, h)
      {
        WellWrittenIsReached(h, registered, d);
      }
    } else {
      var d := Norm(h);
      RawTextIsMissed(h);
      NeverMissedExactly(h);
      assert Unescaped(d) && '.' in d && Under(d, d);
    }
  }

  /** A final dot is enough: mail from "b.c." belongs to b.c, and the resweep for b.c misses it. */
  lemma FinalDotIsMissed()
    ensures !WellWritten("b.c.") && Match({"b.c"}, "b.c.") == Some("b.c") && !Touched("b.c.", "b.c")
              && !NeverMissed("b.c.")
  {
    var h, d := "b.c.", "b.c";
    assert forall i | 0 <= i < |h| :: h[i] == '.' || 'a' <= h[i] <= 'z';
    assert LowerAll(h) == h && h[..3] == d && h[3] == '.' && d[2] == 'c';
    assert StripDots(d) == d && StripDots(h) == d && Norm(h) == d;
    assert d[1] == '.' && '.' in d;
    assert Plain(d) by {
      assert forall i | 0 <= i < |d| :: d[i] == '.' || 'a' <= d[i] <= 'z';
    }
    RawTextIsMissed(h);
    NeverMissedExactly(h);
    assert Under(d, d);
  }
}
