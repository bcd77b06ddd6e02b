/** The TLS-RPT list (backend/app/routers/dns_checks.py): SQL pages, filtered again after the
    fetch, against the unpaged list the summary uses. */
module TlsReports {
  import Collections
  import opened Wrappers
  import opened Pagination

  /** A report and the result_type of each of its failure details. */
  datatype Report = Report(orgName: string, successes: nat, failures: nat, resultTypes: seq<Option<string>>)

  type ReportRow = Row<Report>

  predicate Shown(r: ReportRow, resultType: Option<string>) {
    resultType.None? || resultType in r.data.resultTypes
  }

  function Keep(rows: seq<ReportRow>, resultType: Option<string>): seq<ReportRow> {
    if rows == [] then []
    else if Shown(rows[0], resultType) then [rows[0]] + Keep(rows[1..], resultType)
    else Keep(rows[1..], resultType)
  }

  lemma {:induction false} KeepConcat(a: seq<ReportRow>, b: seq<ReportRow>, resultType: Option<string>)
    ensures Keep(a + b, resultType) == Keep(a, resultType) + Keep(b, resultType)
  {
    if a == [] {
      assert a + b == b;
    } else {
      KeepConcat(a[1..], b, resultType);
      assert (a + b)[1..] == a[1..] + b;
      assert [a[0]] + (Keep(a[1..], resultType) + Keep(b, resultType))
          == [a[0]] + Keep(a[1..], resultType) + Keep(b, resultType);
    }
  }

  /** One page of the list: the filtered rows, and the cursor taken before filtering. */
  method FetchRowsPage(page: Page<Report>, resultType: Option<string>)
    returns (rows: seq<ReportRow>, hasMore: bool, nextBeforeId: Option<Id>)
    ensures rows == Keep(page.rows, resultType) && hasMore == page.hasMore
    ensures nextBeforeId == if page.rows == [] then None else Some(AnchorOf(page.rows).id)
  {
    rows := [];
    for i := 0 to |page.rows|
      invariant rows == Keep(page.rows[..i], resultType)
    {
      var r := page.rows[i];
      KeepConcat(page.rows[..i], [r], resultType);
      assert page.rows[..i + 1] == page.rows[..i] + [r];
      if !Shown(r, resultType) {
        continue;
      }
      rows := rows + [r];
    }
    assert page.rows[..|page.rows|] == page.rows;
    hasMore := page.hasMore;
    nextBeforeId := if page.rows == [] then None else Some(AnchorOf(page.rows).id);
  }

  /** The pages as the client joins them, each filtered on its own. */
  function KeepPages(pages: seq<seq<ReportRow>>, resultType: Option<string>): seq<ReportRow> {
    if pages == [] then [] else Keep(pages[0], resultType) + KeepPages(pages[1..], resultType)
  }

  lemma {:induction false} KeepPagesIsKeepFlat(pages: seq<seq<ReportRow>>, resultType: Option<string>)
    ensures KeepPages(pages, resultType) == Keep(Flat(pages), resultType)
  {
    if pages != [] {
      KeepPagesIsKeepFlat(pages[1..], resultType);
      KeepConcat(pages[0], Flat(pages[1..]), resultType);
    }
  }

  // ----- the unpaged list: ORDER BY date alone, so rows of one date may come in any order

  ghost predicate NewestFirst(rows: seq<ReportRow>) {
    forall i, j | 0 <= i < j < |rows| :: rows[i].key >= rows[j].key
  }

  ghost predicate NoRepeats(rows: seq<ReportRow>) {
    forall i, j | 0 <= i < j < |rows| :: rows[i] != rows[j]
  }

  ghost predicate IsUnpaged(list: seq<ReportRow>, rows: Table<Report>) {
    NewestFirst(list) && NoRepeats(list) && forall r :: r in list <==> r in rows
  }

  lemma {:induction false} KeepNoRepeats(rows: seq<ReportRow>, resultType: Option<string>)
    requires NoRepeats(rows)
    ensures NoRepeats(Keep(rows, resultType))
    ensures forall r :: r in Keep(rows, resultType) <==> r in rows && Shown(r, resultType)
  {
    if rows != [] {
      KeepNoRepeats(rows[1..], resultType);
      assert rows == [rows[0]] + rows[1..];
      assert rows[0] !in rows[1..] by {
        assert forall k | 0 <= k < |rows[1..]| :: rows[1..][k] == rows[k + 1];
      }
    }
  }

  /** Without a filter all rows stay; with one exactly those with a failure detail of that type. */
  lemma KeptExactly(rows: seq<ReportRow>, resultType: string, r: ReportRow)
    requires NoRepeats(rows)
    ensures r in Keep(rows, None) <==> r in rows
    ensures r in Keep(rows, Some(resultType)) <==>
              r in rows && exists k :: 0 <= k < |r.data.resultTypes| && r.data.resultTypes[k] == Some(resultType)
  {
    KeepNoRepeats(rows, None);
    KeepNoRepeats(rows, Some(resultType));
  }

  lemma {:induction false} KeepOrder(rows: seq<ReportRow>, resultType: Option<string>)
    requires NewestFirst(rows)
    ensures NewestFirst(Keep(rows, resultType))
    ensures forall r | r in Keep(rows, resultType) :: r in rows
  {
    if rows != [] {
      KeepOrder(rows[1..], resultType);
      var rest := Keep(rows[1..], resultType);
      forall r | r in rest
        ensures rows[0].key >= r.key
      {
        var k :| 0 <= k < |rows[1..]| && rows[1..][k] == r;
        assert rows[k + 1] == r;
      }
    }
  }

  ghost predicate SameRowSet(a: seq<ReportRow>, b: seq<ReportRow>) {
    forall r :: r in a <==> r in b
  }

  lemma WithoutAt(b: seq<ReportRow>, k: nat)
    requires NewestFirst(b) && NoRepeats(b) && k < |b|
    ensures var others := b[..k] + b[k + 1..];
            && NewestFirst(others) && NoRepeats(others)
            && forall r :: r in others <==> r in b && r != b[k]
  {
    var others := b[..k] + b[k + 1..];
    forall r | r in b && r != b[k]
      ensures r in others
    {
      var j :| 0 <= j < |b| && b[j] == r;
      assert others[if j < k then j else j - 1] == r;
    }
  }

  /** Putting the newest row back at place k moves no date: all rows before it share its date. */
  lemma DatesWithout(a: seq<ReportRow>, b: seq<ReportRow>, k: nat)
    requires NewestFirst(a) && NewestFirst(b) && a != [] && k < |b| && b[k] == a[0]
    requires forall i | 0 <= i < |b| :: b[i].key <= a[0].key
    requires var others := b[..k] + b[k + 1..];
             |a| - 1 == |others| && forall i | 0 <= i < |others| :: a[i + 1].key == others[i].key
    ensures forall i | 0 <= i < |a| :: a[i].key == b[i].key
  {
    var others := b[..k] + b[k + 1..];
    assert forall i | 0 <= i <= k :: b[i].key == a[0].key;
    forall i | 0 < i < |a|
      ensures a[i].key == b[i].key
    {
      assert a[i - 1 + 1].key == others[i - 1].key;
      assert others[i - 1] == if i - 1 < k then b[i - 1] else b[i];
    }
  }

  lemma SameWithout(a: seq<ReportRow>, b: seq<ReportRow>, k: nat)
    requires NewestFirst(a) && NewestFirst(b) && NoRepeats(a) && NoRepeats(b) && SameRowSet(a, b)
    requires a != [] && k < |b| && b[k] == a[0]
    ensures var others := b[..k] + b[k + 1..];
            && NewestFirst(a[1..]) && NoRepeats(a[1..])
            && NewestFirst(others) && NoRepeats(others) && SameRowSet(a[1..], others)
    ensures forall i | 0 <= i < |b| :: b[i].key <= a[0].key
  {
    WithoutAt(b, k);
    WithoutAt(a, 0);
    assert a[..0] + a[1..] == a[1..];
    forall i | 0 <= i < |b|
      ensures b[i].key <= a[0].key
    {
      assert b[i] in a;
    }
  }

  /** Two newest-first lists of the same rows show the same dates in the same places. */
  lemma {:induction false} SameDates(a: seq<ReportRow>, b: seq<ReportRow>)
    requires NewestFirst(a) && NewestFirst(b) && NoRepeats(a) && NoRepeats(b) && SameRowSet(a, b)
    ensures |a| == |b| && forall i | 0 <= i < |a| :: a[i].key == b[i].key
    decreases |a|
  {
    if a == [] {
      Collections.NoElements(b);
    } else {
      assert a[0] in b;
      var k :| 0 <= k < |b| && b[k] == a[0];
      SameWithout(a, b, k);
      SameDates(a[1..], b[..k] + b[k + 1..]);
      DatesWithout(a, b, k);
    }
  }

  function ShownOf(rows: Table<Report>, resultType: Option<string>): Table<Report> {
    set r | r in rows && Shown(r, resultType)
  }

  ghost predicate DistinctDates(rows: Table<Report>) {
    forall r, q | r in rows && q in rows && r != q :: r.key != q.key
  }

  lemma SortedIsUnpaged(rows: Table<Report>)
    requires Keyed(rows)
    ensures IsUnpaged(Sorted(rows, true), rows)
  {
    var s := Sorted(rows, true);
    forall i, j | 0 <= i < j < |s|
      ensures s[i].key >= s[j].key && s[i] != s[j]
    {
      assert Before(s[i], s[j], true);
    }
  }

  lemma KeepIsUnpaged(list: seq<ReportRow>, rows: Table<Report>, resultType: Option<string>)
    requires IsUnpaged(list, rows)
    ensures IsUnpaged(Keep(list, resultType), ShownOf(rows, resultType))
  {
    KeepOrder(list, resultType);
    KeepNoRepeats(list, resultType);
  }

  lemma UnpagedAgree(a: seq<ReportRow>, b: seq<ReportRow>, rows: Table<Report>)
    requires IsUnpaged(a, rows) && IsUnpaged(b, rows)
    ensures |a| == |b| && forall k | 0 <= k < |a| :: a[k].key == b[k].key
    ensures DistinctDates(rows) ==> a == b
  {
    SameDates(a, b);
    forall k | 0 <= k < |a|
      ensures DistinctDates(rows) ==> a[k] == b[k]
    {
      assert a[k] in rows && b[k] in rows;
    }
  }

  // ----- what ORDER BY date leaves open

  lemma {:induction false} KeepAt(rows: seq<ReportRow>, resultType: Option<string>, i: nat) returns (p: nat)
    requires i < |rows| && Shown(rows[i], resultType)
    ensures p < |Keep(rows, resultType)| && Keep(rows, resultType)[p] == rows[i]
  {
    if i == 0 {
      p := 0;
    } else {
      p := KeepAt(rows[1..], resultType, i - 1);
      p := if Shown(rows[0], resultType) then p + 1 else p;
    }
  }

  lemma {:induction false} KeepPair(rows: seq<ReportRow>, resultType: Option<string>, i: nat, j: nat)
    returns (p: nat, q: nat)
    requires i < j < |rows| && Shown(rows[i], resultType) && Shown(rows[j], resultType)
    ensures p < q < |Keep(rows, resultType)|
    ensures Keep(rows, resultType)[p] == rows[i] && Keep(rows, resultType)[q] == rows[j]
  {
    if i == 0 {
      q := KeepAt(rows[1..], resultType, j - 1);
      p, q := 0, q + 1;
    } else {
      p, q := KeepPair(rows[1..], resultType, i - 1, j - 1);
      if Shown(rows[0], resultType) {
        p, q := p + 1, q + 1;
      }
    }
  }

  /** Two rows of one date may trade places. */
  lemma SwapIsUnpaged(list: seq<ReportRow>, rows: Table<Report>, i: nat, j: nat)
    requires IsUnpaged(list, rows) && i < j < |list| && list[i].key == list[j].key
    ensures IsUnpaged(list[i := list[j]][j := list[i]], rows)
  {
    var other := list[i := list[j]][j := list[i]];
    forall k, l | 0 <= k < l < |other|
      ensures other[k].key >= other[l].key && other[k] != other[l]
    {
      assert other[k].key == list[k].key && other[l].key == list[l].key;
    }
    forall r
      ensures r in other <==> r in list
    {
      if r in list {
        var k :| 0 <= k < |list| && list[k] == r;
        assert other[if k == i then j else if k == j then i else k] == r;
      }
    }
  }

  lemma SwapShows(list: seq<ReportRow>, rows: Table<Report>, resultType: Option<string>, i: nat, j: nat)
    requires IsUnpaged(list, rows) && i < j < |list|
    requires Shown(list[i], resultType) && Shown(list[j], resultType)
    ensures Keep(list[i := list[j]][j := list[i]], resultType) != Keep(list, resultType)
  {
    var other := list[i := list[j]][j := list[i]];
    var p, q := KeepPair(list, resultType, i, j);
    var p', q' := KeepPair(other, resultType, i, j);
    KeepNoRepeats(list, resultType);
  }

  /** Two shown reports of one date, in the order they are listed. */
  lemma SharedDate(list: seq<ReportRow>, rows: Table<Report>, resultType: Option<string>) returns (i: nat, j: nat)
    requires IsUnpaged(list, rows) && !DistinctDates(ShownOf(rows, resultType))
    ensures i < j < |list| && list[i].key == list[j].key
    ensures Shown(list[i], resultType) && Shown(list[j], resultType)
  {
    var shown := ShownOf(rows, resultType);
    var r, q :| r in shown && q in shown && r != q && r.key == q.key;
    assert r in list && q in list;
    var k :| 0 <= k < |list| && list[k] == r;
    var l :| 0 <= l < |list| && list[l] == q;
    i, j := if k < l then k else l, if k < l then l else k;
  }

  ghost predicate AnyOrderGives(rows: Table<Report>, resultType: Option<string>, result: seq<ReportRow>) {
    forall list | IsUnpaged(list, rows) :: Keep(list, resultType) == result
  }

  lemma OrderShowsExactly(rows: Table<Report>, resultType: Option<string>, list: seq<ReportRow>)
    requires IsUnpaged(list, rows)
    ensures AnyOrderGives(rows, resultType, Keep(list, resultType)) <==> DistinctDates(ShownOf(rows, resultType))
  {
    if DistinctDates(ShownOf(rows, resultType)) {
      forall other | IsUnpaged(other, rows)
        ensures Keep(other, resultType) == Keep(list, resultType)
      {
        KeepIsUnpaged(list, rows, resultType);
        KeepIsUnpaged(other, rows, resultType);
        UnpagedAgree(Keep(list, resultType), Keep(other, resultType), ShownOf(rows, resultType));
      }
    } else {
      var i, j := SharedDate(list, rows, resultType);
      SwapIsUnpaged(list, rows, i, j);
      SwapShows(list, rows, resultType, i, j);
    }
  }

  /** The list the client joins from filtered pages against the unpaged filtered list: the same
      rows and the same dates in the same places; and the same list, whatever order the unpaged
      query gives to reports of one date, exactly when no two shown reports share a date. */
  lemma PagedAgreesWithUnpaged(scope: Table<Report>, tables: seq<Table<Report>>, wanted: ReportRow -> bool,
        resultType: Option<string>, limit: nat, list: seq<ReportRow>)
    requires Keyed(scope) && limit >= 1 && |tables| > |Matching(scope, wanted)| && forall t | t in tables :: t == scope
    requires IsUnpaged(list, Matching(scope, wanted))
    ensures var paged := KeepPages(Walk(tables, wanted, None, limit, true), resultType);
            var unpaged := Keep(list, resultType);
            var shown := ShownOf(Matching(scope, wanted), resultType);
            && IsUnpaged(paged, shown) && IsUnpaged(unpaged, shown)
            && |paged| == |unpaged| && (forall k | 0 <= k < |paged| :: paged[k].key == unpaged[k].key)
            && (AnyOrderGives(Matching(scope, wanted), resultType, paged) <==> DistinctDates(shown))
  {
    var rows := Matching(scope, wanted);
    assert Beyond(rows, None, true) == rows;
    FixedWalk(scope, tables, wanted, None, limit, true);
    KeepPagesIsKeepFlat(Walk(tables, wanted, None, limit, true), resultType);
    SortedIsUnpaged(rows);
    KeepIsUnpaged(Sorted(rows, true), rows, resultType);
    KeepIsUnpaged(list, rows, resultType);
    UnpagedAgree(Keep(Sorted(rows, true), resultType), Keep(list, resultType), ShownOf(rows, resultType));
    OrderShowsExactly(rows, resultType, Sorted(rows, true));
  }
}
