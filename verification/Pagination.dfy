/** Keyset pagination (backend/app/services/pagination.py): one page as a query over the rows
    of a table, and a walk of pages over a table that changes between them. */
module Pagination {
  import Collections
  import opened Wrappers

  datatype Id = Id(uuid: int)

  /** A row in a query's scope: its order column, its id, and the other columns. */
  datatype Row<T> = Row(key: int, id: Id, data: T)

  type Table<T(==)> = set<Row<T>>

  predicate Less(k1: int, i1: Id, k2: int, i2: Id) {
    k1 < k2 || (k1 == k2 && i1.uuid < i2.uuid)
  }

  /** a comes before b in page order: (order_column, id_column), descending or ascending. */
  predicate Before<T>(a: Row<T>, b: Row<T>, descending: bool) {
    if descending then Less(b.key, b.id, a.key, a.id) else Less(a.key, a.id, b.key, b.id)
  }

  /** Ids are a primary key. */
  ghost predicate Keyed<T>(rows: Table<T>) {
    forall a, b | a in rows && b in rows && a.id == b.id :: a == b
  }

  ghost predicate Ordered<T>(rows: seq<Row<T>>, descending: bool) {
    forall i, j | 0 <= i < j < |rows| :: Before(rows[i], rows[j], descending)
  }

  ghost predicate IsFirst<T>(r: Row<T>, rows: Table<T>, descending: bool) {
    r in rows && forall q | q in rows && q != r :: Before(r, q, descending)
  }

  lemma Trichotomy<T>(a: Row<T>, b: Row<T>, descending: bool)
    requires a.id != b.id
    ensures Before(a, b, descending) <==> !Before(b, a, descending)
  {
    assert a.id == Id(a.id.uuid) && b.id == Id(b.id.uuid);
  }

  lemma {:induction false} FirstExists<T>(rows: Table<T>, descending: bool)
    requires Keyed(rows) && rows != {}
    ensures exists r :: IsFirst(r, rows, descending)
    decreases rows
  {
    var r :| r in rows;
    var rest := rows - {r};
    assert forall q | q in rows :: q == r || q in rest;
    if rest == {} {
      assert IsFirst(r, rows, descending);
    } else {
      FirstExists(rest, descending);
      var m :| IsFirst(m, rest, descending);
      Trichotomy(r, m, descending);
      if Before(r, m, descending) {
        assert IsFirst(r, rows, descending);
      } else {
        assert IsFirst(m, rows, descending);
      }
    }
  }

  ghost predicate IsSorted<T(!new)>(s: seq<Row<T>>, rows: Table<T>, descending: bool) {
    Ordered(s, descending) && |s| == |rows| && forall r :: r in s <==> r in rows
  }

  lemma {:induction false} SortedExists<T(!new)>(rows: Table<T>, descending: bool)
    requires Keyed(rows)
    ensures exists s :: IsSorted(s, rows, descending)
    decreases rows
  {
    if rows == {} {
      var none: seq<Row<T>> := [];
      assert IsSorted(none, rows, descending);
    } else {
      FirstExists(rows, descending);
      var first :| IsFirst(first, rows, descending);
      SortedExists(rows - {first}, descending);
      var rest :| IsSorted(rest, rows - {first}, descending);
      assert IsSorted([first] + rest, rows, descending);
    }
  }

  /** ORDER BY: the rows in page order. */
  ghost function Sorted<T(!new)>(rows: Table<T>, descending: bool): (s: seq<Row<T>>)
    requires Keyed(rows)
    ensures IsSorted(s, rows, descending)
  {
    SortedExists(rows, descending);
    var s :| IsSorted(s, rows, descending);
    s
  }

  lemma SameHead<T(!new)>(rows: Table<T>, descending: bool, s: seq<Row<T>>, t: seq<Row<T>>)
    requires Ordered(s, descending) && Ordered(t, descending) && s != [] && t != []
    requires s[0] in t && t[0] in s
    ensures s[0] == t[0]
  {
    assert forall j | 0 < j < |t| :: Before(t[0], t[j], descending);
    assert forall k | 0 < k < |s| :: Before(s[0], s[k], descending);
  }

  /** Page order leaves no choice: the rows in order are one sequence. */
  lemma {:induction false} SortedIsUnique<T(!new)>(rows: Table<T>, descending: bool, s: seq<Row<T>>, t: seq<Row<T>>)
    requires Ordered(s, descending) && Ordered(t, descending)
    requires forall r :: r in s <==> r in rows
    requires forall r :: r in t <==> r in rows
    ensures s == t
    decreases |s|
  {
    Collections.NoElements(t);
    if s != [] {
      assert s[0] in rows && s[0] in t;
      assert t[0] in rows && t[0] in s;
      SameHead(rows, descending, s, t);
      TailElements(rows, descending, s);
      TailElements(rows, descending, t);
      SortedIsUnique(rows - {s[0]}, descending, s[1..], t[1..]);
      assert s == [s[0]] + s[1..] && t == [t[0]] + t[1..];
    }
  }

  lemma TailElements<T(!new)>(rows: Table<T>, descending: bool, s: seq<Row<T>>)
    requires Ordered(s, descending) && s != []
    requires forall r :: r in s <==> r in rows
    ensures forall r :: r in s[1..] <==> r in rows - {s[0]}
  {
    forall r | r in rows - {s[0]}
      ensures r in s[1..]
    {
      var k :| 0 <= k < |s| && s[k] == r;
      assert s[1..][k - 1] == r;
    }
  }

  /** Descending, keys fall and ties go by falling id; ascending, both rise. */
  lemma KeysInOrder<T>(rows: seq<Row<T>>, descending: bool, i: nat, j: nat)
    requires Ordered(rows, descending) && i < j < |rows|
    ensures descending ==> rows[i].key >= rows[j].key
    ensures !descending ==> rows[i].key <= rows[j].key
    ensures rows[i].key == rows[j].key ==>
              if descending then rows[i].id.uuid > rows[j].id.uuid else rows[i].id.uuid < rows[j].id.uuid
  {
  }

  // ----- one page

  datatype Anchor = Anchor(key: int, id: Id)

  predicate AfterAnchor<T>(a: Anchor, r: Row<T>, descending: bool) {
    if descending then Less(r.key, r.id, a.key, a.id) else Less(a.key, a.id, r.key, r.id)
  }

  /** The anchor query: the row of `before_id` in the caller's scope, whether or not the filter wants it. */
  ghost function Resolve<T>(scope: Table<T>, cursor: Option<Id>): Option<Anchor> {
    if cursor.Some? && exists r :: r in scope && r.id == cursor.value then
      var r :| r in scope && r.id == cursor.value;
      Some(Anchor(r.key, r.id))
    else
      None
  }

  ghost function Matching<T(!new)>(scope: Table<T>, wanted: Row<T> -> bool): Table<T> {
    set r | r in scope && wanted(r)
  }

  ghost function Beyond<T(!new)>(rows: Table<T>, anchor: Option<Anchor>, descending: bool): Table<T> {
    set r | r in rows && (anchor.None? || AfterAnchor(anchor.value, r, descending))
  }

  function Take<T>(rows: seq<Row<T>>, limit: nat): seq<Row<T>> {
    if |rows| <= limit then rows else rows[..limit]
  }

  datatype Page<T> = Page(rows: seq<Row<T>>, hasMore: bool)

  ghost function KeysetPaginate<T(!new)>(scope: Table<T>, wanted: Row<T> -> bool, cursor: Option<Id>, limit: nat,
        descending: bool): Page<T>
    requires Keyed(scope)
  {
    var rows := Take(Sorted(Beyond(Matching(scope, wanted), Resolve(scope, cursor), descending), descending), limit);
    Page(rows, |rows| == limit)
  }

  // ----- a walk: one page after the other, each over the table as it is by then

  function AnchorOf<T>(rows: seq<Row<T>>): Anchor
    requires rows != []
  {
    var r := rows[|rows| - 1];
    Anchor(r.key, r.id)
  }

  ghost predicate AllKeyed<T>(tables: seq<Table<T>>) {
    forall t | t in tables :: Keyed(t)
  }

  ghost function Walk<T(!new)>(tables: seq<Table<T>>, wanted: Row<T> -> bool, cursor: Option<Id>, limit: nat,
        descending: bool): seq<seq<Row<T>>>
    requires AllKeyed(tables) && limit >= 1
  {
    if tables == [] then []
    else
      var page := KeysetPaginate(tables[0], wanted, cursor, limit, descending);
      if page.hasMore then [page.rows] + Walk(tables[1..], wanted, Some(AnchorOf(page.rows).id), limit, descending)
      else [page.rows]
  }

  /** The row each page continues from is still there, with the same key, when that page is read. */
  ghost predicate AnchorsKept<T(!new)>(tables: seq<Table<T>>, wanted: Row<T> -> bool, anchor: Option<Anchor>,
        limit: nat, descending: bool)
    requires AllKeyed(tables) && limit >= 1
  {
    tables == [] ||
    (var cursor := if anchor.Some? then Some(anchor.value.id) else None;
     var page := KeysetPaginate(tables[0], wanted, cursor, limit, descending);
     && Resolve(tables[0], cursor) == anchor
     && (page.hasMore ==> AnchorsKept(tables[1..], wanted, Some(AnchorOf(page.rows)), limit, descending)))
  }

  ghost function CursorOf(anchor: Option<Anchor>): Option<Id> {
    if anchor.Some? then Some(anchor.value.id) else None
  }

  function Flat<T>(pages: seq<seq<T>>): seq<T> {
    if pages == [] then [] else pages[0] + Flat(pages[1..])
  }

  ghost predicate Finished<T>(pages: seq<seq<Row<T>>>, limit: nat) {
    pages != [] && |pages[|pages| - 1]| < limit
  }

  ghost predicate Present<T(!new)>(table: Table<T>, wanted: Row<T> -> bool, key: int, id: Id) {
    exists r :: r in table && wanted(r) && r.key == key && r.id == id
  }

  lemma OrderedConcat<T>(a: seq<Row<T>>, b: seq<Row<T>>, descending: bool)
    requires Ordered(a, descending) && Ordered(b, descending)
    requires a != [] && forall r | r in b :: Before(a[|a| - 1], r, descending)
    ensures Ordered(a + b, descending)
  {
    var s := a + b;
    forall i, j | 0 <= i < j < |s|
      ensures Before(s[i], s[j], descending)
    {
      if i < |a| <= j {
        assert b[j - |a|] in b;
        assert Before(a[|a| - 1], s[j], descending);
      }
    }
  }

  lemma CutBehindLast<T>(all: seq<Row<T>>, limit: nat, r: Row<T>, descending: bool)
    requires Ordered(all, descending) && limit >= 1 && r in all && r !in Take(all, limit)
    ensures |Take(all, limit)| == limit && AfterAnchor(AnchorOf(Take(all, limit)), r, descending)
  {
    var k :| 0 <= k < |all| && all[k] == r;
    assert forall j | 0 <= j < limit && j < |all| :: Take(all, limit)[j] == all[j];
    assert Before(all[limit - 1], all[k], descending);
  }

  /** The rows a page is cut from. */
  ghost predicate InReach<T(!new)>(scope: Table<T>, wanted: Row<T> -> bool, anchor: Option<Anchor>, descending: bool,
        r: Row<T>) {
    r in scope && wanted(r) && (anchor.Some? ==> AfterAnchor(anchor.value, r, descending))
  }

  /** A page read from its anchor: in page order, all after the anchor, and cut only behind its last row. */
  lemma PageFacts<T(!new)>(scope: Table<T>, wanted: Row<T> -> bool, cursor: Option<Id>, limit: nat, descending: bool)
    requires Keyed(scope) && limit >= 1
    ensures var page := KeysetPaginate(scope, wanted, cursor, limit, descending);
            var anchor := Resolve(scope, cursor);
            && Ordered(page.rows, descending)
            && (forall r | r in page.rows :: InReach(scope, wanted, anchor, descending, r))
            && (forall r | InReach(scope, wanted, anchor, descending, r) && r !in page.rows ::
                  page.hasMore && AfterAnchor(AnchorOf(page.rows), r, descending))
  {
    var anchor := Resolve(scope, cursor);
    var all := Sorted(Beyond(Matching(scope, wanted), anchor, descending), descending);
    var page := KeysetPaginate(scope, wanted, cursor, limit, descending);
    assert page.rows == Take(all, limit);
    forall r | r in page.rows
      ensures InReach(scope, wanted, anchor, descending, r)
    {
      assert r in all;
    }
    forall r | InReach(scope, wanted, anchor, descending, r) && r !in page.rows
      ensures page.hasMore && AfterAnchor(AnchorOf(page.rows), r, descending)
    {
      CutBehindLast(all, limit, r, descending);
    }
  }

  lemma AfterIsTransitive<T>(a: Anchor, rows: seq<Row<T>>, r: Row<T>, descending: bool)
    requires rows != [] && AfterAnchor(a, rows[|rows| - 1], descending) && AfterAnchor(AnchorOf(rows), r, descending)
    ensures AfterAnchor(a, r, descending)
  {
  }

  /** The rows the walk goes on to fetch after its first page. */
  ghost function Later<T(!new)>(tables: seq<Table<T>>, wanted: Row<T> -> bool, cursor: Option<Id>, limit: nat,
        descending: bool): seq<seq<Row<T>>>
    requires AllKeyed(tables) && limit >= 1 && tables != []
  {
    var page := KeysetPaginate(tables[0], wanted, cursor, limit, descending);
    if page.hasMore then Walk(tables[1..], wanted, Some(AnchorOf(page.rows).id), limit, descending) else []
  }

  lemma WalkSplits<T(!new)>(tables: seq<Table<T>>, wanted: Row<T> -> bool, cursor: Option<Id>, limit: nat,
        descending: bool)
    requires AllKeyed(tables) && limit >= 1 && tables != []
    ensures var page := KeysetPaginate(tables[0], wanted, cursor, limit, descending);
            var later := Later(tables, wanted, cursor, limit, descending);
            && Walk(tables, wanted, cursor, limit, descending) == [page.rows] + later
            && Flat(Walk(tables, wanted, cursor, limit, descending)) == page.rows + Flat(later)
  {
    var page := KeysetPaginate(tables[0], wanted, cursor, limit, descending);
    var pages := Walk(tables, wanted, cursor, limit, descending);
    assert pages[0] == page.rows && pages[1..] == Later(tables, wanted, cursor, limit, descending);
  }

  lemma JoinOrdered<T>(anchor: Option<Anchor>, rows: seq<Row<T>>, rest: seq<Row<T>>, descending: bool)
    requires rows != [] && Ordered(rows, descending) && Ordered(rest, descending)
    requires anchor.Some? ==> forall r | r in rows :: AfterAnchor(anchor.value, r, descending)
    requires forall r | r in rest :: AfterAnchor(AnchorOf(rows), r, descending)
    ensures Ordered(rows + rest, descending)
    ensures anchor.Some? ==> forall r | r in rows + rest :: AfterAnchor(anchor.value, r, descending)
  {
    OrderedConcat(rows, rest, descending);
    if anchor.Some? {
      assert rows[|rows| - 1] in rows;
      forall r | r in rest
        ensures AfterAnchor(anchor.value, r, descending)
      {
        AfterIsTransitive(anchor.value, rows, r, descending);
      }
    }
  }

  /** Under any inserts, deletes and updates between pages (the anchors excepted) the rows come
      strictly in page order, so none comes twice. */
  lemma {:induction false} WalkIsOrdered<T(!new)>(tables: seq<Table<T>>, wanted: Row<T> -> bool, anchor: Option<Anchor>,
        limit: nat, descending: bool)
    requires AllKeyed(tables) && limit >= 1 && AnchorsKept(tables, wanted, anchor, limit, descending)
    ensures var rows := Flat(Walk(tables, wanted, CursorOf(anchor), limit, descending));
            && Ordered(rows, descending)
            && (anchor.Some? ==> forall r | r in rows :: AfterAnchor(anchor.value, r, descending))
  {
    if tables != [] {
      var page := KeysetPaginate(tables[0], wanted, CursorOf(anchor), limit, descending);
      PageFacts(tables[0], wanted, CursorOf(anchor), limit, descending);
      WalkSplits(tables, wanted, CursorOf(anchor), limit, descending);
      if page.hasMore {
        var next := AnchorOf(page.rows);
        WalkIsOrdered(tables[1..], wanted, Some(next), limit, descending);
        var rest := Flat(Later(tables, wanted, CursorOf(anchor), limit, descending));
        assert forall r | r in page.rows :: InReach(tables[0], wanted, anchor, descending, r);
        JoinOrdered(anchor, page.rows, rest, descending);
      } else {
        assert forall r | r in page.rows :: InReach(tables[0], wanted, anchor, descending, r);
      }
    }
  }

  /** A finished walk has every row that matched in each table it read. */
  lemma {:induction false} WalkIsComplete<T(!new)>(tables: seq<Table<T>>, wanted: Row<T> -> bool,
        anchor: Option<Anchor>, limit: nat, descending: bool, key: int, id: Id)
    requires AllKeyed(tables) && limit >= 1 && AnchorsKept(tables, wanted, anchor, limit, descending)
    requires Finished(Walk(tables, wanted, CursorOf(anchor), limit, descending), limit)
    requires forall t | t in tables :: Present(t, wanted, key, id)
    requires anchor.Some? ==> AfterAnchor(anchor.value, Row(key, id, ()), descending)
    ensures exists r ::
              r in Flat(Walk(tables, wanted, CursorOf(anchor), limit, descending)) && r.key == key && r.id == id
  {
    var page := KeysetPaginate(tables[0], wanted, CursorOf(anchor), limit, descending);
    PageFacts(tables[0], wanted, CursorOf(anchor), limit, descending);
    WalkSplits(tables, wanted, CursorOf(anchor), limit, descending);
    assert Present(tables[0], wanted, key, id);
    var row :| row in tables[0] && wanted(row) && row.key == key && row.id == id;
    assert InReach(tables[0], wanted, anchor, descending, row);
    if row !in page.rows {
      var rest := Later(tables, wanted, CursorOf(anchor), limit, descending);
      assert rest != [];
      assert rest[|rest| - 1] == ([page.rows] + rest)[|rest|];
      WalkIsComplete(tables[1..], wanted, Some(AnchorOf(page.rows)), limit, descending, key, id);
    }
  }

  // ----- a table that does not change

  lemma SplitAt<T(!new)>(all: seq<Row<T>>, limit: nat, descending: bool)
    requires Ordered(all, descending) && 1 <= limit <= |all|
    ensures forall r :: r in all[limit..] <==> r in all && AfterAnchor(AnchorOf(all[..limit]), r, descending)
  {
    forall r | r in all && AfterAnchor(AnchorOf(all[..limit]), r, descending)
      ensures r in all[limit..]
    {
      var k :| 0 <= k < |all| && all[k] == r;
      assert k < limit - 1 ==> Before(all[k], all[limit - 1], descending);
      assert all[limit..][k - limit] == r;
    }
    forall r | r in all[limit..]
      ensures AfterAnchor(AnchorOf(all[..limit]), r, descending)
    {
      var k :| limit <= k < |all| && all[k] == r;
      assert Before(all[limit - 1], all[k], descending);
    }
  }

  lemma BeyondLast<T(!new)>(rows: Table<T>, anchor: Option<Anchor>, all: seq<Row<T>>, limit: nat, descending: bool)
    requires Keyed(rows)
    requires all == Sorted(Beyond(rows, anchor, descending), descending) && 1 <= limit <= |all|
    ensures Sorted(Beyond(rows, Some(AnchorOf(all[..limit])), descending), descending) == all[limit..]
  {
    var last := all[..limit];
    var rest := Beyond(rows, Some(AnchorOf(last)), descending);
    SplitAt(all, limit, descending);
    assert last[limit - 1] in all;
    forall r | r in rest
      ensures r in all
    {
      if anchor.Some? {
        AfterIsTransitive(anchor.value, last, r, descending);
      }
      assert r in Beyond(rows, anchor, descending);
    }
    SortedIsUnique(rest, descending, all[limit..], Sorted(rest, descending));
  }

  lemma ResolveRow<T(!new)>(scope: Table<T>, r: Row<T>)
    requires Keyed(scope) && r in scope
    ensures Resolve(scope, Some(r.id)) == Some(Anchor(r.key, r.id))
  {
  }

  lemma FixedPage<T(!new)>(scope: Table<T>, wanted: Row<T> -> bool, anchor: Option<Anchor>, limit: nat,
        descending: bool)
    requires Keyed(scope) && limit >= 1 && Resolve(scope, CursorOf(anchor)) == anchor
    ensures var all := Sorted(Beyond(Matching(scope, wanted), anchor, descending), descending);
            var page := KeysetPaginate(scope, wanted, CursorOf(anchor), limit, descending);
            if page.hasMore then
              var next := AnchorOf(page.rows);
              && Resolve(scope, Some(next.id)) == Some(next)
              && all == page.rows + Sorted(Beyond(Matching(scope, wanted), Some(next), descending), descending)
            else page.rows == all
  {
    var rows := Matching(scope, wanted);
    var all := Sorted(Beyond(rows, anchor, descending), descending);
    var page := KeysetPaginate(scope, wanted, CursorOf(anchor), limit, descending);
    assert page.rows == Take(all, limit);
    if page.hasMore {
      BeyondLast(rows, anchor, all, limit, descending);
      assert all[limit - 1] in all;
      ResolveRow(scope, all[limit - 1]);
      assert page.rows == all[..limit] && all == all[..limit] + all[limit..];
    }
  }

  /** On a table that stays the same, the pages joined are the sorted filtered table. */
  lemma {:induction false} FixedWalk<T(!new)>(scope: Table<T>, tables: seq<Table<T>>, wanted: Row<T> -> bool,
        anchor: Option<Anchor>, limit: nat, descending: bool)
    requires Keyed(scope) && limit >= 1 && forall t | t in tables :: t == scope
    requires Resolve(scope, CursorOf(anchor)) == anchor
    requires |tables| > |Sorted(Beyond(Matching(scope, wanted), anchor, descending), descending)|
    ensures var pages := Walk(tables, wanted, CursorOf(anchor), limit, descending);
            && Flat(pages) == Sorted(Beyond(Matching(scope, wanted), anchor, descending), descending)
            && Finished(pages, limit)
  {
    var page := KeysetPaginate(scope, wanted, CursorOf(anchor), limit, descending);
    assert tables[0] in tables && forall t | t in tables[1..] :: t in tables;
    FixedPage(scope, wanted, anchor, limit, descending);
    WalkSplits(tables, wanted, CursorOf(anchor), limit, descending);
    if page.hasMore {
      var next := AnchorOf(page.rows);
      var later := Walk(tables[1..], wanted, Some(next.id), limit, descending);
      FixedWalk(scope, tables[1..], wanted, Some(next), limit, descending);
      FinishedBehind(page.rows, later, limit);
    }
  }

  lemma FinishedBehind<T>(rows: seq<Row<T>>, later: seq<seq<Row<T>>>, limit: nat)
    requires Finished(later, limit)
    ensures Finished([rows] + later, limit)
  {
    assert ([rows] + later)[|later|] == later[|later| - 1];
  }

  lemma OneMorePage(n: nat, limit: nat, rows: nat)
    requires n >= 1 && (n - 1) * limit <= rows < n * limit
    ensures n * limit <= limit + rows < (n + 1) * limit
  {
    assert n * limit == (n - 1) * limit + limit && (n + 1) * limit == n * limit + limit;
  }

  ghost predicate FullButLast<T>(pages: seq<seq<Row<T>>>, limit: nat) {
    pages != [] && (if |pages| == 1 then |pages[0]| < limit else |pages[0]| == limit && FullButLast(pages[1..], limit))
  }

  /** So a finished walk of n rows took n / limit + 1 pages: never more than one page beyond
      those the rows fill. */
  lemma {:induction false} FullPagesLength<T>(pages: seq<seq<Row<T>>>, limit: nat)
    requires FullButLast(pages, limit)
    ensures (|pages| - 1) * limit <= |Flat(pages)| < |pages| * limit
  {
    if |pages| > 1 {
      FullPagesLength(pages[1..], limit);
      OneMorePage(|pages[1..]|, limit, |Flat(pages[1..])|);
    } else {
      assert Flat(pages) == pages[0];
    }
  }

  /** Every page of a finished walk but its last is full. */
  lemma {:induction false} WalkIsFullButLast<T(!new)>(tables: seq<Table<T>>, wanted: Row<T> -> bool, cursor: Option<Id>,
        limit: nat, descending: bool)
    requires AllKeyed(tables) && limit >= 1
    requires Finished(Walk(tables, wanted, cursor, limit, descending), limit)
    ensures FullButLast(Walk(tables, wanted, cursor, limit, descending), limit)
  {
    var page := KeysetPaginate(tables[0], wanted, cursor, limit, descending);
    WalkSplits(tables, wanted, cursor, limit, descending);
    if page.hasMore {
      var later := Later(tables, wanted, cursor, limit, descending);
      assert later != [] && later[|later| - 1] == ([page.rows] + later)[|later|];
      WalkIsFullButLast(tables[1..], wanted, Some(AnchorOf(page.rows).id), limit, descending);
      assert ([page.rows] + later)[1..] == later;
    }
  }

  // ----- a deleted anchor

  /** When the row of `before_id` is gone the page starts over; it still only continues
      after that row exactly when no wanted row lies at or before it. */
  lemma StaleAnchorStartsOver<T(!new)>(scope: Table<T>, wanted: Row<T> -> bool, gone: Anchor, limit: nat,
        descending: bool)
    requires Keyed(scope) && limit >= 1 && forall r | r in scope :: r.id != gone.id
    ensures KeysetPaginate(scope, wanted, Some(gone.id), limit, descending)
              == KeysetPaginate(scope, wanted, None, limit, descending)
    ensures (forall r | r in KeysetPaginate(scope, wanted, Some(gone.id), limit, descending).rows ::
              AfterAnchor(gone, r, descending))
       <==> (forall r | r in Matching(scope, wanted) :: AfterAnchor(gone, r, descending))
  {
    var all := Sorted(Matching(scope, wanted), descending);
    assert Beyond(Matching(scope, wanted), None, descending) == Matching(scope, wanted);
    var page := Take(all, limit);
    assert forall r | r in page :: r in all;
    if all != [] && AfterAnchor(gone, page[0], descending) {
      forall r | r in all
        ensures AfterAnchor(gone, r, descending)
      {
        var k :| 0 <= k < |all| && all[k] == r;
        assert k > 0 ==> Before(all[0], all[k], descending);
      }
    }
  }
}
