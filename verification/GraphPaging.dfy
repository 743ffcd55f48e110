/** The graph endpoint over a stored Dataset: keyset pages, position ranges, and ranked counterparties. */
module GraphPaging {
  import opened Wrappers
  import opened Order

  /** A stored transfer. */
  datatype Row = Row(timestamp: int, hash: string, event: string, from: string, to: string)

  function EdgeId(r: Row): string {
    r.hash + ":" + r.event
  }

  /** The unique index of a Dataset. */
  predicate UniqueEvents(dataset: set<Row>) {
    forall a, b :: a in dataset && b in dataset && a.hash == b.hash && a.event == b.event ==> a == b
  }

  predicate UniqueEdgeIds(dataset: set<Row>) {
    forall a, b :: a in dataset && b in dataset && EdgeId(a) == EdgeId(b) ==> a == b
  }

  /** Transaction hashes hold no colon, so two rows of a Dataset never share an edge id. */
  lemma EdgeIdsAreUnique(dataset: set<Row>)
    requires UniqueEvents(dataset) && forall r :: r in dataset ==> ':' !in r.hash
    ensures UniqueEdgeIds(dataset)
  {
    forall a, b | a in dataset && b in dataset && EdgeId(a) == EdgeId(b) ensures a == b {
      SplitAt(':', a.hash, a.event, b.hash, b.event);
    }
  }

  /** ORDER BY timestamp, transaction_hash, event_identity */
  predicate RowBefore(a: Row, b: Row) {
    a.timestamp < b.timestamp || (a.timestamp == b.timestamp &&
      (Before(a.hash, b.hash) || (a.hash == b.hash && Before(a.event, b.event))))
  }

  lemma RowBeforeIsStrictWeak()
    ensures StrictWeak(RowBefore)
  {
    BeforeIsStrictWeak();
    forall x, y, z | !RowBefore(x, y) && !RowBefore(y, z) ensures !RowBefore(x, z) {
      BeforeTotal(x.hash, y.hash);
      BeforeTotal(y.hash, z.hash);
    }
  }

  lemma RowsOrdered(dataset: set<Row>, a: Row, b: Row)
    requires UniqueEvents(dataset) && a in dataset && b in dataset
    ensures a == b || RowBefore(a, b) || RowBefore(b, a)
    ensures !(RowBefore(a, b) && RowBefore(b, a)) && !RowBefore(a, a)
  {
    BeforeTotal(a.hash, b.hash);
    BeforeTotal(a.event, b.event);
    BeforeTotal(a.hash, a.hash);
    BeforeTotal(a.event, a.event);
  }

  predicate Ascending(s: seq<Row>) {
    forall i, j :: 0 <= i < j < |s| ==> RowBefore(s[i], s[j])
  }

  /** The result of a query: exactly the rows that match, in order. */
  ghost predicate Listing(s: seq<Row>, dataset: set<Row>, p: Row -> bool) {
    Ascending(s) && forall r :: r in s <==> r in dataset && p(r)
  }

  /** SELECT ... WHERE p ORDER BY ... */
  method Query(dataset: set<Row>, p: Row -> bool) returns (s: seq<Row>)
    requires UniqueEvents(dataset)
    ensures Listing(s, dataset, p)
  {
    RowBeforeIsStrictWeak();
    s := Arrange(RowBefore, set r | r in dataset && p(r));
    forall i, j | 0 <= i < j < |s| ensures RowBefore(s[i], s[j]) {
      assert s[i] in s && s[j] in s;
      RowsOrdered(dataset, s[i], s[j]);
    }
  }

  /** A cursor names the last row of a page. */
  datatype Cursor = Cursor(timestamp: int, hash: string, event: string)

  function CursorOf(r: Row): Cursor {
    Cursor(r.timestamp, r.hash, r.event)
  }

  /** The keyset condition. */
  predicate AfterCursor(c: Option<Cursor>, r: Row) {
    c.None? || c.value.timestamp < r.timestamp || (c.value.timestamp == r.timestamp && Before(c.value.hash, r.hash)) ||
    (c.value.timestamp == r.timestamp && c.value.hash == r.hash && Before(c.value.event, r.event))
  }

  predicate Touches(anchor: Option<string>, r: Row) {
    anchor.None? || r.from == anchor.value || r.to == anchor.value
  }

  function PageFilter(anchor: Option<string>, c: Option<Cursor>): Row -> bool {
    (r: Row) => Touches(anchor, r) && AfterCursor(c, r)
  }

  datatype Page = Page(rows: seq<Row>, next: Option<Cursor>, hasMore: bool)

  /** LoadGraphPage by cursor: it asks for one row too many to learn whether there are more. */
  method LoadByCursor(dataset: set<Row>, anchor: Option<string>, cursor: Option<Cursor>, pageSize: nat, ghost listing: seq<Row>) returns (page: Page)
    requires UniqueEvents(dataset) && pageSize >= 1 && Listing(listing, dataset, PageFilter(anchor, cursor))
    ensures page == PageOf(listing, pageSize)
  {
    var transfers := Query(dataset, PageFilter(anchor, cursor));
    ListingUnique(transfers, listing, dataset, PageFilter(anchor, cursor));
    hide Listing, UniqueEvents, PageFilter;
    var limited := if |transfers| > pageSize + 1 then transfers[..pageSize + 1] else transfers;
    var hasMore := |limited| > pageSize;
    if hasMore {
      limited := limited[..pageSize];
      CutToPage(listing, pageSize);
    }
    page := Page(limited, if hasMore then Some(CursorOf(limited[|limited| - 1])) else None, hasMore);
  }

  lemma CutToPage(listing: seq<Row>, pageSize: nat)
    requires |listing| > pageSize
    ensures |listing| > pageSize + 1 ==> listing[..pageSize + 1][..pageSize] == listing[..pageSize]
  {
  }

  function PageOf(listing: seq<Row>, pageSize: nat): Page
    requires pageSize >= 1
  {
    if |listing| > pageSize then Page(listing[..pageSize], Some(CursorOf(listing[pageSize - 1])), true) else Page(listing, None, false)
  }

  lemma FirstAgree(a: seq<Row>, b: seq<Row>)
    requires Ascending(a) && Ascending(b) && (forall r :: r in a <==> r in b) && a != [] && b != []
    ensures a[0] == b[0]
  {
    assert a[0] in b && b[0] in a;
    var i :| 0 <= i < |b| && b[i] == a[0];
    var j :| 0 <= j < |a| && a[j] == b[0];
    BeforeTotal(a[0].hash, b[0].hash);
    BeforeTotal(a[0].event, b[0].event);
  }

  lemma {:induction false} AscendingUnique(a: seq<Row>, b: seq<Row>)
    requires Ascending(a) && Ascending(b) && forall r :: r in a <==> r in b
    ensures a == b
  {
    if a == [] {
      NoMembers(b);
    } else {
      assert a[0] in b && b != [];
      FirstAgree(a, b);
      hide RowBefore;
      forall r ensures r in a[1..] <==> r in b[1..] {
        AfterFirst(a, r);
        AfterFirst(b, r);
      }
      AscendingUnique(a[1..], b[1..]);
      assert a == [a[0]] + a[1..] && b == [b[0]] + b[1..];
    }
  }

  lemma AfterFirst(s: seq<Row>, r: Row)
    requires s != [] && Ascending(s)
    ensures r in s[1..] <==> r in s && r != s[0]
  {
    BeforeTotal(s[0].hash, s[0].hash);
    BeforeTotal(s[0].event, s[0].event);
  }

  lemma ListingUnique(a: seq<Row>, b: seq<Row>, dataset: set<Row>, p: Row -> bool)
    requires Listing(a, dataset, p) && Listing(b, dataset, p)
    ensures a == b
  {
    AscendingUnique(a, b);
  }

  lemma PositionAfter(listing: seq<Row>, i: nat, k: nat)
    requires Ascending(listing) && i < |listing| && 1 <= k <= |listing|
    ensures RowBefore(listing[k - 1], listing[i]) <==> i >= k
  {
    NeverBoth(listing[i], listing[k - 1]);
    NeverBoth(listing[i], listing[i]);
    hide RowBefore;
  }

  lemma NeverBoth(a: Row, b: Row)
    ensures !(RowBefore(a, b) && RowBefore(b, a))
  {
    BeforeTotal(a.hash, b.hash);
    BeforeTotal(a.event, b.event);
    hide Before;
  }

  lemma AfterLaterCursor(c: Option<Cursor>, row: Row, r: Row)
    requires AfterCursor(c, row) && AfterCursor(Some(CursorOf(row)), r)
    ensures AfterCursor(c, r)
  {
    BeforeIsStrictWeak();
    if c.Some? {
      BeforeTotal(c.value.hash, row.hash);
      BeforeTotal(row.hash, r.hash);
      BeforeTotal(c.value.event, row.event);
      BeforeTotal(row.event, r.event);
    }
  }

  /** Past the k-th row of a listing lies exactly its tail. */
  lemma TailAfterCursor(listing: seq<Row>, dataset: set<Row>, anchor: Option<string>, start: Option<Cursor>, k: nat)
    requires Listing(listing, dataset, PageFilter(anchor, start)) && 1 <= k <= |listing|
    ensures Listing(listing[k..], dataset, PageFilter(anchor, Some(CursorOf(listing[k - 1]))))
  {
    var c := listing[k - 1];
    forall r | AfterCursor(Some(CursorOf(c)), r) ensures AfterCursor(start, r) {
      assert c in listing;
      AfterLaterCursor(start, c, r);
    }
    forall i | 0 <= i < |listing| ensures RowBefore(c, listing[i]) <==> i >= k { PositionAfter(listing, i, k); }
    forall r ensures r in listing[k..] <==> r in listing && RowBefore(c, r) {
      if r in listing {
        var i :| 0 <= i < |listing| && listing[i] == r;
        assert i >= k ==> listing[k..][i - k] == r;
      }
    }
  }

  /** A listing reads by time, then by transaction, then by event: what stands earlier was not later. */
  lemma ListingReadsByTime(listing: seq<Row>, i: nat, j: nat)
    requires Ascending(listing) && i < j < |listing|
    ensures var a, b := listing[i], listing[j];
      && a.timestamp <= b.timestamp && (a.timestamp == b.timestamp ==> !Before(b.hash, a.hash))
      && ((a.timestamp, a.hash) == (b.timestamp, b.hash) ==> Before(a.event, b.event))
  {
    BeforeTotal(listing[i].hash, listing[j].hash);
  }

  /** One more page extends what the walk has by the next stretch of the listing. */
  lemma NextStretch(listing: seq<Row>, k: nat, pageSize: nat)
    requires k <= |listing| && pageSize >= 1
    ensures var page := PageOf(listing[k..], pageSize); var more := |listing| - k > pageSize;
      && listing[..k] + page.rows == listing[..k + |page.rows|] && page.hasMore == more
      && (more ==> |page.rows| == pageSize && page.next == Some(CursorOf(listing[k + pageSize - 1])))
      && (!more ==> k + |page.rows| == |listing|)
  {
  }

  /** Following nextCursor from the first page: each page is the next stretch of the one listing, and the walk ends
      with all of it, so every row is seen exactly once, in order, for any page size. */
  method WalkPages(dataset: set<Row>, anchor: Option<string>, pageSize: nat, ghost listing: seq<Row>) returns (got: seq<Row>, pages: nat)
    requires UniqueEvents(dataset) && pageSize >= 1 && Listing(listing, dataset, PageFilter(anchor, None))
    ensures got == listing
    ensures pages >= 1 && (pages - 1) * pageSize <= |listing| && (listing != [] ==> (pages - 1) * pageSize < |listing|)
  {
    hide Listing, UniqueEvents, PageOf, PageFilter;
    got, pages := [], 0;
    var cursor: Option<Cursor> := None;
    while true
      invariant |got| <= |listing| && got == listing[..|got|] && |got| == pages * pageSize
      invariant if pages == 0 then cursor == None else 0 < |got| < |listing| && cursor == Some(CursorOf(listing[|got| - 1]))
      decreases |listing| - |got|
    {
      ghost var k := |got|;
      if pages > 0 { TailAfterCursor(listing, dataset, anchor, None, k); } else { assert listing[0..] == listing; }
      var page := LoadByCursor(dataset, anchor, cursor, pageSize, listing[k..]);
      NextStretch(listing, k, pageSize);
      got := got + page.rows;
      pages := pages + 1;
      if !page.hasMore {
        assert listing[..|listing|] == listing;
        return;
      }
      cursor := page.next;
    }
  }
}
