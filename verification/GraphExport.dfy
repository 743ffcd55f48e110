/** The exporter's walk over the whole Dataset, with its guards against broken pagination. */
module GraphExport {
  import opened Wrappers
  import opened Order
  import opened GraphPaging

  datatype Outcome = Exported(nodes: seq<string>, edges: seq<Row>) | InvalidPagination | Incomplete

  function CeilingDiv(a: nat, b: nat): nat
    requires b > 0
  {
    (a + b - 1) / b
  }

  /** Addresses of the rows, each when it first appears. */
  predicate Covers(nodes: seq<string>, rows: seq<Row>) {
    && (forall i, j :: 0 <= i < j < |nodes| ==> nodes[i] != nodes[j])
    && (forall r :: r in rows ==> r.from in nodes && r.to in nodes)
    && (forall n :: n in nodes ==> exists r :: r in rows && (n == r.from || n == r.to))
  }

  function IdSet(rows: seq<Row>): set<string> {
    set r | r in rows :: EdgeId(r)
  }

  predicate IdsDistinct(rows: seq<Row>) {
    forall i, j :: 0 <= i < j < |rows| ==> EdgeId(rows[i]) != EdgeId(rows[j])
  }

  lemma LastIdFresh(rows: seq<Row>)
    requires IdsDistinct(rows) && rows != []
    ensures EdgeId(rows[|rows| - 1]) !in IdSet(rows[..|rows| - 1]) && IdsDistinct(rows[..|rows| - 1])
  {
    var last := rows[|rows| - 1];
    forall r | r in rows[..|rows| - 1] ensures EdgeId(r) != EdgeId(last) {
    }
  }

  /** Distinct ids are as many as the rows: the count the exporter checks. */
  lemma {:induction false} DistinctIdCount(rows: seq<Row>)
    requires IdsDistinct(rows)
    ensures |IdSet(rows)| == |rows|
  {
    if rows != [] {
      var n := |rows| - 1;
      LastIdFresh(rows);
      DistinctIdCount(rows[..n]);
      assert rows == rows[..n] + [rows[n]];
      assert IdSet(rows) == IdSet(rows[..n]) + {EdgeId(rows[n])};
    }
  }

  lemma DistinctIds(listing: seq<Row>, dataset: set<Row>)
    requires UniqueEdgeIds(dataset) && Ascending(listing) && forall r :: r in listing ==> r in dataset
    ensures IdsDistinct(listing)
  {
    forall i, j | 0 <= i < j < |listing| ensures EdgeId(listing[i]) != EdgeId(listing[j]) {
      assert listing[i] in listing && listing[j] in listing && RowBefore(listing[i], listing[j]);
      RowBeforeIsStrictWeak();
    }
  }

  /** The edges kept from the rows seen: the first row of each id. */
  predicate Kept(edges: seq<Row>, ids: set<string>, rows: seq<Row>) {
    ids == IdSet(rows) && |edges| == |ids| && (IdsDistinct(rows) ==> edges == rows)
  }

  lemma KeepNext(edges: seq<Row>, ids: set<string>, rows: seq<Row>, r: Row)
    requires Kept(edges, ids, rows)
    ensures EdgeId(r) in ids ==> Kept(edges, ids, rows + [r])
    ensures EdgeId(r) !in ids ==> Kept(edges + [r], ids + {EdgeId(r)}, rows + [r])
  {
    var all := rows + [r];
    assert all[..|rows|] == rows;
    assert IdSet(all) == ids + {EdgeId(r)};
    assert IdsDistinct(all) ==> IdsDistinct(rows);
    if EdgeId(r) in ids {
      var i :| 0 <= i < |rows| && EdgeId(rows[i]) == EdgeId(r);
      assert EdgeId(all[i]) == EdgeId(all[|rows|]);
    }
  }

  lemma CoverNext(nodes: seq<string>, rows: seq<Row>, r: Row)
    requires Covers(nodes, rows)
    ensures var one := if r.from in nodes then nodes else nodes + [r.from];
            var two := if r.to in one then one else one + [r.to];
            Covers(two, rows + [r])
  {
    assert forall x :: x in rows + [r] <==> x in rows || x == r;
  }

  method MergeRow(r: Row, nodes: seq<string>, edges: seq<Row>, ids: set<string>, ghost before: seq<Row>)
    returns (nodes': seq<string>, edges': seq<Row>, ids': set<string>)
    requires Covers(nodes, before) && Kept(edges, ids, before)
    ensures Covers(nodes', before + [r]) && Kept(edges', ids', before + [r])
  {
    CoverNext(nodes, before, r);
    KeepNext(edges, ids, before, r);
    hide Covers, Kept, EdgeId;
    nodes', edges', ids' := nodes, edges, ids;
    if r.from !in nodes' { nodes' := nodes' + [r.from]; }
    if r.to !in nodes' { nodes' := nodes' + [r.to]; }
    if EdgeId(r) !in ids' {
      edges', ids' := edges' + [r], ids' + {EdgeId(r)};
    }
  }

  /** One page's nodes and edges, merged into what is held. */
  method MergePage(rows: seq<Row>, nodes: seq<string>, edges: seq<Row>, ids: set<string>, ghost before: seq<Row>)
    returns (nodes': seq<string>, edges': seq<Row>, ids': set<string>)
    requires Covers(nodes, before) && Kept(edges, ids, before)
    ensures Covers(nodes', before + rows) && Kept(edges', ids', before + rows)
  {
    nodes', edges', ids' := nodes, edges, ids;
    hide Covers, Kept;
    ghost var seen := before;
    for i := 0 to |rows|
      invariant seen == before + rows[..i]
      invariant Covers(nodes', seen) && Kept(edges', ids', seen)
    {
      nodes', edges', ids' := MergeRow(rows[i], nodes', edges', ids', seen);
      ExtendByOne(before, rows, i);
      seen := seen + [rows[i]];
    }
    assert rows[..|rows|] == rows;
  }

  lemma ExtendByOne(before: seq<Row>, rows: seq<Row>, i: nat)
    requires i < |rows|
    ensures before + rows[..i + 1] == (before + rows[..i]) + [rows[i]]
  {
  }

  /** Cursors requested so far name rows before position k. */
  predicate RequestedBefore(requested: set<Cursor>, listing: seq<Row>, k: int) {
    forall c :: c in requested ==> exists i :: 0 <= i < |listing| && i < k && c == CursorOf(listing[i])
  }

  lemma PageCap(k: nat, pages: nat, pageSize: nat, limit: nat)
    requires pageSize >= 1 && WholePages(k, pages, pageSize) && k <= limit
    ensures pages + 1 <= CeilingDiv(limit, pageSize) + 2
  {
    var c := CeilingDiv(limit, pageSize);
    assert limit + pageSize - 1 == c * pageSize + (limit + pageSize - 1) % pageSize;
    Monotone(c + 2, pages, pageSize);
    assert (c + 2) * pageSize == c * pageSize + 2 * pageSize;
  }

  lemma Monotone(a: nat, b: nat, p: nat)
    ensures a <= b ==> a * p <= b * p
  {
  }

  /** The cursor that asks for what follows the first k rows. */
  function CursorAt(listing: seq<Row>, k: nat): Option<Cursor>
    requires k <= |listing|
  {
    if k == 0 then None else Some(CursorOf(listing[k - 1]))
  }

  function Taken(listing: seq<Row>, k: nat): seq<Row>
    requires k <= |listing|
  {
    listing[..k]
  }

  /** A later row's cursor is new. */
  lemma FreshCursor(requested: set<Cursor>, listing: seq<Row>, k: int, at: nat)
    requires Ascending(listing) && RequestedBefore(requested, listing, k) && k < at <= |listing|
    ensures CursorAt(listing, at) == None || CursorAt(listing, at).value !in requested
    ensures RequestedBefore(requested, listing, at - 1) && (at > 0 ==> CursorAt(listing, at).Some?)
  {
    if at > 0 && CursorOf(listing[at - 1]) in requested {
      var i :| 0 <= i < |listing| && i < k && CursorOf(listing[at - 1]) == CursorOf(listing[i]);
      assert RowBefore(listing[i], listing[at - 1]);
      BeforeTotal(listing[at - 1].hash, listing[at - 1].hash);
      BeforeTotal(listing[at - 1].event, listing[at - 1].event);
    }
  }

  lemma RequestNext(requested: set<Cursor>, listing: seq<Row>, k: nat)
    requires Ascending(listing) && RequestedBefore(requested, listing, k - 1) && k <= |listing|
    ensures CursorAt(listing, k).None? ==> RequestedBefore(requested, listing, k)
    ensures CursorAt(listing, k).Some? ==> CursorAt(listing, k).value !in requested && RequestedBefore(requested + {CursorAt(listing, k).value}, listing, k)
  {
    FreshCursor(requested, listing, k - 1, k);
  }

  /** k rows are that many whole pages. */
  predicate WholePages(k: nat, pages: nat, pageSize: nat) {
    k == pages * pageSize
  }

  lemma OneMorePage(k: nat, pages: nat, pageSize: nat)
    requires WholePages(k, pages, pageSize)
    ensures WholePages(k + pageSize, pages + 1, pageSize)
  {
  }

  /** The page after the first k rows is their next stretch. */
  method FetchPage(dataset: set<Row>, cursor: Option<Cursor>, pageSize: nat, ghost listing: seq<Row>, ghost k: nat) returns (page: Page)
    requires UniqueEvents(dataset) && pageSize >= 1 && Listing(listing, dataset, PageFilter(None, None))
    requires k <= |listing| && cursor == CursorAt(listing, k)
    ensures page.hasMore <==> |listing| - k > pageSize
    ensures page.hasMore ==> Taken(listing, k) + page.rows == Taken(listing, k + pageSize) && page.next == CursorAt(listing, k + pageSize)
    ensures !page.hasMore ==> Taken(listing, k) + page.rows == listing
  {
    if k > 0 { TailAfterCursor(listing, dataset, None, None, k); } else { assert listing[0..] == listing; }
    page := LoadByCursor(dataset, None, cursor, pageSize, listing[k..]);
    NextStretch(listing, k, pageSize);
  }

  /** loadCompleteDatasetGraph on an unchanged Dataset never trips its page cap or its repeated-cursor checks. It
      succeeds exactly when the number of distinct edge ids is what the result promised, and then, ids being
      distinct, returns every transfer once, in order; so with unique ids and true counts it always does. */
  method LoadCompleteDatasetGraph(dataset: set<Row>, pageSize: nat, transferLimit: nat, transferCount: nat, collectedTransfers: nat,
                                  ghost listing: seq<Row>) returns (outcome: Outcome)
    requires UniqueEvents(dataset) && pageSize >= 1 && Listing(listing, dataset, PageFilter(None, None)) && |listing| <= transferLimit
    ensures outcome != InvalidPagination
    ensures outcome.Exported? <==> |IdSet(listing)| == transferCount == collectedTransfers
    ensures outcome.Exported? ==> Covers(outcome.nodes, listing) && (IdsDistinct(listing) ==> outcome.edges == listing)
    ensures UniqueEdgeIds(dataset) && transferCount == collectedTransfers == |dataset| ==> outcome.Exported? && outcome.edges == listing
  {
    hide *;
    if UniqueEdgeIds(dataset) { UniqueIdsCount(listing, dataset); }
    var maximumPages := CeilingDiv(transferLimit, pageSize) + 2;
    var nodes: seq<string>, edges: seq<Row>, ids: set<string>, requested: set<Cursor> := [], [], {}, {};
    var pageCount: nat, cursor: Option<Cursor> := 0, None;
    ghost var k: nat, seen: seq<Row> := 0, [];
    WalkStart(listing, dataset, pageSize);
    while true
      invariant k <= |listing| && WholePages(k, pageCount, pageSize) && cursor == CursorAt(listing, k) && seen == Taken(listing, k)
      invariant RequestedBefore(requested, listing, k - 1)
      invariant Covers(nodes, seen) && Kept(edges, ids, seen)
      decreases |listing| - k
    {
      assert pageCount + 1 <= maximumPages by { PageCap(k, pageCount, pageSize, transferLimit); }
      RequestNext(requested, listing, k);
      pageCount := pageCount + 1;
      if pageCount > maximumPages {
        return InvalidPagination;
      }
      if cursor.Some? {
        if cursor.value in requested {
          return InvalidPagination;
        }
        requested := requested + {cursor.value};
      }
      var page := FetchPage(dataset, cursor, pageSize, listing, k);
      nodes, edges, ids := MergePage(page.rows, nodes, edges, ids, seen);
      seen := seen + page.rows;
      if !page.hasMore {
        break;
      }
      FreshCursor(requested, listing, k, k + pageSize);
      if page.next.None? || page.next.value in requested {
        return InvalidPagination;
      }
      cursor := page.next;
      OneMorePage(k, pageCount - 1, pageSize);
      k := k + pageSize;
    }
    KeptCount(edges, ids, listing);
    if |ids| != transferCount || |ids| != collectedTransfers {
      return Incomplete;
    }
    outcome := Exported(nodes, edges);
  }

  /** A whole listing is as long as the Dataset is large. */
  lemma ListingCount(listing: seq<Row>, dataset: set<Row>)
    requires UniqueEvents(dataset) && Listing(listing, dataset, PageFilter(None, None))
    ensures |listing| == |dataset|
  {
    forall i, j | 0 <= i < j < |listing| ensures listing[i] != listing[j] {
      assert listing[i] in listing && RowBefore(listing[i], listing[j]);
      RowsOrdered(dataset, listing[i], listing[j]);
    }
    ElementCount(listing);
    assert (set x | x in listing) == dataset;
  }

  lemma UniqueIdsCount(listing: seq<Row>, dataset: set<Row>)
    requires UniqueEvents(dataset) && UniqueEdgeIds(dataset) && Listing(listing, dataset, PageFilter(None, None))
    ensures IdsDistinct(listing) && |IdSet(listing)| == |listing| == |dataset|
  {
    ListingCount(listing, dataset);
    DistinctIds(listing, dataset);
    DistinctIdCount(listing);
  }

  lemma WalkStart(listing: seq<Row>, dataset: set<Row>, pageSize: nat)
    requires Listing(listing, dataset, PageFilter(None, None))
    ensures Ascending(listing) && Covers([], []) && Kept([], {}, [])
    ensures RequestedBefore({}, listing, -1) && WholePages(0, 0, pageSize) && CursorAt(listing, 0) == None && Taken(listing, 0) == []
  {
  }

  lemma KeptCount(edges: seq<Row>, ids: set<string>, rows: seq<Row>)
    requires Kept(edges, ids, rows)
    ensures ids == IdSet(rows) && (IdsDistinct(rows) ==> edges == rows)
  {
  }
}
