/** The transaction graph a user browses: the focus, and whatever expanding its nodes has revealed. */
module GraphBrowser {
  import opened Wrappers
  import opened Order
  import opened GraphPaging
  import opened GraphRanking

  const EXPAND_BATCH: nat := 10

  /** What the server answers: rows, and their addresses with their counterparty counts. */
  datatype ServerPage = ServerPage(nodes: map<string, nat>, edges: seq<Row>)

  datatype Graph = Graph(nodes: map<string, nat>, edges: seq<Row>, expandRanks: map<string, nat>, hasMore: bool)

  /** buildGraphPage and countCounterparties. */
  function BuildGraphPage(dataset: set<Row>, rows: seq<Row>): ServerPage {
    ServerPage(map a | a in (set r | r in rows :: r.from) + (set r | r in rows :: r.to) :: CountOthers(dataset, a), rows)
  }

  function EdgeIds(rows: seq<Row>): set<string> {
    set r | r in rows :: EdgeId(r)
  }

  /** The page's edges that are new and have both ends in the graph. */
  function NewEdges(rows: seq<Row>, ids: set<string>, nodes: set<string>): (novel: seq<Row>)
    ensures forall r :: r in novel <==> r in rows && EdgeId(r) !in ids && r.from in nodes && r.to in nodes
    ensures Repeatless(rows) ==> Repeatless(novel)
  {
    if rows == [] then []
    else
      var rest := NewEdges(rows[1..], ids, nodes);
      assert rows == [rows[0]] + rows[1..];
      if EdgeId(rows[0]) !in ids && rows[0].from in nodes && rows[0].to in nodes then [rows[0]] + rest else rest
  }

  /** mergeGraphPage, for a parent in the graph. */
  function MergeGraphPage(g: Graph, page: ServerPage): Graph {
    var nodes := page.nodes + g.nodes;
    g.(nodes := nodes, edges := g.edges + NewEdges(page.edges, EdgeIds(g.edges), nodes.Keys))
  }

  ghost predicate RowsBetween(edges: seq<Row>, nodes: set<string>, dataset: set<Row>) {
    forall r :: r in edges ==> r in dataset && r.from in nodes && r.to in nodes
  }

  ghost predicate Repeatless(edges: seq<Row>) {
    forall i, j :: 0 <= i < j < |edges| ==> edges[i] != edges[j]
  }

  ghost predicate TrueCounts(nodes: map<string, nat>, dataset: set<Row>) {
    forall a :: a in nodes ==> nodes[a] == |Counterparties(dataset, a)|
  }

  /** The graph shows rows of the Dataset, each once, between nodes it has, with their true counterparty counts. */
  ghost predicate Truthful(g: Graph, dataset: set<Row>) {
    && RowsBetween(g.edges, g.nodes.Keys, dataset) && Repeatless(g.edges)
    && TrueCounts(g.nodes, dataset) && g.expandRanks.Keys <= g.nodes.Keys
  }

  /** The address sends or receives a row. */
  ghost predicate EndOf(rows: seq<Row>, a: string) {
    exists r :: r in rows && (r.from == a || r.to == a)
  }

  /** The nodes are the focus and the ends of the edges, and nothing else. */
  ghost predicate NodesShown(nodes: set<string>, edges: seq<Row>, focus: string) {
    forall a :: a in nodes <==> a == focus || EndOf(edges, a)
  }

  function RankShown(g: Graph, a: string): nat {
    if a in g.expandRanks then g.expandRanks[a] else 0
  }

  /** Every row of a whose counterparty ranks below the given rank is shown. */
  ghost predicate ShownBelow(g: Graph, dataset: set<Row>, a: string, rank: nat) {
    forall r :: r in dataset && Touches(Some(a), r) && RankOf(dataset, a, Counterparty(a, r)) < rank ==> r in g.edges
  }

  /** The promise of expandRanks. */
  ghost predicate RanksShown(g: Graph, dataset: set<Row>) {
    forall a :: a in g.expandRanks ==> ShownBelow(g, dataset, a, g.expandRanks[a])
  }

  ghost predicate AllShown(g: Graph, dataset: set<Row>, a: string) {
    forall r :: r in dataset && Touches(Some(a), r) ==> r in g.edges
  }

  /** Paging the focus by cursor has shown its rows up to the cursor; without more, all of them. */
  ghost predicate FocusShown(g: Graph, dataset: set<Row>, focus: string, cursor: Option<Cursor>) {
    && (cursor.Some? ==> forall r :: r in dataset && Touches(Some(focus), r) && !AfterCursor(cursor, r) ==> r in g.edges)
    && (!g.hasMore ==> AllShown(g, dataset, focus))
  }

  lemma PageIsTrue(dataset: set<Row>, rows: seq<Row>)
    requires forall r :: r in rows ==> r in dataset
    ensures var page := BuildGraphPage(dataset, rows);
      TrueCounts(page.nodes, dataset) && RowsBetween(rows, page.nodes.Keys, dataset) && forall a :: a in page.nodes <==> EndOf(rows, a)
  {
    var page := BuildGraphPage(dataset, rows);
    assert forall a :: a in page.nodes <==> EndOf(rows, a);
    forall a | a in page.nodes ensures page.nodes[a] == |Counterparties(dataset, a)| { CountsAgree(dataset, a); }
    hide Counterparties, CountOthers;
    forall r | r in rows ensures r.from in page.nodes && r.to in page.nodes { }
  }

  lemma DistinctRows(dataset: set<Row>, rows: seq<Row>)
    requires UniqueEvents(dataset) && Ascending(rows) && forall r :: r in rows ==> r in dataset
    ensures Repeatless(rows)
  {
    forall i, j | 0 <= i < j < |rows| ensures rows[i] != rows[j] {
      assert rows[i] in rows && RowBefore(rows[i], rows[j]);
      RowsOrdered(dataset, rows[i], rows[j]);
    }
  }

  /** With unique ids, an id is held exactly when its row is. */
  lemma HeldById(dataset: set<Row>, edges: seq<Row>, r: Row)
    requires UniqueEdgeIds(dataset) && r in dataset && forall e :: e in edges ==> e in dataset
    ensures EdgeId(r) in EdgeIds(edges) <==> r in edges
  {
  }

  lemma NovelEdges(dataset: set<Row>, edges: seq<Row>, rows: seq<Row>, nodes: set<string>)
    requires UniqueEdgeIds(dataset) && RowsBetween(rows, nodes, dataset) && RowsBetween(edges, nodes, dataset)
    requires Repeatless(edges) && Repeatless(rows)
    ensures var all := edges + NewEdges(rows, EdgeIds(edges), nodes);
      Repeatless(all) && RowsBetween(all, nodes, dataset) && forall r :: r in all <==> r in edges || r in rows
  {
    forall r | r in rows ensures EdgeId(r) in EdgeIds(edges) <==> r in edges { HeldById(dataset, edges, r); }
    hide EdgeId, EdgeIds, UniqueEdgeIds;
    MergedDistinct(edges, NewEdges(rows, EdgeIds(edges), nodes));
  }

  /** Merging keeps everything that was shown and adds exactly the page's rows, and their ends as nodes. */
  lemma MergeKeeps(g: Graph, dataset: set<Row>, rows: seq<Row>)
    requires Truthful(g, dataset) && UniqueEdgeIds(dataset) && UniqueEvents(dataset) && Ascending(rows) && forall r :: r in rows ==> r in dataset
    ensures var m := MergeGraphPage(g, BuildGraphPage(dataset, rows));
      && Truthful(m, dataset) && g.edges <= m.edges && g.nodes.Keys <= m.nodes.Keys
      && (forall r :: r in m.edges <==> r in g.edges || r in rows)
      && (forall a :: a in m.nodes <==> a in g.nodes || EndOf(rows, a))
      && m.expandRanks == g.expandRanks && m.hasMore == g.hasMore
  {
    var page := BuildGraphPage(dataset, rows);
    var nodes := page.nodes + g.nodes;
    DistinctRows(dataset, rows);
    PageIsTrue(dataset, rows);
    assert page.edges == rows && TrueCounts(nodes, dataset) && RowsBetween(rows, nodes.Keys, dataset) && RowsBetween(g.edges, nodes.Keys, dataset) by {
      hide Counterparties, BuildGraphPage;
    }
    NovelEdges(dataset, g.edges, rows, nodes.Keys);
    hide Counterparties, BuildGraphPage, RowsBetween, Repeatless, TrueCounts, UniqueEvents, UniqueEdgeIds, Ascending, EdgeIds, NewEdges, EndOf;
  }

  lemma NodesStayShown(nodes: set<string>, edges: seq<Row>, rows: seq<Row>, nodes': set<string>, edges': seq<Row>, focus: string)
    requires NodesShown(nodes, edges, focus) && (forall r :: r in edges' <==> r in edges || r in rows)
    requires forall a :: a in nodes' <==> a in nodes || EndOf(rows, a)
    ensures NodesShown(nodes', edges', focus)
  {
    forall a ensures EndOf(edges', a) <==> EndOf(edges, a) || EndOf(rows, a) { }
    hide EndOf;
  }

  lemma MergedDistinct(shown: seq<Row>, novel: seq<Row>)
    requires Repeatless(shown) && Repeatless(novel) && forall r :: r in novel ==> r !in shown
    ensures Repeatless(shown + novel)
  {
    forall i, j | 0 <= i < |shown| && 0 <= j < |novel| ensures shown[i] != novel[j] {
      assert shown[i] in shown && novel[j] in novel;
    }
  }

  /** What every graph the browser holds satisfies. */
  ghost predicate Sound(g: Graph, dataset: set<Row>, focus: string, cursor: Option<Cursor>) {
    Truthful(g, dataset) && RanksShown(g, dataset) && FocusShown(g, dataset, focus, cursor)
    && focus in g.nodes && NodesShown(g.nodes.Keys, g.edges, focus)
  }

  /** More edges never hide a row. */
  lemma ShownStays(g: Graph, m: Graph, dataset: set<Row>, focus: string, cursor: Option<Cursor>)
    requires g.expandRanks == m.expandRanks && g.hasMore == m.hasMore && forall r :: r in g.edges ==> r in m.edges
    ensures RanksShown(g, dataset) ==> RanksShown(m, dataset)
    ensures FocusShown(g, dataset, focus, cursor) ==> FocusShown(m, dataset, focus, cursor)
  {
    forall a | a in g.expandRanks && ShownBelow(g, dataset, a, g.expandRanks[a]) ensures ShownBelow(m, dataset, a, g.expandRanks[a]) {
    }
  }

  /** After the batch from the rank shown, the next rank shown is ten further. */
  lemma BatchAdvances(g: Graph, m: Graph, dataset: set<Row>, a: string, rows: seq<Row>)
    requires ShownBelow(g, dataset, a, RankShown(g, a)) && forall r :: r in m.edges <==> r in g.edges || r in rows
    requires Listing(rows, dataset, (r: Row) => InBatch(dataset, a, EXPAND_BATCH, RankShown(g, a), r))
    ensures ShownBelow(m, dataset, a, RankShown(g, a) + EXPAND_BATCH)
  {
    hide RankOf;
  }

  /** A rank at or past the number of counterparties leaves nothing of the node unseen. */
  lemma FullRankShowsAll(g: Graph, dataset: set<Row>, a: string, rank: nat)
    requires ShownBelow(g, dataset, a, rank) && rank >= |Counterparties(dataset, a)|
    ensures AllShown(g, dataset, a)
  {
    forall r | r in dataset && Touches(Some(a), r) ensures r in g.edges { RankBelowCount(dataset, a, r); }
  }

  /** createGraph on the first batch of the focus. */
  function CreateGraph(dataset: set<Row>, focus: string, transferCount: nat, rows: seq<Row>): Graph {
    var page := BuildGraphPage(dataset, rows);
    var count := if focus in page.nodes then page.nodes[focus] else 0;
    Graph(page.nodes[focus := count], rows, map[focus := EXPAND_BATCH], transferCount > |rows|)
  }

  lemma Whole<T>(part: seq<T>, all: set<T>)
    requires (forall x :: x in part ==> x in all) && |part| >= |all| && forall i, j :: 0 <= i < j < |part| ==> part[i] != part[j]
    ensures forall x :: x in all ==> x in part
  {
    ElementCount(part);
    var s := set x | x in part;
    forall x | x in all ensures x in part {
      if x !in part { Fewer(s, all - {x}); }
    }
  }

  /** Some counterparty ranks first. */
  lemma {:induction false} FirstRank(dataset: set<Row>, a: string, c: string) returns (r: Row)
    requires c in Counterparties(dataset, a)
    ensures r in dataset && Touches(Some(a), r) && RankOf(dataset, a, Counterparty(a, r)) == 0
    decreases RankOf(dataset, a, c)
  {
    var above := set d | d in Counterparties(dataset, a) && RankBefore(dataset, a, d, c);
    if above == {} {
      r :| r in RowsOf(dataset, a) && Counterparty(a, r) == c;
    } else {
      var d :| d in above;
      var higher := set e | e in Counterparties(dataset, a) && RankBefore(dataset, a, e, d);
      RankingIsStrictWeak(dataset, a);
      RanksOrdered(dataset, a, d, d);
      forall e | e in higher ensures e in above - {d} {
        assert Ranking(dataset, a)(e, d) && Ranking(dataset, a)(d, c);
        assert Ranking(dataset, a)(e, c);
      }
      Fewer(higher, above - {d});
      r := FirstRank(dataset, a, d);
    }
  }

  /** A focus without rows in its first batch has no counterparty at all. */
  lemma FocusCount(dataset: set<Row>, focus: string, rows: seq<Row>)
    requires Listing(rows, dataset, (r: Row) => InBatch(dataset, focus, EXPAND_BATCH, 0, r))
    ensures focus in BuildGraphPage(dataset, rows).nodes || Counterparties(dataset, focus) == {}
  {
    if Counterparties(dataset, focus) != {} {
      var c :| c in Counterparties(dataset, focus);
      var r := FirstRank(dataset, focus, c);
      hide RankOf, Counterparties, Counterparty;
      assert InBatch(dataset, focus, EXPAND_BATCH, 0, r) && r in rows;
    }
  }

  lemma MoreThanShown(dataset: set<Row>, rows: seq<Row>)
    requires UniqueEvents(dataset) && Ascending(rows) && forall r :: r in rows ==> r in dataset
    ensures |dataset| > |rows| <==> exists r :: r in dataset && r !in rows
  {
    DistinctRows(dataset, rows);
    ElementCount(rows);
    var shown := set x | x in rows;
    if r :| r in dataset && r !in rows { Fewer(shown, dataset - {r}); } else { Fewer(dataset, shown); }
  }

  lemma CreatedShows(dataset: set<Row>, focus: string, rows: seq<Row>)
    requires UniqueEvents(dataset) && Listing(rows, dataset, (r: Row) => InBatch(dataset, focus, EXPAND_BATCH, 0, r))
    ensures var g := CreateGraph(dataset, focus, |dataset|, rows);
      RanksShown(g, dataset) && FocusShown(g, dataset, focus, None)
  {
    var g := CreateGraph(dataset, focus, |dataset|, rows);
    DistinctRows(dataset, rows);
    if !g.hasMore { Whole(rows, dataset); }
    hide RankOf, Counterparties, Ascending, UniqueEvents, BuildGraphPage, Counterparty;
    assert ShownBelow(g, dataset, focus, EXPAND_BATCH);
  }

  lemma FocusAdded(dataset: set<Row>, focus: string, nodes: map<string, nat>, rows: seq<Row>)
    requires TrueCounts(nodes, dataset) && RowsBetween(rows, nodes.Keys, dataset)
    requires focus in nodes || Counterparties(dataset, focus) == {}
    ensures var all := nodes[focus := if focus in nodes then nodes[focus] else 0];
      TrueCounts(all, dataset) && RowsBetween(rows, all.Keys, dataset)
  {
    hide Counterparties;
  }

  lemma CreatedNodes(nodes: map<string, nat>, rows: seq<Row>, focus: string, count: nat)
    requires forall a :: a in nodes <==> EndOf(rows, a)
    ensures NodesShown(nodes[focus := count].Keys, rows, focus)
  {
    hide EndOf;
  }

  lemma CreatedGraph(dataset: set<Row>, focus: string, rows: seq<Row>)
    requires UniqueEvents(dataset) && Listing(rows, dataset, (r: Row) => InBatch(dataset, focus, EXPAND_BATCH, 0, r))
    ensures Sound(CreateGraph(dataset, focus, |dataset|, rows), dataset, focus, None)
  {
    CreatedShows(dataset, focus, rows);
    DistinctRows(dataset, rows);
    FocusCount(dataset, focus, rows);
    PageIsTrue(dataset, rows);
    assert BuildGraphPage(dataset, rows).edges == rows;
    hide InBatch, Counterparties, BuildGraphPage, Repeatless, RanksShown, FocusShown, UniqueEvents, Ascending, TrueCounts, RowsBetween, Listing, EndOf, NodesShown;
    var nodes := BuildGraphPage(dataset, rows).nodes;
    CreatedNodes(nodes, rows, focus, if focus in nodes then nodes[focus] else 0);
    FocusAdded(dataset, focus, BuildGraphPage(dataset, rows).nodes, rows);
  }

  /** One more page of the focus by cursor. */
  lemma FocusAdvances(g: Graph, m: Graph, dataset: set<Row>, focus: string, cursor: Option<Cursor>, listing: seq<Row>, pageSize: nat)
    requires FocusShown(g, dataset, focus, cursor) && Listing(listing, dataset, PageFilter(Some(focus), cursor)) && pageSize >= 1
    requires var page := PageOf(listing, pageSize);
      m.hasMore == page.hasMore && forall r :: r in m.edges <==> r in g.edges || r in page.rows
    ensures FocusShown(m, dataset, focus, PageOf(listing, pageSize).next)
  {
    var page := PageOf(listing, pageSize);
    forall r | r in dataset && Touches(Some(focus), r) && (!page.hasMore || !AfterCursor(page.next, r)) ensures r in m.edges {
      if AfterCursor(cursor, r) {
        assert r in listing;
        var i :| 0 <= i < |listing| && listing[i] == r;
        if page.hasMore {
          PositionAfter(listing, i, pageSize);
          assert i < pageSize && page.rows[i] == r;
        }
      }
    }
  }

  lemma PageRows(listing: seq<Row>, pageSize: nat)
    requires Ascending(listing) && pageSize >= 1
    ensures Ascending(PageOf(listing, pageSize).rows) && forall r :: r in PageOf(listing, pageSize).rows ==> r in listing
  {
  }

  lemma MergeStaysSound(g: Graph, dataset: set<Row>, focus: string, cursor: Option<Cursor>, rows: seq<Row>)
    requires UniqueEvents(dataset) && UniqueEdgeIds(dataset) && Sound(g, dataset, focus, cursor)
    requires Ascending(rows) && forall r :: r in rows ==> r in dataset
    ensures var m := MergeGraphPage(g, BuildGraphPage(dataset, rows));
      && Sound(m, dataset, focus, cursor) && m.expandRanks == g.expandRanks && m.hasMore == g.hasMore
      && g.edges <= m.edges && g.nodes.Keys <= m.nodes.Keys && forall r :: r in m.edges <==> r in g.edges || r in rows
  {
    hide MergeGraphPage, BuildGraphPage, Truthful, RanksShown, FocusShown, UniqueEvents, UniqueEdgeIds, Ascending, NodesShown;
    MergeKeeps(g, dataset, rows);
    var merged := MergeGraphPage(g, BuildGraphPage(dataset, rows));
    NodesStayShown(g.nodes.Keys, g.edges, rows, merged.nodes.Keys, merged.edges, focus);
    ShownStays(g, MergeGraphPage(g, BuildGraphPage(dataset, rows)), dataset, focus, cursor);
  }

  /** From g to m, the page of the focus's rows that its remaining listing begins with was added; the cursor now names the
      last of them, if any remain. */
  ghost predicate FocusPaged(g: Graph, m: Graph, listing: seq<Row>, pageSize: nat, next: Option<Cursor>) {
    var count := if |listing| > pageSize then pageSize else |listing|;
    && g.edges <= m.edges && (forall r :: r in m.edges <==> r in g.edges || r in listing[..count])
    && (m.hasMore <==> |listing| > pageSize) && m.expandRanks == g.expandRanks
    && next == if |listing| > pageSize && pageSize > 0 then Some(CursorOf(listing[pageSize - 1])) else None
  }

  lemma MoreOfFocus(g: Graph, dataset: set<Row>, focus: string, cursor: Option<Cursor>, listing: seq<Row>, pageSize: nat)
    requires UniqueEvents(dataset) && UniqueEdgeIds(dataset) && Sound(g, dataset, focus, cursor)
    requires Listing(listing, dataset, PageFilter(Some(focus), cursor)) && pageSize >= 1
    ensures var page := PageOf(listing, pageSize);
      var m := MergeGraphPage(g, BuildGraphPage(dataset, page.rows)).(hasMore := page.hasMore);
      Sound(m, dataset, focus, page.next) && FocusPaged(g, m, listing, pageSize, page.next)
  {
    var page := PageOf(listing, pageSize);
    PageRows(listing, pageSize);
    assert forall r :: r in page.rows ==> r in dataset;
    hide MergeGraphPage, BuildGraphPage, PageOf, NodesShown, EndOf, FocusPaged, FocusShown, ShownBelow, Listing, RowsBetween, Repeatless, TrueCounts, UniqueEvents, UniqueEdgeIds, Ascending, RanksShown;
    MergeStaysSound(g, dataset, focus, cursor, page.rows);
    var merged := MergeGraphPage(g, BuildGraphPage(dataset, page.rows));
    var m := merged.(hasMore := page.hasMore);
    FocusAdvances(g, m, dataset, focus, cursor, listing, pageSize);
    FocusPagedBy(g, m, listing, page, pageSize);
    RanksIgnoreHasMore(merged, m, dataset);
  }

  lemma FocusPagedBy(g: Graph, m: Graph, listing: seq<Row>, page: Page, pageSize: nat)
    requires pageSize >= 1 && page == PageOf(listing, pageSize) && g.edges <= m.edges && (forall r :: r in m.edges <==> r in g.edges || r in page.rows)
    requires m.hasMore == page.hasMore && m.expandRanks == g.expandRanks
    ensures FocusPaged(g, m, listing, pageSize, page.next)
  {
    PageIsPrefix(listing, pageSize);
    hide PageOf;
  }

  lemma PageIsPrefix(listing: seq<Row>, pageSize: nat)
    requires pageSize >= 1
    ensures var page := PageOf(listing, pageSize);
      && page.rows == listing[..if |listing| > pageSize then pageSize else |listing|] && (page.hasMore <==> |listing| > pageSize)
      && page.next == if |listing| > pageSize then Some(CursorOf(listing[pageSize - 1])) else None
  {
  }

  lemma RanksIgnoreHasMore(g: Graph, m: Graph, dataset: set<Row>)
    requires RanksShown(g, dataset) && m == g.(hasMore := m.hasMore)
    ensures RanksShown(m, dataset)
  {
    assert forall a :: a in g.expandRanks ==> ShownBelow(m, dataset, a, g.expandRanks[a]) by {
      forall a | a in g.expandRanks ensures ShownBelow(m, dataset, a, g.expandRanks[a]) {
        assert ShownBelow(g, dataset, a, g.expandRanks[a]);
      }
    }
  }

  /** From g to m, the given number of requests moved the rank shown on by ten each, the last of them starting below
      the number of counterparties, and added exactly the rows ranked in between. */
  ghost predicate Expanded(g: Graph, m: Graph, dataset: set<Row>, a: string, requests: nat) {
    var shown, now := RankShown(g, a), RankShown(m, a);
    && now == shown + 10 * requests && (requests > 0 ==> now - 10 < |Counterparties(dataset, a)|)
    && g.edges <= m.edges && g.nodes.Keys <= m.nodes.Keys
    && (forall r :: r in m.edges <==> r in g.edges || (r in dataset && InBatch(dataset, a, now - shown, shown, r)))
    && m.expandRanks == (if requests == 0 then g.expandRanks else g.expandRanks[a := now])
  }

  lemma NotYetExpanded(g: Graph, dataset: set<Row>, a: string)
    ensures Expanded(g, g, dataset, a, 0)
  {
  }

  lemma OnlyMoreEdges(g: Graph, m: Graph, dataset: set<Row>, a: string, requests: nat)
    requires Expanded(g, m, dataset, a, requests)
    ensures |g.edges| <= |m.edges|
  {
  }

  lemma ExpandedTwice(g: Graph, m: Graph, n: Graph, dataset: set<Row>, a: string, x: nat, y: nat)
    requires Expanded(g, m, dataset, a, x) && Expanded(m, n, dataset, a, y)
    ensures Expanded(g, n, dataset, a, x + y)
  {
    hide RankOf, Counterparties;
  }

  lemma RankingExhausted(g: Graph, dataset: set<Row>, focus: string, cursor: Option<Cursor>, a: string)
    requires Sound(g, dataset, focus, cursor) && RankShown(g, a) >= |Counterparties(dataset, a)|
    ensures AllShown(g, dataset, a)
  {
    assert ShownBelow(g, dataset, a, RankShown(g, a));
    FullRankShowsAll(g, dataset, a, RankShown(g, a));
  }

  lemma CountIsTrue(g: Graph, dataset: set<Row>, focus: string, cursor: Option<Cursor>, a: string)
    requires Sound(g, dataset, focus, cursor) && a in g.nodes
    ensures g.nodes[a] == |Counterparties(dataset, a)|
  {
  }

  lemma OneBatch(g: Graph, n: Graph, dataset: set<Row>, a: string, rows: seq<Row>)
    requires Listing(rows, dataset, (r: Row) => InBatch(dataset, a, EXPAND_BATCH, RankShown(g, a), r)) && RankShown(g, a) < |Counterparties(dataset, a)|
    requires g.edges <= n.edges && g.nodes.Keys <= n.nodes.Keys && (forall r :: r in n.edges <==> r in g.edges || r in rows)
    requires n.expandRanks == g.expandRanks[a := RankShown(g, a) + EXPAND_BATCH]
    ensures Expanded(g, n, dataset, a, 1)
  {
    hide RankOf, Counterparties;
  }

  lemma RankAdvanced(g: Graph, n: Graph, dataset: set<Row>, a: string, rank: nat)
    requires RanksShown(g, dataset) && ShownBelow(n, dataset, a, rank) && n.expandRanks == g.expandRanks[a := rank]
    requires forall r :: r in g.edges ==> r in n.edges
    ensures RanksShown(n, dataset)
  {
    forall b | b in n.expandRanks ensures ShownBelow(n, dataset, b, n.expandRanks[b]) {
      if b != a { assert ShownBelow(g, dataset, b, g.expandRanks[b]); }
    }
  }

  lemma BatchFacts(g: Graph, dataset: set<Row>, focus: string, cursor: Option<Cursor>, a: string, rows: seq<Row>)
    requires Sound(g, dataset, focus, cursor)
    requires Listing(rows, dataset, (r: Row) => InBatch(dataset, a, EXPAND_BATCH, RankShown(g, a), r))
    ensures Ascending(rows) && (forall r :: r in rows ==> r in dataset) && ShownBelow(g, dataset, a, RankShown(g, a))
  {
    hide InBatch;
  }

  lemma RankRaised(m: Graph, dataset: set<Row>, focus: string, cursor: Option<Cursor>, a: string, rank: nat)
    requires Sound(m, dataset, focus, cursor) && a in m.nodes && ShownBelow(m, dataset, a, rank)
    ensures var n := m.(expandRanks := m.expandRanks[a := rank]);
      Sound(n, dataset, focus, cursor) && RankShown(n, a) == rank
  {
    var n := m.(expandRanks := m.expandRanks[a := rank]);
    RankAdvanced(m, n, dataset, a, rank);
    hide RowsBetween, Repeatless, TrueCounts, RanksShown, ShownBelow, NodesShown;
  }

  lemma ExpandOnce(first: Graph, g: Graph, dataset: set<Row>, focus: string, cursor: Option<Cursor>, a: string, rows: seq<Row>, requests: nat)
    requires UniqueEvents(dataset) && UniqueEdgeIds(dataset) && Sound(g, dataset, focus, cursor) && a in g.nodes
    requires Listing(rows, dataset, (r: Row) => InBatch(dataset, a, EXPAND_BATCH, RankShown(g, a), r))
    requires Expanded(first, g, dataset, a, requests) && RankShown(g, a) < |Counterparties(dataset, a)|
    ensures var m := MergeGraphPage(g, BuildGraphPage(dataset, rows));
      var n := m.(expandRanks := m.expandRanks[a := RankShown(g, a) + EXPAND_BATCH]);
      Sound(n, dataset, focus, cursor) && a in n.nodes && RankShown(n, a) == RankShown(g, a) + EXPAND_BATCH && Expanded(first, n, dataset, a, requests + 1)
  {
    hide *;
    var skip := RankShown(g, a);
    var m := MergeGraphPage(g, BuildGraphPage(dataset, rows));
    var n := m.(expandRanks := m.expandRanks[a := skip + EXPAND_BATCH]);
    BatchFacts(g, dataset, focus, cursor, a, rows);
    MergeStaysSound(g, dataset, focus, cursor, rows);
    BatchAdvances(g, m, dataset, a, rows);
    RankRaised(m, dataset, focus, cursor, a, skip + EXPAND_BATCH);
    OneBatch(g, n, dataset, a, rows);
    ExpandedTwice(first, g, n, dataset, a, requests, 1);
  }

  /** What the graph still lacks of the listing it started from: a tail of it, past the cursor. */
  ghost predicate Remaining(first: Graph, g: Graph, dataset: set<Row>, focus: string, cursor: Option<Cursor>, listing: seq<Row>, rest: seq<Row>) {
    && |rest| <= |listing| && rest == listing[|listing| - |rest|..] && Listing(rest, dataset, PageFilter(Some(focus), cursor))
    && forall r :: r in g.edges <==> r in first.edges || r in listing[..|listing| - |rest|]
  }

  lemma FocusUnpaged(g: Graph, dataset: set<Row>, focus: string, cursor: Option<Cursor>, listing: seq<Row>)
    requires Listing(listing, dataset, PageFilter(Some(focus), cursor))
    ensures Remaining(g, g, dataset, focus, cursor, listing, listing)
  {
    hide Listing;
    assert listing[0..] == listing && listing[..0] == [];
  }

  lemma RemainingListing(first: Graph, g: Graph, dataset: set<Row>, focus: string, cursor: Option<Cursor>, listing: seq<Row>, rest: seq<Row>)
    requires Remaining(first, g, dataset, focus, cursor, listing, rest)
    ensures |rest| <= |listing| && Listing(rest, dataset, PageFilter(Some(focus), cursor))
  {
  }

  lemma FocusPageEnds(first: Graph, g: Graph, m: Graph, dataset: set<Row>, focus: string, cursor: Option<Cursor>, listing: seq<Row>, rest: seq<Row>,
                      pageSize: nat, next: Option<Cursor>)
    requires Remaining(first, g, dataset, focus, cursor, listing, rest) && FocusPaged(g, m, rest, pageSize, next) && pageSize >= 1
    ensures m.hasMore <==> |rest| > pageSize
    ensures m.hasMore ==> Remaining(first, m, dataset, focus, next, listing, rest[pageSize..])
    ensures !m.hasMore ==> forall r :: r in m.edges <==> r in first.edges || r in listing
  {
    var k := |listing| - |rest|;
    if m.hasMore {
      TailAfterCursor(rest, dataset, Some(focus), cursor, pageSize);
      assert listing[..k + pageSize] == listing[..k] + rest[..pageSize] && rest[pageSize..] == listing[k + pageSize..];
    } else {
      assert listing == listing[..k] + rest && rest[..|rest|] == rest;
    }
    hide Listing;
  }

  datatype Expansion = Expansion(revealed: nat, hasMore: bool)

  class TransactionGraphBrowser {
    var graph: Option<Graph>
    var address: string
    var focusCursor: Option<Cursor>

    ghost predicate Valid(dataset: set<Row>)
      reads this
    {
      graph.Some? ==> Sound(graph.value, dataset, address, focusCursor)
    }

    constructor ()
      ensures graph == None
    {
      graph, address, focusCursor := None, "", None;
    }

    method Load(dataset: set<Row>, focus: string)
      requires UniqueEvents(dataset)
      modifies this
      ensures Valid(dataset) && graph.Some? && address == focus && focusCursor == None && graph.value.expandRanks == map[focus := 10]
      ensures forall r :: r in graph.value.edges <==> r in dataset && InBatch(dataset, focus, 10, 0, r)
      ensures graph.value.hasMore <==> exists r :: r in dataset && r !in graph.value.edges
    {
      var rows := LoadTop(dataset, focus, EXPAND_BATCH, 0);
      CreatedGraph(dataset, focus, rows);
      MoreThanShown(dataset, rows);
      hide InBatch, Truthful, RanksShown, FocusShown, NodesShown;
      graph, address, focusCursor := Some(CreateGraph(dataset, focus, |dataset|, rows)), focus, None;
    }

    /** loadMore: the next page of the focus's own rows, by cursor; `listing` is what remains of them. */
    method LoadMore(dataset: set<Row>, pageSize: nat, ghost listing: seq<Row>)
      requires UniqueEvents(dataset) && UniqueEdgeIds(dataset) && Valid(dataset) && pageSize >= 1
      requires Listing(listing, dataset, PageFilter(Some(address), focusCursor))
      modifies this
      ensures Valid(dataset) && address == old(address) && graph.Some? == old(graph).Some?
      ensures if old(graph).Some? && old(graph).value.hasMore then FocusPaged(old(graph).value, graph.value, listing, pageSize, focusCursor)
              else graph == old(graph) && focusCursor == old(focusCursor)
      ensures graph.Some? && !graph.value.hasMore ==> AllShown(graph.value, dataset, address)
    {
      hide Truthful, RanksShown, UniqueEvents, UniqueEdgeIds, Listing, PageFilter, PageOf, NodesShown, FocusPaged;
      if graph.None? || !graph.value.hasMore {
        return;
      }
      var g := graph.value;
      var page := LoadByCursor(dataset, Some(address), focusCursor, pageSize, listing);
      var merged := MergeGraphPage(g, BuildGraphPage(dataset, page.rows));
      MoreOfFocus(g, dataset, address, focusCursor, listing, pageSize);
      graph, focusCursor := Some(merged.(hasMore := page.hasMore)), page.next;
    }

    /** A user who keeps loading more of the focus until no more is offered: one request for each page of the rows that
        remained, and at least one; then they are all shown, and no row besides. */
    method RevealFocus(dataset: set<Row>, pageSize: nat, ghost listing: seq<Row>) returns (requests: nat)
      requires UniqueEvents(dataset) && UniqueEdgeIds(dataset) && Valid(dataset) && pageSize >= 1 && graph.Some? && graph.value.hasMore
      requires Listing(listing, dataset, PageFilter(Some(address), focusCursor))
      modifies this
      ensures Valid(dataset) && address == old(address) && graph.Some? && !graph.value.hasMore && AllShown(graph.value, dataset, address)
      ensures forall r :: r in graph.value.edges <==> r in old(graph).value.edges || r in listing
      ensures if listing == [] then requests == 1 else (requests - 1) * pageSize < |listing| <= requests * pageSize
    {
      hide *;
      requests := 0;
      ghost var first, start, rest := graph.value, focusCursor, listing;
      FocusUnpaged(first, dataset, address, focusCursor, listing);
      while true
        invariant Valid(dataset) && address == old(address) && graph.Some? && graph.value.hasMore
        invariant Remaining(first, graph.value, dataset, address, focusCursor, listing, rest)
        invariant rest == [] ==> listing == []
        invariant |listing| - |rest| == requests * pageSize && (requests > 0 ==> rest != [])
        decreases |rest|
      {
        ghost var g, cursor := graph.value, focusCursor;
        RemainingListing(first, g, dataset, address, cursor, listing, rest);
        LoadMore(dataset, pageSize, rest);
        FocusPageEnds(first, g, graph.value, dataset, address, cursor, listing, rest, pageSize, focusCursor);
        requests := requests + 1;
        assert requests * pageSize == (requests - 1) * pageSize + pageSize;
        if !graph.value.hasMore {
          return;
        }
        rest := rest[pageSize..];
      }
    }

    /** expand: batches of counterparties by rank until something new appears or the ranking ends. */
    method Expand(dataset: set<Row>, anchor: string) returns (result: Option<Expansion>, requests: nat)
      requires UniqueEvents(dataset) && UniqueEdgeIds(dataset) && Valid(dataset)
      modifies `graph
      ensures Valid(dataset)
      ensures result.None? <==> old(graph).None? || anchor !in old(graph).value.nodes
      ensures result.None? ==> graph == old(graph) && requests == 0
      ensures result.Some? ==> graph.Some? && Expanded(old(graph).value, graph.value, dataset, anchor, requests)
      ensures result.Some? ==> result.value.revealed == |graph.value.edges| - |old(graph).value.edges|
      ensures result.Some? ==> (result.value.hasMore <==> RankShown(graph.value, anchor) < |Counterparties(dataset, anchor)|)
      ensures result.Some? ==> if result.value.hasMore then result.value.revealed > 0 && requests > 0 else AllShown(graph.value, dataset, anchor)
    {
      hide Counterparties, UniqueEvents, UniqueEdgeIds, Expanded, InBatch, RankShown, AllShown, Sound, Truthful, RanksShown, FocusShown, Listing,
        MergeGraphPage, BuildGraphPage;
      requests := 0;
      if graph.None? || anchor !in graph.value.nodes {
        return None, 0;
      }
      var counterparties := graph.value.nodes[anchor];
      var shownEdges := |graph.value.edges|;
      ghost var first := graph.value;
      CountIsTrue(first, dataset, address, focusCursor, anchor);
      NotYetExpanded(first, dataset, anchor);
      while true
        invariant graph.Some? && Sound(graph.value, dataset, address, focusCursor) && anchor in graph.value.nodes
        invariant Expanded(first, graph.value, dataset, anchor, requests)
        invariant requests > 0 ==> RankShown(graph.value, anchor) < counterparties
        decreases counterparties - RankShown(graph.value, anchor)
      {
        var g := graph.value;
        var skip := RankShown(g, anchor);
        if skip >= counterparties {
          RankingExhausted(g, dataset, address, focusCursor, anchor);
          OnlyMoreEdges(first, g, dataset, anchor, requests);
          return Some(Expansion(|g.edges| - shownEdges, false)), requests;
        }
        var rows := LoadTop(dataset, anchor, EXPAND_BATCH, skip);
        var merged := MergeGraphPage(g, BuildGraphPage(dataset, rows));
        merged := merged.(expandRanks := merged.expandRanks[anchor := skip + EXPAND_BATCH]);
        ExpandOnce(first, g, dataset, address, focusCursor, anchor, rows, requests);
        graph := Some(merged);
        requests := requests + 1;
        OnlyMoreEdges(first, merged, dataset, anchor, requests);
        var revealed := |merged.edges| - shownEdges;
        var hasMore := skip + EXPAND_BATCH < counterparties;
        if revealed > 0 || !hasMore {
          if !hasMore { RankingExhausted(merged, dataset, address, focusCursor, anchor); }
          return Some(Expansion(revealed, hasMore)), requests;
        }
      }
    }

    /** A user who keeps expanding a node until no more is offered sees all of its rows within one request per ten
        counterparties. */
    method RevealWholeNode(dataset: set<Row>, anchor: string) returns (requests: nat)
      requires UniqueEvents(dataset) && UniqueEdgeIds(dataset) && Valid(dataset) && graph.Some? && anchor in graph.value.nodes
      modifies `graph
      ensures Valid(dataset) && graph.Some? && AllShown(graph.value, dataset, anchor)
      ensures requests <= (|Counterparties(dataset, anchor)| + 9) / 10
      ensures Expanded(old(graph).value, graph.value, dataset, anchor, requests)
    {
      hide Truthful, Counterparties, UniqueEvents, UniqueEdgeIds, RanksShown, FocusShown, RankShown, AllShown;
      requests := 0;
      ghost var first := graph.value;
      NotYetExpanded(first, dataset, anchor);
      while true
        invariant graph.Some? && Valid(dataset) && anchor in graph.value.nodes
        invariant Expanded(first, graph.value, dataset, anchor, requests)
        invariant requests > 0 ==> RankShown(graph.value, anchor) < |Counterparties(dataset, anchor)|
        decreases |Counterparties(dataset, anchor)| - RankShown(graph.value, anchor)
      {
        ghost var g := graph.value;
        var result, more := Expand(dataset, anchor);
        ExpandedTwice(first, g, graph.value, dataset, anchor, requests, more);
        requests := requests + more;
        if !result.value.hasMore {
          return;
        }
      }
    }
  }
}
