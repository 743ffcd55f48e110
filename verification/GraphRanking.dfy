/** Counterparties of an address by rank, and the batches of rows that a top/skip request returns. */
module GraphRanking {
  import opened Wrappers
  import opened Order
  import opened GraphPaging

  /** CASE WHEN from_address = anchor THEN to_address ELSE from_address END */
  function Counterparty(anchor: string, r: Row): string {
    if r.from == anchor then r.to else r.from
  }

  function RowsOf(dataset: set<Row>, anchor: string): set<Row> {
    set r | r in dataset && Touches(Some(anchor), r)
  }

  function Counterparties(dataset: set<Row>, anchor: string): set<string> {
    set r | r in RowsOf(dataset, anchor) :: Counterparty(anchor, r)
  }

  function TransfersWith(dataset: set<Row>, anchor: string, c: string): nat {
    |set r | r in RowsOf(dataset, anchor) && Counterparty(anchor, r) == c|
  }

  /** ORDER BY COUNT(*) DESC, counterparty ASC */
  predicate RankBefore(dataset: set<Row>, anchor: string, c: string, d: string) {
    var m, n := TransfersWith(dataset, anchor, c), TransfersWith(dataset, anchor, d);
    m > n || (m == n && Before(c, d))
  }

  function Ranking(dataset: set<Row>, anchor: string): (string, string) -> bool {
    (c, d) => RankBefore(dataset, anchor, c, d)
  }

  /** A counterparty's rank: how many others come before it. */
  function RankOf(dataset: set<Row>, anchor: string, c: string): nat {
    |set d | d in Counterparties(dataset, anchor) && RankBefore(dataset, anchor, d, c)|
  }

  lemma RankingIsStrictWeak(dataset: set<Row>, anchor: string)
    ensures StrictWeak(Ranking(dataset, anchor))
  {
    BeforeIsStrictWeak();
    hide TransfersWith, Before;
  }

  lemma RanksOrdered(dataset: set<Row>, anchor: string, c: string, d: string)
    ensures c == d || RankBefore(dataset, anchor, c, d) || RankBefore(dataset, anchor, d, c)
    ensures !(RankBefore(dataset, anchor, c, d) && RankBefore(dataset, anchor, d, c))
  {
    BeforeTotal(c, d);
  }

  /** The number of the anchor's rows shared with an address. */
  function Shared(dataset: set<Row>, anchor: string, c: string): nat {
    |set r | r in dataset && {r.from, r.to} == {anchor, c}|
  }

  lemma SharedRows(dataset: set<Row>, anchor: string, c: string)
    ensures TransfersWith(dataset, anchor, c) == Shared(dataset, anchor, c)
  {
    forall r | r in dataset ensures r in RowsOf(dataset, anchor) && Counterparty(anchor, r) == c <==> {r.from, r.to} == {anchor, c} {
      if {r.from, r.to} == {anchor, c} { assert r.from in {anchor, c} && r.to in {anchor, c} && anchor in {r.from, r.to} && c in {r.from, r.to}; }
    }
    assert (set r | r in RowsOf(dataset, anchor) && Counterparty(anchor, r) == c) == (set r | r in dataset && {r.from, r.to} == {anchor, c});
  }

  /** Of two counterparties the one with more transfers ranks higher, and of two with as many the first by address. */
  lemma RanksFollowTransfers(dataset: set<Row>, anchor: string, c: string, d: string)
    requires c in Counterparties(dataset, anchor) && d in Counterparties(dataset, anchor)
    ensures var m, n := Shared(dataset, anchor, c), Shared(dataset, anchor, d);
      RankOf(dataset, anchor, c) < RankOf(dataset, anchor, d) <==> (m > n || (m == n && Before(c, d)))
  {
    SharedRows(dataset, anchor, c);
    SharedRows(dataset, anchor, d);
    hide Shared, TransfersWith, Counterparties;
    RanksOrdered(dataset, anchor, c, d);
    if c != d {
      if RankBefore(dataset, anchor, c, d) { RanksAscend(dataset, anchor, c, d); } else { RanksAscend(dataset, anchor, d, c); }
    }
  }

  lemma RanksAscend(dataset: set<Row>, anchor: string, c: string, d: string)
    requires c in Counterparties(dataset, anchor) && RankBefore(dataset, anchor, c, d)
    ensures RankOf(dataset, anchor, c) < RankOf(dataset, anchor, d)
  {
    RankingIsStrictWeak(dataset, anchor);
    RanksOrdered(dataset, anchor, c, c);
    var all := Counterparties(dataset, anchor);
    hide RankBefore, Counterparties;
    var above, below := set e | e in all && RankBefore(dataset, anchor, e, c), set e | e in all && RankBefore(dataset, anchor, e, d);
    forall e | e in above ensures e in below - {c} {
      assert Ranking(dataset, anchor)(e, c) && Ranking(dataset, anchor)(c, d);
      assert Ranking(dataset, anchor)(e, d);
    }
    Fewer(above, below - {c});
  }

  /** The whole ranking, best first. */
  ghost predicate IsRanking(ranked: seq<string>, dataset: set<Row>, anchor: string) {
    && (forall c :: c in ranked <==> c in Counterparties(dataset, anchor))
    && |ranked| == |Counterparties(dataset, anchor)|
    && forall i, j :: 0 <= i < j < |ranked| ==> RankBefore(dataset, anchor, ranked[i], ranked[j])
  }

  /** In a ranking, the i-th counterparty is the one with rank i. */
  lemma RankIsPosition(ranked: seq<string>, dataset: set<Row>, anchor: string, i: nat)
    requires IsRanking(ranked, dataset, anchor) && i < |ranked|
    ensures RankOf(dataset, anchor, ranked[i]) == i
  {
    hide RankBefore, Counterparties;
    forall x, y | 0 <= x < |ranked| && 0 <= y < |ranked| ensures RankBefore(dataset, anchor, ranked[x], ranked[y]) <==> x < y {
      RanksOrdered(dataset, anchor, ranked[x], ranked[y]);
    }
    forall x, y | 0 <= x < y < |ranked| ensures ranked[x] != ranked[y] {
      assert RankBefore(dataset, anchor, ranked[x], ranked[y]) && !RankBefore(dataset, anchor, ranked[y], ranked[x]);
    }
    ElementCount(ranked[..i]);
    assert (set d | d in Counterparties(dataset, anchor) && RankBefore(dataset, anchor, d, ranked[i])) == set x | x in ranked[..i];
  }

  /** GROUP BY counterparty ORDER BY ... OFFSET skip LIMIT top */
  method RankedCounterparties(dataset: set<Row>, anchor: string, top: nat, skip: nat) returns (cs: seq<string>)
    ensures forall c :: c in cs <==> c in Counterparties(dataset, anchor) && skip <= RankOf(dataset, anchor, c) < skip + top
  {
    RankingIsStrictWeak(dataset, anchor);
    var ranked := Arrange(Ranking(dataset, anchor), Counterparties(dataset, anchor));
    forall i, j | 0 <= i < j < |ranked| ensures RankBefore(dataset, anchor, ranked[i], ranked[j]) {
      RanksOrdered(dataset, anchor, ranked[i], ranked[j]);
      assert !Ranking(dataset, anchor)(ranked[j], ranked[i]);
    }
    forall i | 0 <= i < |ranked| ensures RankOf(dataset, anchor, ranked[i]) == i { RankIsPosition(ranked, dataset, anchor, i); }
    hide RankOf, RankBefore, Counterparties, Ranking;
    var from := if skip < |ranked| then skip else |ranked|;
    var to := if skip + top < |ranked| then skip + top else |ranked|;
    cs := ranked[from..to];
    SliceByPosition(ranked, from, to);
  }

  lemma SliceByPosition<T>(s: seq<T>, from: nat, to: nat)
    requires from <= to <= |s|
    ensures forall c :: c in s[from..to] <==> exists i :: from <= i < to && s[i] == c
  {
    assert forall i :: from <= i < to ==> s[from..to][i - from] == s[i];
  }

  /** The rows of one batch: those whose counterparty ranks in it. */
  predicate InBatch(dataset: set<Row>, anchor: string, top: nat, skip: nat, r: Row) {
    Touches(Some(anchor), r) && skip <= RankOf(dataset, anchor, Counterparty(anchor, r)) < skip + top
  }

  /** (from = anchor AND to IN cs) OR (to = anchor AND from IN cs) */
  predicate BetweenAnchorAnd(cs: seq<string>, anchor: string, r: Row) {
    (r.from == anchor && r.to in cs) || (r.to == anchor && r.from in cs)
  }

  /** LoadGraphPage with top > 0. */
  method LoadTop(dataset: set<Row>, anchor: string, top: nat, skip: nat) returns (rows: seq<Row>)
    requires UniqueEvents(dataset)
    ensures Listing(rows, dataset, (r: Row) => InBatch(dataset, anchor, top, skip, r))
  {
    var cs := RankedCounterparties(dataset, anchor, top, skip);
    assert forall r :: r in dataset ==> (BetweenAnchorAnd(cs, anchor, r) <==> InBatch(dataset, anchor, top, skip, r)) by {
      forall r | r in dataset ensures BetweenAnchorAnd(cs, anchor, r) <==> InBatch(dataset, anchor, top, skip, r) {
        BatchRow(dataset, anchor, top, skip, cs, r);
      }
    }
    hide InBatch, BetweenAnchorAnd;
    if cs == [] {
      NothingBetween(dataset, anchor);
      return [];
    }
    rows := Query(dataset, (r: Row) => BetweenAnchorAnd(cs, anchor, r));
  }

  lemma NothingBetween(dataset: set<Row>, anchor: string)
    ensures forall r :: !BetweenAnchorAnd([], anchor, r)
  {
  }

  lemma BatchRow(dataset: set<Row>, anchor: string, top: nat, skip: nat, cs: seq<string>, r: Row)
    requires r in dataset
    requires forall c :: c in cs <==> c in Counterparties(dataset, anchor) && skip <= RankOf(dataset, anchor, c) < skip + top
    ensures BetweenAnchorAnd(cs, anchor, r) <==> InBatch(dataset, anchor, top, skip, r)
  {
    hide RankOf;
    var c := Counterparty(anchor, r);
    if Touches(Some(anchor), r) {
      assert r in RowsOf(dataset, anchor) && c in Counterparties(dataset, anchor);
      if r.from == anchor && r.to == anchor {
      } else if r.from == anchor {
        assert c == r.to;
      } else {
        assert c == r.from;
      }
    }
  }

  /** Every rank is below the number of counterparties, so consecutive batches of any size split a node's rows: each
      row lies in exactly one of the batches that start below that number. */
  lemma BatchesPartition(dataset: set<Row>, anchor: string, top: nat, r: Row)
    requires r in dataset && Touches(Some(anchor), r) && top >= 1
    ensures var k := RankOf(dataset, anchor, Counterparty(anchor, r)) / top;
      && k * top < |Counterparties(dataset, anchor)|
      && forall j: nat :: InBatch(dataset, anchor, top, j * top, r) <==> j == k
  {
    RankBelowCount(dataset, anchor, r);
    var rank := RankOf(dataset, anchor, Counterparty(anchor, r));
    hide RankOf, Counterparties;
    assert rank == (rank / top) * top + rank % top;
    forall j: nat ensures InBatch(dataset, anchor, top, j * top, r) <==> j == rank / top {
      InBlock(rank, top, j);
    }
  }

  lemma InBlock(rank: nat, top: nat, j: nat)
    requires top >= 1
    ensures j * top <= rank < j * top + top <==> j == rank / top
  {
    var k := rank / top;
    assert rank == k * top + rank % top;
    Scaled(j + 1, k, top);
    Scaled(k + 1, j, top);
    assert (j + 1) * top == j * top + top && (k + 1) * top == k * top + top;
  }

  lemma Scaled(a: nat, b: nat, p: nat)
    ensures a <= b ==> a * p <= b * p
  {
  }

  lemma RankBelowCount(dataset: set<Row>, anchor: string, r: Row)
    requires r in dataset && Touches(Some(anchor), r)
    ensures RankOf(dataset, anchor, Counterparty(anchor, r)) < |Counterparties(dataset, anchor)|
  {
    var c := Counterparty(anchor, r);
    assert r in RowsOf(dataset, anchor) && c in Counterparties(dataset, anchor);
    var all := Counterparties(dataset, anchor);
    var above := set d | d in all && RankBefore(dataset, anchor, d, c);
    RanksOrdered(dataset, anchor, c, c);
    assert above <= all - {c};
    Fewer(above, all - {c});
  }

  lemma {:induction false} Fewer<T>(a: set<T>, b: set<T>)
    requires a <= b
    ensures |a| <= |b|
  {
    if a != {} {
      var x :| x in a;
      Fewer(a - {x}, b - {x});
    }
  }

  /** COUNT(DISTINCT other) over both sides of an address's rows, as shown on its node. */
  function CountOthers(dataset: set<Row>, address: string): nat {
    |(set r | r in dataset && r.from == address :: r.to) + (set r | r in dataset && r.to == address :: r.from)|
  }

  /** The count on a node is the length of its ranking, though two different queries compute them. */
  lemma CountsAgree(dataset: set<Row>, address: string)
    ensures CountOthers(dataset, address) == |Counterparties(dataset, address)|
  {
    var froms := set r | r in dataset && r.from == address :: r.to;
    var tos := set r | r in dataset && r.to == address :: r.from;
    forall c ensures c in froms + tos <==> c in Counterparties(dataset, address) {
      if c in froms {
        var r :| r in dataset && r.from == address && r.to == c;
        assert r in RowsOf(dataset, address) && Counterparty(address, r) == c;
      }
      if c in tos {
        var r :| r in dataset && r.to == address && r.from == c;
        assert r in RowsOf(dataset, address) && Counterparty(address, r) == c;
      }
    }
    assert froms + tos == Counterparties(dataset, address);
  }
}
