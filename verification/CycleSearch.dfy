/** The bounded cycle search of rules-v1, over Go slices that may share a backing array. */
module CycleSearch {
  import opened Order

  const MINIMUM_CYCLE_HOPS := 2
  const MAXIMUM_CYCLE_HOPS := 4

  type Edges = e: set<(string, string)> | forall p :: p in e ==> p.0 != p.1

  /** Each address sends to the next, and none appears twice. */
  predicate SimplePath(edges: Edges, q: seq<string>) {
    && (forall i, j :: 0 <= i < j < |q| ==> q[i] != q[j])
    && (forall i :: 0 <= i < |q| - 1 ==> (q[i], q[i + 1]) in edges)
  }

  /** A simple directed cycle of 2 to 4 distinct addresses. */
  predicate Cycle(edges: Edges, q: seq<string>) {
    MINIMUM_CYCLE_HOPS <= |q| <= MAXIMUM_CYCLE_HOPS && SimplePath(edges, q) && (q[|q| - 1], q[0]) in edges
  }

  ghost predicate OnCycle(edges: Edges, a: string) {
    exists q :: Cycle(edges, q) && a in q
  }

  /** The adjacency lists are exactly the edges. */
  ghost predicate Represents(adjacency: map<string, seq<string>>, edges: Edges) {
    forall a, b :: (a, b) in edges <==> b in Neighbours(adjacency, a)
  }

  /** Go's map read: a missing key has no neighbours. */
  function Neighbours(adjacency: map<string, seq<string>>, a: string): seq<string> {
    if a in adjacency then adjacency[a] else []
  }

  /** A slice: the first len elements of a backing array whose length is the capacity. */
  datatype Slice = Slice(buf: array<string>, len: nat)

  ghost predicate ValidSlice(s: Slice) {
    s.len <= s.buf.Length
  }

  ghost function View(s: Slice): seq<string>
    requires ValidSlice(s)
    reads s.buf
  {
    s.buf[..s.len]
  }

  /** append: in place while capacity lasts, else into a larger array. It never writes below the caller's length. */
  method Append(s: Slice, v: string) returns (r: Slice)
    requires ValidSlice(s)
    modifies s.buf
    ensures ValidSlice(r) && (r.buf == s.buf || fresh(r.buf))
    ensures View(r) == old(View(s)) + [v] && View(s) == old(View(s))
  {
    if s.len < s.buf.Length {
      s.buf[s.len] := v;
      r := Slice(s.buf, s.len + 1);
    } else {
      var grown := new string[2 * s.len + 1](_ => "");
      for i := 0 to s.len
        invariant grown[..i] == s.buf[..i]
        modifies grown
      {
        grown[i] := s.buf[i];
      }
      grown[s.len] := v;
      r := Slice(grown, s.len + 1);
    }
  }

  method IndexOf(s: Slice, target: string) returns (index: int)
    requires ValidSlice(s)
    ensures if target in View(s) then 0 <= index < s.len && s.buf[index] == target && target !in s.buf[..index] else index == -1
  {
    for i := 0 to s.len
      invariant target !in s.buf[..i]
    {
      if s.buf[i] == target {
        return i;
      }
    }
    index := -1;
  }

  /** The map[string]struct{} that every call of one search adds to. */
  class AddressSet {
    var items: set<string>

    constructor ()
      ensures items == {}
    {
      items := {};
    }

    method AddAll(s: Slice, from: nat)
      requires ValidSlice(s) && from <= s.len
      modifies this
      ensures items == old(items) + (set a | a in s.buf[from..s.len])
    {
      for i := from to s.len
        invariant items == old(items) + (set a | a in s.buf[from..i])
      {
        items := items + {s.buf[i]};
        assert s.buf[from..i + 1] == s.buf[from..i] + [s.buf[i]];
      }
    }
  }

  /** Every cycle that starts with path and then goes to next is in items. */
  ghost predicate Covered(edges: Edges, path: seq<string>, next: string, items: set<string>) {
    forall q {:trigger Cycle(edges, q)} :: Cycle(edges, q) && path <= q && next == q[|path| % |q|] ==> forall a :: a in q ==> a in items
  }

  ghost predicate CoveredAll(edges: Edges, path: seq<string>, items: set<string>) {
    forall q {:trigger Cycle(edges, q)} :: Cycle(edges, q) && path <= q ==> forall a :: a in q ==> a in items
  }

  ghost predicate Justified(edges: Edges, items: set<string>) {
    forall a {:trigger OnCycle(edges, a)} :: a in items ==> OnCycle(edges, a)
  }

  lemma ClosesAt(edges: Edges, path: seq<string>, at: nat, next: string)
    requires SimplePath(edges, path) && at < |path| && path[at] == next && (path[|path| - 1], next) in edges && |path| <= MAXIMUM_CYCLE_HOPS
    ensures Cycle(edges, path[at..])
  {
    assert at != |path| - 1;
  }

  lemma Extended(edges: Edges, path: seq<string>, next: string)
    requires SimplePath(edges, path) && path != [] && next !in path && (path[|path| - 1], next) in edges
    ensures SimplePath(edges, path + [next])
  {
  }

  /** The address after a prefix of a cycle, going round. */
  lemma NextAfter(path: seq<string>, q: seq<string>)
    requires path <= q && q != []
    ensures q[|path| % |q|] == if |q| == |path| then q[0] else q[|path|]
  {
  }

  /** A neighbour already on the path is where a cycle starting with the path closes, if at its first address. */
  lemma ClosingCovers(edges: Edges, path: seq<string>, at: nat, next: string, items: set<string>)
    requires SimplePath(edges, path) && at < |path| && path[at] == next && (at == 0 ==> forall a :: a in path ==> a in items)
    ensures Covered(edges, path, next, items)
  {
    forall q | Cycle(edges, q) && path <= q && next == q[|path| % |q|] ensures forall a :: a in q ==> a in items {
      NextAfter(path, q);
      assert q[at] == next;
    }
  }

  lemma DeeperCovers(edges: Edges, path: seq<string>, next: string, items: set<string>)
    requires next !in path && path != [] && CoveredAll(edges, path + [next], items)
    ensures Covered(edges, path, next, items)
  {
    forall q | Cycle(edges, q) && path <= q && next == q[|path| % |q|] ensures forall a :: a in q ==> a in items {
      NextAfter(path, q);
      assert path[0] == q[0] && path[0] in path;
      assert q[..|path| + 1] == path + [next];
    }
  }

  lemma TooLongCovers(edges: Edges, path: seq<string>, next: string, items: set<string>)
    requires next !in path && |path| >= MAXIMUM_CYCLE_HOPS
    ensures Covered(edges, path, next, items)
  {
    assert path[0] in path;
    assert forall q :: |q| == |path| && path <= q ==> q[|path| % |q|] == path[0];
  }

  lemma CoveredGrows(edges: Edges, path: seq<string>, next: string, items: set<string>, more: set<string>)
    requires Covered(edges, path, next, items) && items <= more
    ensures Covered(edges, path, next, more)
  {
  }

  lemma AllNeighboursCover(edges: Edges, adjacency: map<string, seq<string>>, path: seq<string>, items: set<string>)
    requires Represents(adjacency, edges) && path != []
    requires forall next {:trigger Covered(edges, path, next, items)} :: next in Neighbours(adjacency, path[|path| - 1]) ==> Covered(edges, path, next, items)
    ensures CoveredAll(edges, path, items)
  {
    forall q | Cycle(edges, q) && path <= q ensures forall a :: a in q ==> a in items {
      var next := q[|path| % |q|];
      assert (path[|path| - 1], next) in edges;
      assert Covered(edges, path, next, items);
    }
  }

  lemma CycleJustifies(edges: Edges, items: set<string>, q: seq<string>)
    requires Justified(edges, items) && Cycle(edges, q)
    ensures Justified(edges, items + (set a | a in q))
  {
  }

  /** rulesV1FindCycles. Sibling calls may share the path's backing array; the caller's view of it never changes. */
  method FindCycles(current: string, adjacency: map<string, seq<string>>, path: Slice, result: AddressSet, ghost edges: Edges)
    requires ValidSlice(path) && 1 <= path.len <= MAXIMUM_CYCLE_HOPS && View(path)[path.len - 1] == current
    requires Represents(adjacency, edges) && SimplePath(edges, View(path)) && Justified(edges, result.items)
    modifies path.buf, result
    ensures View(path) == old(View(path))
    ensures old(result.items) <= result.items && Justified(edges, result.items)
    ensures CoveredAll(edges, View(path), result.items)
    decreases MAXIMUM_CYCLE_HOPS - path.len
  {
    hide Covered, CoveredAll, Justified, Cycle, SimplePath;
    ghost var view := View(path);
    var neighbours := Neighbours(adjacency, current);
    for k := 0 to |neighbours|
      invariant View(path) == view && old(result.items) <= result.items && Justified(edges, result.items)
      invariant forall j {:trigger neighbours[j]} :: 0 <= j < k ==> Covered(edges, view, neighbours[j], result.items)
    {
      var next := neighbours[k];
      ghost var before := result.items;
      assert (current, next) in edges;
      var cycleStart := IndexOf(path, next);
      if cycleStart >= 0 {
        var hops := path.len - cycleStart;
        ClosesAt(edges, view, cycleStart, next);
        assert path.buf[cycleStart..path.len] == view[cycleStart..];
        if hops >= MINIMUM_CYCLE_HOPS && hops <= MAXIMUM_CYCLE_HOPS {
          result.AddAll(path, cycleStart);
          CycleJustifies(edges, before, view[cycleStart..]);
        }
        assert View(path) == view;
        ClosingCovers(edges, view, cycleStart, next, result.items);
      } else if path.len >= MAXIMUM_CYCLE_HOPS {
        TooLongCovers(edges, view, next, result.items);
      } else {
        Extended(edges, view, next);
        var longer := Append(path, next);
        FindCycles(next, adjacency, longer, result, edges);
        assert View(path) == view by { assert View(longer)[..path.len] == view; }
        DeeperCovers(edges, view, next, result.items);
      }
      forall j | 0 <= j < k ensures Covered(edges, view, neighbours[j], result.items) {
        CoveredGrows(edges, view, neighbours[j], before, result.items);
      }
    }
    forall next | next in neighbours ensures Covered(edges, view, next, result.items) {
      var j :| 0 <= j < |neighbours| && neighbours[j] == next;
    }
    AllNeighboursCover(edges, adjacency, view, result.items);
  }

  method BuildAdjacency(edges: Edges) returns (adjacency: map<string, seq<string>>, starts: seq<string>)
    ensures Represents(adjacency, edges)
    ensures forall p :: p in edges ==> p.0 in starts
  {
    var senders := set p | p in edges :: p.0;
    adjacency := map[];
    starts := SortedSet(senders);
    for i := 0 to |starts|
      invariant forall a :: a in starts[..i] ==> a in adjacency
      invariant forall a, b :: a in adjacency ==> (b in adjacency[a] <==> (a, b) in edges)
    {
      var a := starts[i];
      var peers := SortedSet(set p | p in edges && p.0 == a :: p.1);
      adjacency := adjacency[a := peers];
      assert starts[..i + 1] == starts[..i] + [a];
      assert forall b :: b in peers <==> (a, b) in edges;
    }
    assert starts[..|starts|] == starts;
    forall a, b ensures (a, b) in edges <==> b in Neighbours(adjacency, a) {
      if (a, b) in edges { assert a in senders; }
    }
  }

  /** The search from every address that sends anything finds exactly the addresses on a cycle. */
  method CircularFlow(edges: Edges) returns (circular: set<string>)
    ensures forall a :: a in circular <==> OnCycle(edges, a)
  {
    var adjacency, starts := BuildAdjacency(edges);
    var result := new AddressSet();
    for i := 0 to |starts|
      invariant fresh(result) && Justified(edges, result.items)
      invariant forall j {:trigger starts[j]} :: 0 <= j < i ==> CoveredAll(edges, [starts[j]], result.items)
    {
      ghost var before := result.items;
      var buf := new string[1](_ => starts[i]);
      var path := Slice(buf, 1);
      assert View(path) == [starts[i]];
      FindCycles(starts[i], adjacency, path, result, edges);
      forall j | 0 <= j < i ensures CoveredAll(edges, [starts[j]], result.items) {
        assert CoveredAll(edges, [starts[j]], before);
      }
    }
    circular := result.items;
    EveryCycleFound(edges, starts, circular);
  }

  lemma EveryCycleFound(edges: Edges, starts: seq<string>, items: set<string>)
    requires Justified(edges, items) && (forall p :: p in edges ==> p.0 in starts)
    requires forall j {:trigger starts[j]} :: 0 <= j < |starts| ==> CoveredAll(edges, [starts[j]], items)
    ensures forall a :: a in items <==> OnCycle(edges, a)
  {
    forall a | OnCycle(edges, a) ensures a in items {
      var q :| Cycle(edges, q) && a in q;
      assert (q[0], q[1]) in edges;
      var j :| 0 <= j < |starts| && starts[j] == q[0];
      assert CoveredAll(edges, [starts[j]], items) && [starts[j]] <= q;
    }
    forall a | a in items ensures OnCycle(edges, a) {}
  }
}
