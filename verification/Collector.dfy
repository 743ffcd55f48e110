/** The evidence collector: a breadth-first walk over a paged provider, with deduplication, a Transfer Limit, a call
    budget and partial results. */
module CollectorRuns {
  import opened Chain
  import opened CollectorModel
  import opened CollectorTables
  import opened Order

  datatype FetchResult = Fetched(page: Page) | Interrupted(fault: Fault)

  function CallBudget(transferLimit: nat): nat {
    200 + 6 * transferLimit
  }

  /** A page that was asked for: the index-th of an address, on a level of the walk. */
  datatype Ask = Ask(depth: nat, address: string, index: nat)

  /** What the first n fetches cost. */
  function Spent(w: World, n: nat): nat {
    if n == 0 then 0 else Spent(w, n - 1) + 1 + w.extra(n - 1)
  }

  class Provider {
    const world: World
    var budget: nat
    var fetches: nat
    var remaining: int
    /** requests that went out */
    var sent: nat
    /** the pages that were answered, in order */
    ghost var answered: seq<Ask>

    ghost predicate Counted()
      reads this
    {
      sent == if remaining >= 0 then budget - remaining else budget
    }

    ghost predicate Valid()
      reads this
    {
      Counted() && if remaining >= 0 then Spent(world, fetches) == budget - remaining else Spent(world, fetches) > budget
    }

    constructor (world: World)
      ensures Valid() && this.world == world
    {
      this.world := world;
      budget, remaining, fetches, sent, answered := 0, 0, 0, 0, [];
    }

    /** withCallBudget: a run counts its fetches and requests from nothing. */
    method WithCallBudget(transferLimit: nat)
      modifies this
      ensures Valid() && budget == CallBudget(transferLimit) && fetches == 0 && answered == []
    {
      budget, remaining := CallBudget(transferLimit), CallBudget(transferLimit);
      fetches, sent, answered := 0, 0, [];
    }

    /** spendProviderCall; a granted request is sent. */
    method SpendProviderCall() returns (granted: bool)
      requires Counted()
      modifies this`remaining, this`sent
      ensures Counted() && remaining == old(remaining) - 1 && granted == (remaining >= 0)
      ensures sent == old(sent) + if granted then 1 else 0
    {
      remaining := remaining - 1;
      granted := remaining >= 0;
      if granted { sent := sent + 1; }
    }

    /** FetchAddressTransfers: the page costs at least one request, and fails when the budget cannot pay for all. */
    method Fetch(address: string, cursor: string, ghost ask: Ask) returns (r: FetchResult)
      requires Valid()
      modifies this`fetches, this`remaining, this`sent, this`answered
      ensures answered == old(answered) + if r.Fetched? then [ask] else []
      ensures Valid() && fetches == old(fetches) + 1 && remaining < old(remaining)
      ensures r == if remaining < 0 then Interrupted(ResourceLimit)
                   else match world.fault(old(fetches))
                     case Some(fault) => Interrupted(fault)
                     case None => Fetched(world.page(address, cursor))
    {
      var calls := 1 + world.extra(fetches);
      var fault := world.fault(fetches);
      fetches := fetches + 1;
      for i := 0 to calls
        invariant answered == old(answered) && Counted() && fetches == old(fetches) + 1 && remaining == old(remaining) - i && (i > 0 ==> remaining >= 0)
      {
        var granted := SpendProviderCall();
        if !granted {
          return Interrupted(ResourceLimit);
        }
      }
      if fault.Some? {
        return Interrupted(fault.value);
      }
      answered := answered + [ask];
      r := Fetched(world.page(address, cursor));
    }
  }

  predicate KeyBefore(a: Candidate, b: Candidate) {
    Before(Key(a), Key(b))
  }

  /** The eligible ones among a transaction's first n transfers, in the page's order. */
  function EligibleIn(t: Transaction, n: nat, r: Request, address: string): (s: seq<Candidate>)
    requires n <= |t.transfers|
    ensures forall c :: c in s <==> c.transaction == t && c.transfer in t.transfers[..n] && EligibleTransfer(c.transfer, r, address)
  {
    if n == 0 then []
    else EligibleIn(t, n - 1, r, address) +
         if EligibleTransfer(t.transfers[n - 1], r, address) then [Candidate(t, t.transfers[n - 1])] else []
  }

  function EligibleOf(transactions: seq<Transaction>, r: Request, address: string): seq<Candidate> {
    if transactions == [] then []
    else
      var t := transactions[|transactions| - 1];
      EligibleOf(transactions[..|transactions| - 1], r, address) +
      if EligibleTransaction(t, r) then EligibleIn(t, |t.transfers|, r, address) else []
  }

  lemma {:induction false} EligibleAreOnPage(page: Page, r: Request, address: string)
    ensures forall c :: c in EligibleOf(page.transactions, r, address) <==> OnPage(page, r, address, c)
    decreases |page.transactions|
  {
    if page.transactions != [] {
      var n := |page.transactions| - 1;
      var t, front := page.transactions[n], Page(page.transactions[..n], page.next);
      EligibleAreOnPage(front, r, address);
      assert page.transactions == front.transactions + [t] && t.transfers[..|t.transfers|] == t.transfers;
      hide EligibleTransaction, EligibleTransfer;
      assert forall c :: OnPage(page, r, address, c) <==>
        (OnPage(front, r, address, c) ||
         (c.transaction == t && EligibleTransaction(t, r) && c.transfer in t.transfers && EligibleTransfer(c.transfer, r, address)));
    }
  }

  /** The keys of a page's eligible transfers. */
  function PageKeys(page: Page, r: Request, address: string): set<string> {
    set c | c in EligibleOf(page.transactions, r, address) :: Key(c)
  }

  /** Those of them not behind the given key. */
  function PageKeysTo(page: Page, r: Request, address: string, last: string): set<string> {
    set k | k in PageKeys(page, r, address) && !Before(last, k)
  }

  /** Every eligible transfer of the page, as often as the page shows it, in key order. */
  method EligiblePageTransfers(page: Page, r: Request, address: string) returns (eligible: seq<Candidate>)
    ensures multiset(eligible) == multiset(EligibleOf(page.transactions, r, address)) && Sorted(KeyBefore, eligible)
    ensures forall c :: c in eligible <==> OnPage(page, r, address, c)
  {
    var found: seq<Candidate> := [];
    for i := 0 to |page.transactions|
      invariant found == EligibleOf(page.transactions[..i], r, address)
    {
      var t := page.transactions[i];
      ghost var before := found;
      assert page.transactions[..i + 1][..i] == page.transactions[..i];
      if EligibleTransaction(t, r) {
        for j := 0 to |t.transfers|
          invariant found == before + EligibleIn(t, j, r, address)
        {
          if EligibleTransfer(t.transfers[j], r, address) {
            found := found + [Candidate(t, t.transfers[j])];
          }
        }
      }
    }
    assert page.transactions[..|page.transactions|] == page.transactions;
    BeforeIsStrictWeak();
    eligible := Sort(KeyBefore, found);
    SameMembers(found, eligible);
    EligibleAreOnPage(page, r, address);
  }

  function TransferPeers(address: string, t: Transfer): (peers: seq<string>)
    ensures t.from == address || t.to == address ==> forall p :: p in peers + [address] <==> p in [t.from, t.to, address]
  {
    (if t.from != address then [t.from] else []) +
    (if t.to != address && t.to != t.from then [t.to] else [])
  }

  // ----- invariants of the walk -----

  /** An admitted candidate is offered within reach, and both its ends are visited. */
  ghost predicate Reached(w: World, r: Request, visited: set<string>, depth: nat, c: Candidate) {
    OfferedWithin(w, r, depth, c) && c.transfer.from in visited && c.transfer.to in visited
  }

  /** The address sends or receives an admitted transfer. */
  ghost predicate EndOf(admitted: map<string, Candidate>, a: string) {
    exists k :: k in admitted && a in {admitted[k].transfer.from, admitted[k].transfer.to}
  }

  lemma EndStays(admitted: map<string, Candidate>, key: string, c: Candidate, a: string)
    requires key !in admitted
    ensures EndOf(admitted, a) ==> EndOf(admitted[key := c], a)
    ensures a in {c.transfer.from, c.transfer.to} ==> EndOf(admitted[key := c], a)
  {
    var later := admitted[key := c];
    assert later[key] == c;
    if EndOf(admitted, a) {
      var k :| k in admitted && a in {admitted[k].transfer.from, admitted[k].transfer.to};
      assert later[k] == admitted[k];
    }
  }

  ghost predicate WalkSound(w: World, r: Request, visited: set<string>, admitted: map<string, Candidate>, depth: nat) {
    && (forall k {:trigger Reached(w, r, visited, depth, admitted[k])} :: k in admitted ==> Reached(w, r, visited, depth, admitted[k]))
    && (forall a {:trigger Within(w, r, a, depth + 1)} :: a in visited ==> Within(w, r, a, depth + 1))
    && (forall a {:trigger EndOf(admitted, a)} :: a in visited && a != r.target ==> EndOf(admitted, a))
    && r.target in visited
  }

  ghost predicate TallySound(r: Request, t: Tally, admitted: map<string, Candidate>) {
    t.seen == admitted.Keys && TableSound(t.transactions, r, admitted) && Total(t.transactions) == |admitted|
  }

  ghost predicate Sound(w: World, r: Request, t: Tally, admitted: map<string, Candidate>, depth: nat) {
    TallySound(r, t, admitted) && WalkSound(w, r, t.visited, admitted, depth)
  }

  /** nextAddresses is what this level has discovered beyond `base`. */
  predicate AtLevel(t: Tally, base: set<string>, depth: nat) {
    (t.next != {} ==> t.seen != {}) && base <= t.visited && t.next == t.visited - base && t.reached == (if t.next == {} then depth else depth + 1)
  }

  predicate Extends(admitted: map<string, Candidate>, later: map<string, Candidate>) {
    forall k :: k in admitted ==> k in later && later[k] == admitted[k]
  }

  ghost predicate PageSeen(page: Page, r: Request, address: string, admitted: map<string, Candidate>) {
    forall c {:trigger OnPage(page, r, address, c)} :: OnPage(page, r, address, c) ==> Key(c) in admitted
  }

  /** Every transfer the address is offered has been seen, under its key. */
  ghost predicate Exhausted(w: World, r: Request, address: string, admitted: map<string, Candidate>) {
    forall c {:trigger Offered(w, r, address, c)} :: Offered(w, r, address, c) ==> Key(c) in admitted
  }

  method VisitPeers(t: Tally, address: string, transfer: Transfer, depth: nat, ghost base: set<string>) returns (t': Tally)
    requires AtLevel(t, base, depth) && t.seen != {} && address in t.visited && (transfer.from == address || transfer.to == address)
    ensures AtLevel(t', base, depth)
    ensures t'.visited == t.visited + {transfer.from, transfer.to} && t'.transactions == t.transactions && t'.seen == t.seen
  {
    t' := t;
    var peers := TransferPeers(address, transfer);
    for i := 0 to |peers|
      invariant AtLevel(t', base, depth)
      invariant t'.visited == t.visited + (set p | p in peers[..i]) && t'.transactions == t.transactions && t'.seen == t.seen
    {
      var peer := peers[i];
      assert peers[..i + 1] == peers[..i] + [peer];
      if peer !in t'.visited {
        t' := t'.(visited := t'.visited + {peer}, next := t'.next + {peer},
                  reached := if depth + 1 > t'.reached then depth + 1 else t'.reached);
      }
    }
    assert peers[..|peers|] == peers;
    assert forall p :: p in peers + [address] <==> p in peers || p == address;
  }

  lemma AdmitEnds(target: string, visited: set<string>, admitted: map<string, Candidate>, c: Candidate)
    requires (forall a {:trigger EndOf(admitted, a)} :: a in visited && a != target ==> EndOf(admitted, a)) && Key(c) !in admitted
    ensures var later := admitted[Key(c) := c];
      forall a {:trigger EndOf(later, a)} :: a in visited + {c.transfer.from, c.transfer.to} && a != target ==> EndOf(later, a)
  {
    var later := admitted[Key(c) := c];
    hide EndOf;
    forall a | a in visited + {c.transfer.from, c.transfer.to} && a != target ensures EndOf(later, a) { EndStays(admitted, Key(c), c, a); }
  }

  lemma AdmitWalk(w: World, r: Request, visited: set<string>, admitted: map<string, Candidate>, depth: nat, address: string, c: Candidate)
    requires WalkSound(w, r, visited, admitted, depth) && Within(w, r, address, depth) && Offered(w, r, address, c) && Key(c) !in admitted
    ensures WalkSound(w, r, visited + {c.transfer.from, c.transfer.to}, admitted[Key(c) := c], depth)
  {
    var visited', admitted' := visited + {c.transfer.from, c.transfer.to}, admitted[Key(c) := c];
    AdmitEnds(r.target, visited, admitted, c);
    hide EndOf, Offered;
    assert Linked(w, r, address, c.transfer.from) && Linked(w, r, address, c.transfer.to);
    assert OfferedWithin(w, r, depth, c);
    forall k | k in admitted' ensures Reached(w, r, visited', depth, admitted'[k]) {
      if k != Key(c) { assert Reached(w, r, visited, depth, admitted[k]); }
    }
    forall a | a in visited' ensures Within(w, r, a, depth + 1) {
      if a in visited { assert Within(w, r, a, depth + 1); }
    }
  }

  lemma AdmitTally(r: Request, t: Tally, admitted: map<string, Candidate>, c: Candidate, t': Tally)
    requires TallySound(r, t, admitted) && Key(c) !in admitted && EligibleTransaction(c.transaction, r)
    requires t'.seen == t.seen + {Key(c)} && t'.transactions == Admit(t.transactions, c)
    ensures TallySound(r, t', admitted[Key(c) := c])
  {
    AdmitKeepsTable(t.transactions, r, admitted, c);
    TotalAdmit(t.transactions, c);
  }

  /** What a level keeps while it runs, and how much of the Transfer Limit is left. */
  ghost predicate Running(w: World, r: Request, t: Tally, admitted: map<string, Candidate>, base: set<string>, depth: nat) {
    Sound(w, r, t, admitted, depth) && AtLevel(t, base, depth) && |t.seen| < r.transferLimit
  }

  ghost predicate Full(w: World, r: Request, t: Tally, admitted: map<string, Candidate>, base: set<string>, depth: nat) {
    Sound(w, r, t, admitted, depth) && AtLevel(t, base, depth) && |t.seen| == r.transferLimit
  }

  method ConsiderCandidate(w: World, r: Request, address: string, depth: nat, c: Candidate, t: Tally,
                           ghost admitted: map<string, Candidate>, ghost base: set<string>)
    returns (t': Tally, ghost admitted': map<string, Candidate>, full: bool)
    requires Running(w, r, t, admitted, base, depth)
    requires Within(w, r, address, depth) && address in t.visited && Offered(w, r, address, c)
    requires EligibleTransaction(c.transaction, r) && EligibleTransfer(c.transfer, r, address)
    ensures if full then Full(w, r, t', admitted', base, depth) else Running(w, r, t', admitted', base, depth)
    ensures Extends(admitted, admitted') && t.visited <= t'.visited && admitted'.Keys == admitted.Keys + {Key(c)}
  {
    if Key(c) in t.seen {
      return t, admitted, false;
    }
    t' := t.(seen := t.seen + {Key(c)}, transactions := Admit(t.transactions, c));
    t' := VisitPeers(t', address, c.transfer, depth, base);
    admitted' := admitted[Key(c) := c];
    AdmitTally(r, t, admitted, c, t');
    AdmitWalk(w, r, t.visited, admitted, depth, address, c);
    full := |t'.seen| == r.transferLimit;
  }

  function KeysOf(cs: seq<Candidate>): set<string> {
    set c | c in cs :: Key(c)
  }

  lemma KeysOfPage(eligible: seq<Candidate>, page: Page, r: Request, address: string)
    requires multiset(eligible) == multiset(EligibleOf(page.transactions, r, address))
    ensures KeysOf(eligible) == PageKeys(page, r, address)
  {
    SameMembers(eligible, EligibleOf(page.transactions, r, address));
  }

  /** The first candidates in key order are those whose keys are not behind the last one's. */
  lemma KeysToCut(eligible: seq<Candidate>, i: nat, page: Page, r: Request, address: string)
    requires multiset(eligible) == multiset(EligibleOf(page.transactions, r, address)) && Sorted(KeyBefore, eligible) && i < |eligible|
    ensures Key(eligible[i]) in PageKeys(page, r, address) && KeysOf(eligible[..i + 1]) == PageKeysTo(page, r, address, Key(eligible[i]))
  {
    KeysOfPage(eligible, page, r, address);
    var last := Key(eligible[i]);
    assert eligible[i] in eligible && eligible[i] in eligible[..i + 1];
    forall k ensures k in KeysOf(eligible[..i + 1]) <==> k in KeysOf(eligible) && !Before(last, k) {
      if k in KeysOf(eligible[..i + 1]) {
        var j :| 0 <= j <= i && Key(eligible[j]) == k;
        assert eligible[j] in eligible && (j == i || !KeyBefore(eligible[i], eligible[j]));
        BeforeTotal(k, k);
      }
      if k in KeysOf(eligible) && !Before(last, k) {
        var j :| 0 <= j < |eligible| && Key(eligible[j]) == k;
        if j > i {
          assert !KeyBefore(eligible[j], eligible[i]);
          BeforeTotal(last, k);
        } else {
          assert eligible[j] == eligible[..i + 1][j];
        }
      }
    }
  }

  ghost predicate PageOffered(w: World, r: Request, address: string, page: Page) {
    forall c {:trigger OnPage(page, r, address, c)} :: OnPage(page, r, address, c) ==> Offered(w, r, address, c)
  }

  /** One page, candidate by candidate in key order; `full` when the Transfer Limit is reached on it. */
  method AdmitPage(w: World, r: Request, page: Page, address: string, depth: nat, t: Tally,
                   ghost admitted: map<string, Candidate>, ghost base: set<string>)
    returns (t': Tally, ghost admitted': map<string, Candidate>, full: bool)
    requires Running(w, r, t, admitted, base, depth)
    requires Within(w, r, address, depth) && address in t.visited && PageOffered(w, r, address, page)
    ensures if full then Full(w, r, t', admitted', base, depth) else Running(w, r, t', admitted', base, depth)
    ensures Extends(admitted, admitted') && t.visited <= t'.visited && (!full ==> PageSeen(page, r, address, admitted'))
    ensures !full ==> admitted'.Keys == admitted.Keys + PageKeys(page, r, address)
    ensures full ==> exists last :: last in PageKeys(page, r, address) && admitted'.Keys == admitted.Keys + PageKeysTo(page, r, address, last)
  {
    hide *;
    t', admitted', full := t, admitted, false;
    ExtendsItself(admitted);
    var eligible := EligiblePageTransfers(page, r, address);
    GainNothing(admitted, eligible);
    for i := 0 to |eligible|
      invariant Running(w, r, t', admitted', base, depth)
      invariant Extends(admitted, admitted') && t.visited <= t'.visited
      invariant Gained(admitted, admitted', KeysOf(eligible[..i]))
    {
      ghost var earlier := admitted';
      EligibleIsOffered(w, page, r, address, eligible, i);
      t', admitted', full := ConsiderCandidate(w, r, address, depth, eligible[i], t', admitted', base);
      ExtendsFurther(admitted, earlier, admitted');
      GainOne(admitted, earlier, admitted', eligible, i);
      if full {
        GainToCut(admitted, admitted', eligible, i, page, r, address);
        return;
      }
    }
    GainPage(admitted, admitted', eligible, page, r, address);
  }

  ghost predicate Gained(admitted: map<string, Candidate>, later: map<string, Candidate>, keys: set<string>) {
    later.Keys == admitted.Keys + keys
  }

  lemma GainNothing(admitted: map<string, Candidate>, cs: seq<Candidate>)
    ensures Gained(admitted, admitted, KeysOf(cs[..0]))
  {
  }

  lemma GainOne(admitted: map<string, Candidate>, earlier: map<string, Candidate>, later: map<string, Candidate>, cs: seq<Candidate>, i: nat)
    requires i < |cs| && Gained(admitted, earlier, KeysOf(cs[..i])) && later.Keys == earlier.Keys + {Key(cs[i])}
    ensures Gained(admitted, later, KeysOf(cs[..i + 1]))
  {
    assert cs[..i + 1] == cs[..i] + [cs[i]];
    assert KeysOf(cs[..i + 1]) == KeysOf(cs[..i]) + {Key(cs[i])};
  }

  lemma GainToCut(admitted: map<string, Candidate>, later: map<string, Candidate>, eligible: seq<Candidate>, i: nat, page: Page, r: Request, address: string)
    requires multiset(eligible) == multiset(EligibleOf(page.transactions, r, address)) && Sorted(KeyBefore, eligible) && i < |eligible|
    requires Gained(admitted, later, KeysOf(eligible[..i + 1]))
    ensures exists last :: last in PageKeys(page, r, address) && later.Keys == admitted.Keys + PageKeysTo(page, r, address, last)
  {
    KeysToCut(eligible, i, page, r, address);
  }

  lemma GainPage(admitted: map<string, Candidate>, later: map<string, Candidate>, eligible: seq<Candidate>, page: Page, r: Request, address: string)
    requires multiset(eligible) == multiset(EligibleOf(page.transactions, r, address)) && Gained(admitted, later, KeysOf(eligible[..|eligible|]))
    ensures later.Keys == admitted.Keys + PageKeys(page, r, address) && PageSeen(page, r, address, later)
  {
    assert eligible[..|eligible|] == eligible;
    KeysOfPage(eligible, page, r, address);
    PageIsSeen(page, r, address, later);
  }

  lemma ExtendsItself(admitted: map<string, Candidate>)
    ensures Extends(admitted, admitted)
  {
  }

  lemma ExtendsFurther(a: map<string, Candidate>, b: map<string, Candidate>, c: map<string, Candidate>)
    requires Extends(a, b) && Extends(b, c)
    ensures Extends(a, c)
  {
  }

  lemma EligibleIsOffered(w: World, page: Page, r: Request, address: string, eligible: seq<Candidate>, i: nat)
    requires PageOffered(w, r, address, page) && (forall c :: c in eligible <==> OnPage(page, r, address, c)) && i < |eligible|
    ensures Offered(w, r, address, eligible[i])
    ensures EligibleTransaction(eligible[i].transaction, r) && EligibleTransfer(eligible[i].transfer, r, address)
  {
    assert eligible[i] in eligible;
    assert OnPage(page, r, address, eligible[i]);
  }

  lemma PageIsSeen(page: Page, r: Request, address: string, admitted: map<string, Candidate>)
    requires PageKeys(page, r, address) <= admitted.Keys
    ensures PageSeen(page, r, address, admitted)
  {
    EligibleAreOnPage(page, r, address);
  }
}
