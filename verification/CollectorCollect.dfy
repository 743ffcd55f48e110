/** Collect itself: levels, addresses, pages, and how each way of stopping is reported. */
module CollectorCollect {
  import opened Wrappers
  import opened Chain
  import opened CollectorModel
  import opened CollectorTables
  import opened CollectorRuns
  import opened Order

  datatype Flow = Continue | LimitReached | Broken(fault: Fault)

  ghost predicate PageSeenAt(w: World, r: Request, address: string, j: nat, admitted: map<string, Candidate>) {
    CursorAt(w, address, j).Some? ==> PageSeen(w.page(address, CursorAt(w, address, j).value), r, address, admitted)
  }

  ghost predicate PagesSeen(w: World, r: Request, address: string, i: nat, admitted: map<string, Candidate>) {
    forall j: nat {:trigger PageSeenAt(w, r, address, j, admitted)} :: j < i ==> PageSeenAt(w, r, address, j, admitted)
  }

  lemma NoPageToSee(w: World, r: Request, address: string, admitted: map<string, Candidate>)
    ensures CursorAt(w, address, 0) == Some("") && PagesSeen(w, r, address, 0, admitted) && SeenCursors(w, address, 0, {""})
  {
  }

  lemma NextPageSeen(w: World, r: Request, address: string, i: nat, admitted: map<string, Candidate>, later: map<string, Candidate>)
    requires PagesSeen(w, r, address, i, admitted) && Extends(admitted, later) && PageSeenAt(w, r, address, i, later)
    ensures PagesSeen(w, r, address, i + 1, later)
  {
    forall j: nat | j < i + 1 ensures PageSeenAt(w, r, address, j, later) {
      if j < i { assert PageSeenAt(w, r, address, j, admitted); }
    }
  }

  lemma LastPageExhausts(w: World, r: Request, address: string, i: nat, admitted: map<string, Candidate>)
    requires CursorAt(w, address, i).None? && PagesSeen(w, r, address, i, admitted)
    ensures Exhausted(w, r, address, admitted)
  {
    forall c | Offered(w, r, address, c) ensures Key(c) in admitted {
      var j: nat :| OnPageAt(w, r, address, j, c);
      if j >= i { NoCursorAfterEnd(w, address, i, j); }
      assert PageSeenAt(w, r, address, j, admitted);
    }
  }

  lemma PageIsOffered(w: World, r: Request, address: string, i: nat)
    requires CursorAt(w, address, i).Some?
    ensures PageOffered(w, r, address, w.page(address, CursorAt(w, address, i).value))
  {
    var page := w.page(address, CursorAt(w, address, i).value);
    forall c | OnPage(page, r, address, c) ensures Offered(w, r, address, c) { assert OnPageAt(w, r, address, i, c); }
  }

  // ----- what cuts a walk short -----

  /** The first n fetches met no fault. */
  predicate Quiet(w: World, n: int) {
    forall k: nat :: k < n ==> w.fault(k).None?
  }

  /** The address's i-th page links back to an earlier cursor. */
  predicate Repeats(w: World, address: string, i: nat, j: nat) {
    i < j && CursorAt(w, address, i).Some? && CursorAt(w, address, i) == CursorAt(w, address, j)
  }

  ghost predicate RepeatsCursor(w: World, r: Request, depth: nat) {
    exists a, i: nat, j: nat :: Within(w, r, a, depth) && Repeats(w, a, i, j)
  }

  ghost predicate Affordable(w: World, r: Request, fetches: nat) {
    r.transferLimit >= 0 && Spent(w, fetches) <= 200 + 6 * r.transferLimit
  }

  /** Why a walk that has made that many fetches was cut short: the last of them met the fault, or cost more than the
      budget had left, or an address repeated a cursor; and nothing was wrong before. */
  ghost predicate Provoked(w: World, r: Request, fetches: nat, depth: nat, fault: Fault) {
    && fetches > 0 && Quiet(w, fetches - 1)
    && (if !Affordable(w, r, fetches) then fault == ResourceLimit
        else w.fault(fetches - 1) == Some(fault) || (Quiet(w, fetches) && fault == ResourceLimit && RepeatsCursor(w, r, depth)))
  }

  /** Every fetch was answered, but for the last one when it could not be paid for or met a fault. */
  ghost predicate EachAnswered(p: Provider, r: Request)
    reads p
  {
    |p.answered| == if Affordable(p.world, r, p.fetches) && Quiet(p.world, p.fetches) then p.fetches else p.fetches - 1
  }

  /** Every fetch so far was paid for, met no fault and was answered. */
  ghost predicate Unbroken(p: Provider, r: Request)
    reads p
  {
    |p.answered| == p.fetches && p.Valid() && r.transferLimit >= 0 && p.budget == CallBudget(r.transferLimit) && p.remaining >= 0 && Quiet(p.world, p.fetches)
  }

  lemma ProvokedBeyond(w: World, r: Request, fetches: nat, depth: nat, m: nat, fault: Fault)
    requires Provoked(w, r, fetches, depth, fault) && depth <= m
    ensures Provoked(w, r, fetches, m, fault)
  {
    if RepeatsCursor(w, r, depth) {
      var a, i: nat, j: nat :| Within(w, r, a, depth) && Repeats(w, a, i, j);
      WithinGrows(w, r, a, depth, m);
    }
  }

  /** A fetch that is refused is refused for a reason. */
  lemma FetchProvoked(p: Provider, r: Request, depth: nat, fault: Fault)
    requires p.Valid() && r.transferLimit >= 0 && p.budget == CallBudget(r.transferLimit) && p.fetches > 0 && Quiet(p.world, p.fetches - 1)
    requires if p.remaining < 0 then fault == ResourceLimit else p.world.fault(p.fetches - 1) == Some(fault)
    ensures Provoked(p.world, r, p.fetches, depth, fault) && (|p.answered| == p.fetches - 1 ==> EachAnswered(p, r))
  {
  }

  /** The cursors seen are those of the first pages. */
  ghost predicate SeenCursors(w: World, address: string, i: nat, seen: set<string>) {
    forall c :: c in seen ==> exists j: nat :: j <= i && CursorAt(w, address, j) == Some(c)
  }

  lemma SeenNext(w: World, address: string, i: nat, seen: set<string>, next: string)
    requires i > 0 && SeenCursors(w, address, i - 1, seen) && CursorAt(w, address, i) == Some(next)
    ensures SeenCursors(w, address, i, seen + {next})
  {
  }

  lemma RepeatProvoked(p: Provider, r: Request, address: string, i: nat, seen: set<string>, next: string, depth: nat)
    requires Unbroken(p, r) && p.fetches > 0 && Within(p.world, r, address, depth)
    requires i > 0 && SeenCursors(p.world, address, i - 1, seen) && CursorAt(p.world, address, i) == Some(next) && next in seen
    ensures Provoked(p.world, r, p.fetches, depth, ResourceLimit)
  {
    var j: nat :| j <= i - 1 && CursorAt(p.world, address, j) == Some(next);
    assert Repeats(p.world, address, j, i);
  }

  lemma CursorNext(w: World, address: string, i: nat, cursor: string)
    requires CursorAt(w, address, i) == Some(cursor)
    ensures var next := w.page(address, cursor).next; CursorAt(w, address, i + 1) == if next == "" then None else Some(next)
  {
  }

  /** A walk goes on, or reaches its limit, with nothing wrong; a broken one was provoked. */
  ghost predicate EndsAs(p: Provider, r: Request, depth: nat, flow: Flow)
    reads p
  {
    if flow.Broken? then p.Valid() && EachAnswered(p, r) && Provoked(p.world, r, p.fetches, depth, flow.fault) else Unbroken(p, r)
  }

  lemma WalkGoesOn(p: Provider, r: Request, depth: nat, flow: Flow)
    requires EndsAs(p, r, depth, flow) && !flow.Broken?
    ensures Unbroken(p, r)
  {
  }

  lemma EndsUnbroken(p: Provider, r: Request, depth: nat)
    requires Unbroken(p, r)
    ensures p.remaining >= 0 && EndsAs(p, r, depth, Continue) && EndsAs(p, r, depth, LimitReached)
  {
  }

  lemma ProvokedEnds(p: Provider, r: Request, depth: nat, fault: Fault)
    requires Unbroken(p, r) && Provoked(p.world, r, p.fetches, depth, fault)
    ensures EndsAs(p, r, depth, Broken(fault))
  {
  }

  // ----- what has been gathered, and in what order -----

  /** The keys on an answered page. */
  ghost function KeysOfAsk(w: World, r: Request, a: Ask): set<string> {
    var cursor := CursorAt(w, a.address, a.index);
    if cursor.None? then {} else PageKeys(w.page(a.address, cursor.value), r, a.address)
  }

  ghost function KeysOfAskTo(w: World, r: Request, a: Ask, last: string): set<string> {
    set k | k in KeysOfAsk(w, r, a) && !Before(last, k)
  }

  ghost function KeysAnswered(w: World, r: Request, asks: seq<Ask>): set<string> {
    if asks == [] then {} else KeysAnswered(w, r, asks[..|asks| - 1]) + KeysOfAsk(w, r, asks[|asks| - 1])
  }

  /** Every eligible transfer on every answered page is held under its key, and nothing else. */
  ghost predicate Gathered(w: World, r: Request, asks: seq<Ask>, admitted: map<string, Candidate>) {
    admitted.Keys == KeysAnswered(w, r, asks)
  }

  /** At the Transfer Limit the last page counts only up to some key on it. */
  ghost predicate GatheredToLimit(w: World, r: Request, asks: seq<Ask>, admitted: map<string, Candidate>) {
    asks != [] && CutSomewhere(w, r, asks[..|asks| - 1], asks[|asks| - 1], admitted.Keys)
  }

  ghost predicate CutSomewhere(w: World, r: Request, asks: seq<Ask>, a: Ask, keys: set<string>) {
    exists last :: CutAfter(w, r, asks, a, keys, last)
  }

  ghost predicate CutAfter(w: World, r: Request, asks: seq<Ask>, a: Ask, keys: set<string>, last: string) {
    last in KeysOfAsk(w, r, a) && keys == KeysAnswered(w, r, asks) + KeysOfAskTo(w, r, a, last)
  }

  ghost predicate GatheredAs(w: World, r: Request, asks: seq<Ask>, admitted: map<string, Candidate>, flow: Flow) {
    if flow == LimitReached then GatheredToLimit(w, r, asks, admitted) else Gathered(w, r, asks, admitted)
  }

  lemma GatheredEither(w: World, r: Request, asks: seq<Ask>, admitted: map<string, Candidate>, flow: Flow)
    requires GatheredAs(w, r, asks, admitted, flow)
    ensures if flow == LimitReached then GatheredToLimit(w, r, asks, admitted) else Gathered(w, r, asks, admitted)
  {
  }

  lemma GatherOn(w: World, r: Request, asks: seq<Ask>, admitted: map<string, Candidate>)
    ensures GatheredAs(w, r, asks, admitted, Continue) <==> Gathered(w, r, asks, admitted)
    ensures forall fault :: GatheredAs(w, r, asks, admitted, Broken(fault)) <==> Gathered(w, r, asks, admitted)
  {
  }

  lemma GatherPage(w: World, r: Request, asks: seq<Ask>, a: Ask, cursor: string, admitted: map<string, Candidate>, later: map<string, Candidate>)
    requires Gathered(w, r, asks, admitted) && CursorAt(w, a.address, a.index) == Some(cursor)
    requires later.Keys == admitted.Keys + PageKeys(w.page(a.address, cursor), r, a.address)
    ensures Gathered(w, r, asks + [a], later)
  {
    assert (asks + [a])[..|asks|] == asks;
    hide PageKeys, CursorAt;
  }

  lemma GatherCut(w: World, r: Request, asks: seq<Ask>, a: Ask, cursor: string, admitted: map<string, Candidate>, later: map<string, Candidate>, last: string)
    requires Gathered(w, r, asks, admitted) && CursorAt(w, a.address, a.index) == Some(cursor)
    requires last in PageKeys(w.page(a.address, cursor), r, a.address)
    requires later.Keys == admitted.Keys + PageKeysTo(w.page(a.address, cursor), r, a.address, last)
    ensures GatheredToLimit(w, r, asks + [a], later)
  {
    hide PageKeys, CursorAt;
    assert (asks + [a])[..|asks|] == asks;
    assert KeysOfAskTo(w, r, a, last) == PageKeysTo(w.page(a.address, cursor), r, a.address, last);
    assert CutAfter(w, r, asks, a, later.Keys, last);
  }

  /** The address is no nearer to the target than this level. */
  ghost predicate NewAt(w: World, r: Request, address: string, depth: nat) {
    Within(w, r, address, depth) && (depth > 0 && KeysDetermineTransfers(w, r) ==> !Within(w, r, address, depth - 1))
  }

  ghost predicate LastEnded(w: World, asks: seq<Ask>)
    requires asks != []
  {
    var last := asks[|asks| - 1];
    CursorAt(w, last.address, last.index + 1).None?
  }

  /** The page that may be asked for next: the following one of the same address, or the first one of the next address,
      level by level and in string order on each level, once the last address has no more. */
  ghost predicate MayAsk(w: World, r: Request, asks: seq<Ask>, a: Ask) {
    && CursorAt(w, a.address, a.index).Some? && NewAt(w, r, a.address, a.depth)
    && (if a.index > 0 then asks != [] && asks[|asks| - 1] == Ask(a.depth, a.address, a.index - 1)
        else asks == [] || (LastEnded(w, asks) && Later(asks[|asks| - 1], a)))
  }

  predicate Later(a: Ask, b: Ask) {
    a.depth < b.depth || (a.depth == b.depth && Before(a.address, b.address))
  }

  ghost predicate Scheduled(w: World, r: Request, asks: seq<Ask>) {
    forall k {:trigger asks[k]} :: 0 <= k < |asks| ==> MayAsk(w, r, asks[..k], asks[k])
  }

  lemma ScheduleOne(w: World, r: Request, asks: seq<Ask>, a: Ask)
    requires Scheduled(w, r, asks) && MayAsk(w, r, asks, a)
    ensures Scheduled(w, r, asks + [a])
  {
    var all := asks + [a];
    hide MayAsk;
    forall k | 0 <= k < |all| ensures MayAsk(w, r, all[..k], all[k]) {
      assert all[..k] == if k < |asks| then asks[..k] else asks;
    }
  }

  /** All pages of the address have been answered, last of all. */
  ghost predicate Ended(w: World, asks: seq<Ask>, depth: nat, address: string) {
    asks != [] && LastEnded(w, asks) && asks[|asks| - 1].depth == depth && asks[|asks| - 1].address == address
  }

  lemma AskFollowing(w: World, r: Request, asks: seq<Ask>, a: Ask)
    requires MayAsk(w, r, asks, a)
    ensures CursorAt(w, a.address, a.index + 1).Some? ==> MayAsk(w, r, asks + [a], Ask(a.depth, a.address, a.index + 1))
    ensures CursorAt(w, a.address, a.index + 1).None? ==> Ended(w, asks + [a], a.depth, a.address)
  {
    hide CursorAt, NewAt;
  }

  /** A new level may begin. */
  ghost predicate LevelBegins(w: World, asks: seq<Ask>, depth: nat) {
    asks == [] || (LastEnded(w, asks) && asks[|asks| - 1].depth < depth)
  }

  /** The frontier of a level: new addresses, in string order. */
  ghost predicate FreshLevel(w: World, r: Request, frontier: seq<string>, depth: nat) {
    && frontier != [] && (forall a :: a in frontier ==> NewAt(w, r, a, depth))
    && forall i, j :: 0 <= i < j < |frontier| ==> Before(frontier[i], frontier[j])
  }

  lemma FreshIsNotEmpty(w: World, r: Request, frontier: seq<string>, depth: nat)
    requires FreshLevel(w, r, frontier, depth)
    ensures frontier != []
  {
  }

  lemma AskNextAddress(w: World, r: Request, asks: seq<Ask>, frontier: seq<string>, depth: nat, i: nat)
    requires FreshLevel(w, r, frontier, depth) && i < |frontier|
    requires if i == 0 then LevelBegins(w, asks, depth) else Ended(w, asks, depth, frontier[i - 1])
    ensures MayAsk(w, r, asks, Ask(depth, frontier[i], 0))
  {
    assert CursorAt(w, frontier[i], 0) == Some("");
    assert frontier[i] in frontier;
    hide NewAt, CursorAt;
  }

  /** Fetch and admit the page behind one cursor. */
  method CollectPage(p: Provider, r: Request, address: string, cursor: string, ghost i: nat, depth: nat, t: Tally,
                     ghost admitted: map<string, Candidate>, ghost base: set<string>)
    returns (t': Tally, ghost admitted': map<string, Candidate>, flow: Flow, next: string)
    requires Unbroken(p, r) && Running(p.world, r, t, admitted, base, depth)
    requires Within(p.world, r, address, depth) && address in t.visited
    requires CursorAt(p.world, address, i) == Some(cursor) && PagesSeen(p.world, r, address, i, admitted)
    requires Gathered(p.world, r, p.answered, admitted) && Scheduled(p.world, r, p.answered) && MayAsk(p.world, r, p.answered, Ask(depth, address, i))
    modifies p`fetches, p`remaining, p`sent, p`answered
    ensures GatheredAs(p.world, r, p.answered, admitted', flow) && Scheduled(p.world, r, p.answered)
    ensures p.answered == old(p.answered) + if flow.Broken? then [] else [Ask(depth, address, i)]
    ensures EndsAs(p, r, depth, flow) && p.fetches > 0 && p.remaining < old(p.remaining) && (!flow.Broken? ==> p.remaining >= 0)
    ensures flow == Continue ==> next == p.world.page(address, cursor).next
    ensures if flow == LimitReached then Full(p.world, r, t', admitted', base, depth) else Running(p.world, r, t', admitted', base, depth)
    ensures Extends(admitted, admitted') && t.visited <= t'.visited
    ensures flow == Continue ==> PagesSeen(p.world, r, address, i + 1, admitted')
  {
    hide Running, Full, PagesSeen, Gathered, GatheredToLimit, Scheduled, MayAsk, Extends, PageKeys;
    t', admitted', next := t, admitted, "";
    ExtendsItself(admitted);
    ghost var ask, asked := Ask(depth, address, i), p.answered;
    var fetched := p.Fetch(address, cursor, ask);
    if fetched.Interrupted? {
      flow := Broken(fetched.fault);
      FetchProvoked(p, r, depth, fetched.fault);
      assert asked + [] == asked;
      GatherOn(p.world, r, p.answered, admitted);
      return;
    }
    PageIsOffered(p.world, r, address, i);
    var full;
    t', admitted', full := AdmitPage(p.world, r, fetched.page, address, depth, t, admitted, base);
    flow, next := if full then LimitReached else Continue, fetched.page.next;
    ScheduleOne(p.world, r, asked, ask);
    if full {
      ghost var last :| last in PageKeys(fetched.page, r, address) && admitted'.Keys == admitted.Keys + PageKeysTo(fetched.page, r, address, last);
      GatherCut(p.world, r, asked, ask, cursor, admitted, admitted', last);
    } else {
      GatherPage(p.world, r, asked, ask, cursor, admitted, admitted');
    }
    if !full { NextPageSeen(p.world, r, address, i, admitted, admitted'); }
  }

  /** All pages of one address, following NextCursor until it is empty. */
  method CollectAddress(p: Provider, r: Request, address: string, depth: nat, t: Tally,
                        ghost admitted: map<string, Candidate>, ghost base: set<string>)
    returns (t': Tally, ghost admitted': map<string, Candidate>, flow: Flow)
    requires Unbroken(p, r) && Running(p.world, r, t, admitted, base, depth)
    requires Within(p.world, r, address, depth) && address in t.visited
    requires Gathered(p.world, r, p.answered, admitted) && Scheduled(p.world, r, p.answered) && MayAsk(p.world, r, p.answered, Ask(depth, address, 0))
    modifies p`fetches, p`remaining, p`sent, p`answered
    ensures GatheredAs(p.world, r, p.answered, admitted', flow) && Scheduled(p.world, r, p.answered)
    ensures flow == Continue ==> Ended(p.world, p.answered, depth, address)
    ensures EndsAs(p, r, depth, flow)
    ensures if flow == LimitReached then Full(p.world, r, t', admitted', base, depth) else Running(p.world, r, t', admitted', base, depth)
    ensures Extends(admitted, admitted') && t.visited <= t'.visited
    ensures flow == Continue ==> Exhausted(p.world, r, address, admitted')
  {
    hide *;
    EndsUnbroken(p, r, depth);
    ExtendsItself(admitted);
    t', admitted' := t, admitted;
    var cursor, next := "", "";
    var seenCursors := {""};
    ghost var i: nat := 0;
    NoPageToSee(p.world, r, address, admitted);
    while true
      invariant Unbroken(p, r) && p.remaining >= 0 && SeenCursors(p.world, address, i, seenCursors)
      invariant Running(p.world, r, t', admitted', base, depth)
      invariant Gathered(p.world, r, p.answered, admitted') && Scheduled(p.world, r, p.answered) && MayAsk(p.world, r, p.answered, Ask(depth, address, i))
      invariant Extends(admitted, admitted') && t.visited <= t'.visited
      invariant CursorAt(p.world, address, i) == Some(cursor) && PagesSeen(p.world, r, address, i, admitted')
      decreases p.remaining
    {
      ghost var earlier, asked := admitted', p.answered;
      t', admitted', flow, next := CollectPage(p, r, address, cursor, i, depth, t', admitted', base);
      ExtendsFurther(admitted, earlier, admitted');
      if flow != Continue {
        return;
      }
      WalkGoesOn(p, r, depth, flow);
      AskFollowing(p.world, r, asked, Ask(depth, address, i));
      GatherOn(p.world, r, p.answered, admitted');
      CursorNext(p.world, address, i, cursor);
      i := i + 1;
      if next == "" {
        LastPageExhausts(p.world, r, address, i, admitted');
        return;
      }
      if next in seenCursors {
        flow := Broken(ResourceLimit);
        RepeatProvoked(p, r, address, i, seenCursors, next, depth);
        ProvokedEnds(p, r, depth, ResourceLimit);
        return;
      }
      SeenNext(p.world, address, i, seenCursors, next);
      seenCursors := seenCursors + {next};
      cursor := next;
    }
  }

  ghost predicate AllExhausted(w: World, r: Request, addresses: set<string>, admitted: map<string, Candidate>) {
    forall a {:trigger Exhausted(w, r, a, admitted)} :: a in addresses ==> Exhausted(w, r, a, admitted)
  }

  lemma OneMoreExhausted(w: World, r: Request, addresses: set<string>, address: string, admitted: map<string, Candidate>, later: map<string, Candidate>)
    requires AllExhausted(w, r, addresses, admitted) && Extends(admitted, later) && Exhausted(w, r, address, later)
    ensures AllExhausted(w, r, addresses + {address}, later)
  {
    forall a | a in addresses + {address} ensures Exhausted(w, r, a, later) {
      if a in addresses { assert Exhausted(w, r, a, admitted); }
    }
  }

  /** Every address of one frontier. */
  method CollectLevel(p: Provider, r: Request, frontier: seq<string>, depth: nat, t: Tally,
                      ghost admitted: map<string, Candidate>, ghost done: set<string>)
    returns (t': Tally, ghost admitted': map<string, Candidate>, flow: Flow)
    requires Unbroken(p, r) && Running(p.world, r, t, admitted, t.visited, depth)
    requires forall a :: a in frontier ==> a in t.visited && Within(p.world, r, a, depth)
    requires AllExhausted(p.world, r, done, admitted)
    requires Gathered(p.world, r, p.answered, admitted) && Scheduled(p.world, r, p.answered)
    requires FreshLevel(p.world, r, frontier, depth) && LevelBegins(p.world, p.answered, depth)
    modifies p`fetches, p`remaining, p`sent, p`answered
    ensures GatheredAs(p.world, r, p.answered, admitted', flow) && Scheduled(p.world, r, p.answered)
    ensures flow == Continue ==> LevelBegins(p.world, p.answered, depth + 1)
    ensures EndsAs(p, r, depth, flow)
    ensures if flow == LimitReached then Full(p.world, r, t', admitted', t.visited, depth) else Running(p.world, r, t', admitted', t.visited, depth)
    ensures Extends(admitted, admitted')
    ensures flow == Continue ==> AllExhausted(p.world, r, done + (set a | a in frontier), admitted')
  {
    hide Running, Full, AllExhausted, Provoked, Unbroken, Gathered, Scheduled, MayAsk, FreshLevel, Extends, LastEnded;
    t', admitted', flow := t, admitted, Continue;
    ExtendsItself(admitted);
    FreshIsNotEmpty(p.world, r, frontier, depth);
    ghost var covered := done;
    for i := 0 to |frontier|
      invariant Unbroken(p, r) && Running(p.world, r, t', admitted', t.visited, depth) && t.visited <= t'.visited
      invariant Extends(admitted, admitted') && Gathered(p.world, r, p.answered, admitted') && Scheduled(p.world, r, p.answered)
      invariant if i == 0 then LevelBegins(p.world, p.answered, depth) else Ended(p.world, p.answered, depth, frontier[i - 1])
      invariant covered == done + (set a | a in frontier[..i]) && AllExhausted(p.world, r, covered, admitted')
    {
      ghost var earlier := admitted';
      AskNextAddress(p.world, r, p.answered, frontier, depth, i);
      t', admitted', flow := CollectAddress(p, r, frontier[i], depth, t', admitted', t.visited);
      ExtendsFurther(admitted, earlier, admitted');
      if flow != Continue {
        return;
      }
      OneMoreExhausted(p.world, r, covered, frontier[i], earlier, admitted');
      assert frontier[..i + 1] == frontier[..i] + [frontier[i]];
      covered := covered + {frontier[i]};
    }
    flow := Continue;
    assert frontier[..|frontier|] == frontier;
  }

  // ----- what a finished level has established -----

  /** The visited addresses are exactly those within k hops. */
  ghost predicate Exact(w: World, r: Request, visited: set<string>, k: nat) {
    && (forall a {:trigger Within(w, r, a, k)} :: a in visited ==> Within(w, r, a, k))
    && (KeysDetermineTransfers(w, r) ==> forall a {:trigger Within(w, r, a, k)} :: Within(w, r, a, k) ==> a in visited)
  }

  lemma LinkedIsVisited(w: World, r: Request, base: set<string>, visited: set<string>, admitted: map<string, Candidate>, depth: nat, from: string, to: string)
    requires KeysDetermineTransfers(w, r) && WalkSound(w, r, visited, admitted, depth) && AllExhausted(w, r, base, admitted)
    requires forall k :: k in admitted ==> Key(admitted[k]) == k
    requires from in base && Linked(w, r, from, to)
    ensures to in visited
  {
    var c :| Offered(w, r, from, c) && (to == c.transfer.from || to == c.transfer.to);
    assert Exhausted(w, r, from, admitted);
    var k := Key(c);
    assert Reached(w, r, visited, depth, admitted[k]);
    var a :| Within(w, r, a, depth) && Offered(w, r, a, admitted[k]);
  }

  lemma LevelIsExact(w: World, r: Request, base: set<string>, visited: set<string>, admitted: map<string, Candidate>, depth: nat)
    requires Exact(w, r, base, depth) && base <= visited && WalkSound(w, r, visited, admitted, depth) && AllExhausted(w, r, base, admitted)
    requires forall k :: k in admitted ==> Key(admitted[k]) == k
    ensures Exact(w, r, visited, depth + 1)
  {
    if KeysDetermineTransfers(w, r) {
      forall a | Within(w, r, a, depth + 1) ensures a in visited {
        if !Within(w, r, a, depth) {
          var b :| Within(w, r, b, depth) && Linked(w, r, b, a);
          LinkedIsVisited(w, r, base, visited, admitted, depth, b, a);
        }
      }
    }
  }

  /** Nothing is reachable beyond k hops. */
  ghost predicate ReachEndsAt(w: World, r: Request, k: nat) {
    forall a, m: nat :: Within(w, r, a, m) ==> Within(w, r, a, k)
  }

  lemma NothingNewIsTheEnd(w: World, r: Request, base: set<string>, admitted: map<string, Candidate>, depth: nat)
    requires KeysDetermineTransfers(w, r) && Exact(w, r, base, depth) && WalkSound(w, r, base, admitted, depth) && AllExhausted(w, r, base, admitted)
    requires forall k :: k in admitted ==> Key(admitted[k]) == k
    ensures ReachEndsAt(w, r, depth)
  {
    forall a, b | a in base && Linked(w, r, a, b) ensures b in base { LinkedIsVisited(w, r, base, base, admitted, depth, a, b); }
    forall a, m: nat | Within(w, r, a, m) ensures Within(w, r, a, depth) {
      ClosedHoldsAll(w, r, base, a, m);
      assert Within(w, r, a, depth);
    }
  }

  /** Every transfer offered within k hops is admitted under its key. */
  ghost predicate Complete(w: World, r: Request, k: nat, admitted: map<string, Candidate>) {
    forall c :: OfferedWithin(w, r, k, c) ==> Key(c) in admitted
  }

  lemma ExhaustedIsComplete(w: World, r: Request, base: set<string>, admitted: map<string, Candidate>, depth: nat)
    requires KeysDetermineTransfers(w, r) && Exact(w, r, base, depth) && AllExhausted(w, r, base, admitted)
    ensures Complete(w, r, depth, admitted)
  {
    forall c | OfferedWithin(w, r, depth, c) ensures Key(c) in admitted {
      var a :| Within(w, r, a, depth) && Offered(w, r, a, c);
      assert Exhausted(w, r, a, admitted);
    }
  }

  // ----- Collect -----

  datatype Outcome = Collected(collection: Collection) | Failure(fault: Fault) | InvalidRequest

  function InterruptionStopReason(fault: Fault): string {
    match fault
    case RateLimited => STOP_RATE_LIMITED
    case Unavailable => STOP_UNAVAILABLE
    case ResourceLimit => STOP_RESOURCE_LIMIT
    case Other => ""
  }

  /** Coverage of an interrupted collection: never empty, never sure of itself. */
  predicate PartialCoverage(r: Request, c: Collection) {
    && c.partial && c.stopReason in {STOP_RATE_LIMITED, STOP_UNAVAILABLE, STOP_RESOURCE_LIMIT}
    && 0 < TransferCount(c.transactions) < r.transferLimit
    && c.confidence == PartialConfidence(TransferCount(c.transactions), r.transferLimit)
  }

  predicate FullCoverage(r: Request, c: Collection) {
    && !c.partial
    && c.stopReason in {STOP_NO_ELIGIBLE, STOP_SOURCE_EXHAUSTED, STOP_TRAVERSAL_DEPTH, STOP_TRANSFER_LIMIT}
    && TransferCount(c.transactions) <= r.transferLimit
    && (c.stopReason == STOP_TRANSFER_LIMIT <==> TransferCount(c.transactions) == r.transferLimit)
    && (c.stopReason == STOP_NO_ELIGIBLE <==> TransferCount(c.transactions) == 0)
    && c.confidence == (if c.stopReason == STOP_NO_ELIGIBLE then 0 else 100)
  }

  /** What a collection that ran to its end says about the provider's world. */
  ghost predicate Conclusive(w: World, r: Request, c: Collection, admitted: map<string, Candidate>)
    requires r.traversalDepth >= 1 && c.reachedDepth >= 0
  {
    && Complete(w, r, r.traversalDepth - 1, admitted)
    && (exists a :: Within(w, r, a, c.reachedDepth) && (c.reachedDepth > 0 ==> !Within(w, r, a, c.reachedDepth - 1)))
    && (if c.stopReason == STOP_TRAVERSAL_DEPTH then c.reachedDepth == r.traversalDepth
        else c.reachedDepth < r.traversalDepth && ReachEndsAt(w, r, c.reachedDepth))
  }

  lemma DivisionBounds(a: nat, b: int)
    requires b > 0
    ensures a / b * b <= a < (a / b + 1) * b && (a / b >= 75 ==> 75 * b <= a)
  {
    assert a == a / b * b + a % b;
    if a / b >= 75 { assert 75 * b <= a / b * b; }
  }

  /** The share of the Transfer Limit that was collected, in whole percent, but never above 75. */
  function PartialConfidence(collected: nat, limit: int): (confidence: int)
    requires limit > 0
    ensures 0 <= confidence <= 75
    ensures confidence < 75 ==> confidence * limit <= 100 * collected < (confidence + 1) * limit
    ensures confidence == 75 ==> 75 * limit <= 100 * collected
  {
    var share := 100 * collected / limit;
    DivisionBounds(100 * collected, limit);
    if share > 75 then 75 else share
  }

  /** interruptedCollection. */
  method InterruptedCollection(r: Request, t: Tally, fault: Fault, ghost admitted: map<string, Candidate>) returns (outcome: Outcome)
    requires ValidRequest(r) && TallySound(r, t, admitted) && |t.seen| < r.transferLimit
    ensures outcome.Collected? <==> t.seen != {} && fault != Other
    ensures outcome == Failure(fault) || (outcome.Collected? && Holds(outcome.collection, r, admitted)
              && PartialCoverage(r, outcome.collection) && outcome.collection.stopReason == InterruptionStopReason(fault)
              && outcome.collection.reachedDepth == t.reached)
  {
    hide TableSound, Holds;
    var collected := TransferMapCount(t.transactions);
    if collected == 0 || InterruptionStopReason(fault) == "" {
      return Failure(fault);
    }
    var c := CompletedCollection(t.transactions, t.reached, InterruptionStopReason(fault), true, PartialConfidence(collected, r.transferLimit), r, admitted);
    HeldCount(c, r, admitted);
    outcome := Collected(c);
  }

  lemma HeldCount(c: Collection, r: Request, admitted: map<string, Candidate>)
    requires Holds(c, r, admitted)
    ensures TransferCount(c.transactions) == |admitted|
  {
  }

  /** The walk at the start of a level: visited is exact, all but the frontier is exhausted. */
  ghost predicate AtStart(w: World, r: Request, t: Tally, admitted: map<string, Candidate>, frontier: seq<string>, done: set<string>, depth: nat) {
    && Running(w, r, t, admitted, t.visited, depth) && Exact(w, r, t.visited, depth)
    && t.visited == done + (set a | a in frontier) && AllExhausted(w, r, done, admitted)
    && depth < r.traversalDepth && (depth > 0 ==> t.seen != {})
    && FreshLevel(w, r, frontier, depth)
  }

  /** The walk at the end of a level none of whose addresses was cut short. */
  ghost predicate AtEnd(w: World, r: Request, t: Tally, admitted: map<string, Candidate>, base: set<string>, depth: nat) {
    Running(w, r, t, admitted, base, depth) && Exact(w, r, base, depth) && AllExhausted(w, r, base, admitted)
  }

  lemma OfferedWithinGrows(w: World, r: Request, k: nat, m: nat, c: Candidate)
    requires OfferedWithin(w, r, k, c) && k <= m
    ensures OfferedWithin(w, r, m, c)
  {
    var a :| Within(w, r, a, k) && Offered(w, r, a, c);
    WithinGrows(w, r, a, k, m);
  }

  lemma WalkDeeper(w: World, r: Request, visited: set<string>, admitted: map<string, Candidate>, depth: nat)
    requires WalkSound(w, r, visited, admitted, depth)
    ensures WalkSound(w, r, visited, admitted, depth + 1)
  {
    forall k | k in admitted ensures Reached(w, r, visited, depth + 1, admitted[k]) {
      assert Reached(w, r, visited, depth, admitted[k]);
      OfferedWithinGrows(w, r, depth, depth + 1, admitted[k]);
    }
    forall a | a in visited ensures Within(w, r, a, depth + 2) {
      assert Within(w, r, a, depth + 1);
      WithinGrows(w, r, a, depth + 1, depth + 2);
    }
  }

  /** The next level starts where this one ended. */
  lemma NextLevel(w: World, r: Request, t: Tally, admitted: map<string, Candidate>, base: set<string>, frontier: seq<string>, depth: nat, t': Tally)
    requires AtEnd(w, r, t, admitted, base, depth) && t.next != {} && depth + 1 < r.traversalDepth
    requires (forall a :: a in frontier <==> a in t.next) && t' == t.(next := {})
    requires forall i, j :: 0 <= i < j < |frontier| ==> Before(frontier[i], frontier[j])
    ensures AtStart(w, r, t', admitted, frontier, base, depth + 1)
  {
    KeysAreKeys(r, t, admitted);
    LevelIsExact(w, r, base, t.visited, admitted, depth);
    WalkDeeper(w, r, t.visited, admitted, depth);
    assert forall a :: a in t.next ==> NewAt(w, r, a, depth + 1);
    assert frontier != [] by {
      var a :| a in t.next;
      assert a in frontier;
    }
    hide TableSound, WalkSound, Exact, AllExhausted, KeysDetermineTransfers, Within, Total, NewAt;
  }

  lemma KeysAreKeys(r: Request, t: Tally, admitted: map<string, Candidate>)
    requires TallySound(r, t, admitted)
    ensures forall k :: k in admitted ==> Key(admitted[k]) == k
  {
    forall k | k in admitted ensures Key(admitted[k]) == k { assert Stored(t.transactions, admitted[k]); }
  }

  /** An address discovered on this level is one hop further than anything before. */
  lemma Discovered(w: World, r: Request, t: Tally, admitted: map<string, Candidate>, base: set<string>, depth: nat)
    requires AtEnd(w, r, t, admitted, base, depth) && t.next != {}
    ensures exists a :: Within(w, r, a, depth + 1) && (KeysDetermineTransfers(w, r) ==> !Within(w, r, a, depth))
  {
    var a :| a in t.next;
    assert Within(w, r, a, depth + 1);
  }

  lemma EndIsConclusive(w: World, r: Request, t: Tally, admitted: map<string, Candidate>, base: set<string>, depth: nat, c: Collection, newest: string)
    requires AtEnd(w, r, t, admitted, base, depth) && KeysDetermineTransfers(w, r) && depth < r.traversalDepth
    requires Within(w, r, newest, depth) && (depth > 0 ==> !Within(w, r, newest, depth - 1))
    requires c.reachedDepth == t.reached && r.traversalDepth >= 1 && c.stopReason != STOP_TRANSFER_LIMIT
    requires (t.next == {} <==> c.stopReason != STOP_TRAVERSAL_DEPTH) && (t.next != {} ==> depth + 1 == r.traversalDepth)
    ensures Conclusive(w, r, c, admitted)
  {
    hide KeysDetermineTransfers, TableSound, WalkSound, Exact, AllExhausted, Within, Total, Complete, ReachEndsAt;
    KeysAreKeys(r, t, admitted);
    ExhaustedIsComplete(w, r, base, admitted, depth);
    if t.next == {} {
      assert t.visited == base;
      NothingNewIsTheEnd(w, r, base, admitted, depth);
      CompleteBeyondTheEnd(w, r, depth, r.traversalDepth - 1, admitted);
    } else {
      Discovered(w, r, t, admitted, base, depth);
    }
  }

  /** The number of hops the held transfers reach: all their ends lie within it, and some end no nearer. */
  ghost predicate ReachesTo(w: World, r: Request, reached: int, admitted: map<string, Candidate>) {
    && reached >= 0
    && (forall k :: k in admitted ==> Within(w, r, admitted[k].transfer.from, reached) && Within(w, r, admitted[k].transfer.to, reached))
    && (reached > 0 && KeysDetermineTransfers(w, r) ==> exists a :: EndOf(admitted, a) && !Within(w, r, a, reached - 1))
  }

  /** An address new on this level stays in the walk: what reachedDepth is measured by. */
  ghost predicate Measured(w: World, r: Request, base: set<string>, depth: nat, newest: string) {
    Exact(w, r, base, depth) && newest in base && NewAt(w, r, newest, depth)
  }

  lemma ReachIs(w: World, r: Request, t: Tally, admitted: map<string, Candidate>, base: set<string>, depth: nat, newest: string)
    requires Sound(w, r, t, admitted, depth) && AtLevel(t, base, depth) && Measured(w, r, base, depth, newest)
    ensures ReachesTo(w, r, t.reached, admitted)
  {
    hide TableSound, KeysDetermineTransfers, TallySound, EndOf;
    forall a | a in t.visited ensures Within(w, r, a, t.reached) {
      if t.next == {} { assert a !in t.next && a in base && Within(w, r, a, depth); } else { assert Within(w, r, a, depth + 1); }
    }
    forall k | k in admitted ensures admitted[k].transfer.from in t.visited && admitted[k].transfer.to in t.visited {
      assert Reached(w, r, t.visited, depth, admitted[k]);
    }
    if t.reached > 0 && KeysDetermineTransfers(w, r) {
      TargetIsNear(w, r, t.reached - 1);
      var a := newest;
      if t.next != {} { a :| a in t.next; }
      assert !Within(w, r, a, t.reached - 1) && a in t.visited;
      assert EndOf(admitted, a);
    }
  }

  lemma TargetIsNear(w: World, r: Request, k: nat)
    ensures Within(w, r, r.target, k)
  {
    assert Within(w, r, r.target, 0);
    WithinGrows(w, r, r.target, 0, k);
  }

  lemma CompleteBeyondTheEnd(w: World, r: Request, k: nat, m: nat, admitted: map<string, Candidate>)
    requires Complete(w, r, k, admitted) && ReachEndsAt(w, r, k)
    ensures Complete(w, r, m, admitted)
  {
    forall c | OfferedWithin(w, r, m, c) ensures Key(c) in admitted {
      var a :| Within(w, r, a, m) && Offered(w, r, a, c);
      assert Within(w, r, a, k);
      assert OfferedWithin(w, r, k, c);
    }
  }

  lemma StartOfWalk(w: World, r: Request, t: Tally)
    requires ValidRequest(r) && t == Tally(map[], {}, {r.target}, {}, 0)
    ensures AtStart(w, r, t, map[], [r.target], {}, 0)
    ensures Gathered(w, r, [], map[]) && Scheduled(w, r, []) && LevelBegins(w, [], 0)
  {
    assert Within(w, r, r.target, 0);
    assert NewAt(w, r, r.target, 0) && [r.target][0] == r.target;
    WithinGrows(w, r, r.target, 0, 1);
  }

  /** completedCollection, with what the walk knows about its contents. */
  method CompleteWalk(w: World, r: Request, t: Tally, depth: nat, reached: nat, stopReason: string, confidence: int,
                   ghost admitted: map<string, Candidate>)
    returns (c: Collection)
    requires Sound(w, r, t, admitted, depth) && depth < r.traversalDepth
    ensures Holds(c, r, admitted) && AllWithin(w, r, admitted) && TransferCount(c.transactions) == |t.seen|
    ensures c.stopReason == stopReason && !c.partial && c.confidence == confidence && c.reachedDepth == reached
  {
    SoundIsWithin(w, r, t, admitted, depth);
    c := CompletedCollection(t.transactions, reached, stopReason, false, confidence, r, admitted);
  }

  ghost predicate AllWithin(w: World, r: Request, admitted: map<string, Candidate>) {
    r.traversalDepth >= 1 && forall k {:trigger admitted[k]} :: k in admitted ==> OfferedWithin(w, r, r.traversalDepth - 1, admitted[k])
  }

  lemma SoundIsWithin(w: World, r: Request, t: Tally, admitted: map<string, Candidate>, depth: nat)
    requires Sound(w, r, t, admitted, depth) && depth < r.traversalDepth
    ensures AllWithin(w, r, admitted)
  {
    forall k | k in admitted ensures OfferedWithin(w, r, r.traversalDepth - 1, admitted[k]) {
      assert Reached(w, r, t.visited, depth, admitted[k]);
      OfferedWithinGrows(w, r, depth, r.traversalDepth - 1, admitted[k]);
    }
  }

  /** What every Collection returned by Collect satisfies. */
  ghost predicate Faithful(w: World, r: Request, c: Collection, admitted: map<string, Candidate>) {
    && Holds(c, r, admitted) && AllWithin(w, r, admitted) && 0 <= c.reachedDepth <= r.traversalDepth && ReachesTo(w, r, c.reachedDepth, admitted)
    && (PartialCoverage(r, c) || FullCoverage(r, c))
    && (!c.partial && c.stopReason != STOP_TRANSFER_LIMIT && KeysDetermineTransfers(w, r) ==> Conclusive(w, r, c, admitted))
  }

  /** How a walk cut short by a fault is reported: as partial results, unless there are none or the fault has no stop
      reason. */
  ghost predicate Reports(outcome: Outcome, fault: Fault, admitted: map<string, Candidate>) {
    if fault == Other || admitted == map[] then outcome == Failure(fault)
    else outcome.Collected? && outcome.collection.partial && outcome.collection.stopReason == InterruptionStopReason(fault)
  }

  method InterruptedWalk(w: World, r: Request, t: Tally, fault: Fault, depth: nat, ghost admitted: map<string, Candidate>, ghost base: set<string>,
                         ghost newest: string)
    returns (outcome: Outcome)
    requires Measured(w, r, base, depth, newest)
    requires ValidRequest(r) && Running(w, r, t, admitted, base, depth) && depth < r.traversalDepth
    ensures Reports(outcome, fault, admitted) && !outcome.InvalidRequest? && (outcome.Collected? ==> Faithful(w, r, outcome.collection, admitted))
  {
    hide ReachesTo, Measured, Exact, NewAt, WalkSound, TableSound, AllWithin, Holds, Conclusive, KeysDetermineTransfers;
    ReachIs(w, r, t, admitted, base, depth, newest);
    SoundIsWithin(w, r, t, admitted, depth);
    outcome := InterruptedCollection(r, t, fault, admitted);
  }

  method LimitedWalk(w: World, r: Request, t: Tally, depth: nat, ghost admitted: map<string, Candidate>, ghost base: set<string>, ghost newest: string)
    returns (outcome: Outcome)
    requires Measured(w, r, base, depth, newest)
    requires ValidRequest(r) && Full(w, r, t, admitted, base, depth) && depth < r.traversalDepth
    ensures outcome.Collected? && !outcome.collection.partial && Faithful(w, r, outcome.collection, admitted)
    ensures outcome.collection.stopReason == STOP_TRANSFER_LIMIT
  {
    hide ReachesTo, Measured, Exact, NewAt, WalkSound, TableSound, AllWithin, Holds, Conclusive, KeysDetermineTransfers;
    ReachIs(w, r, t, admitted, base, depth, newest);
    var c := CompleteWalk(w, r, t, depth, t.reached, STOP_TRANSFER_LIMIT, 100, admitted);
    outcome := Collected(c);
  }

  method FinishedWalk(w: World, r: Request, t: Tally, depth: nat, ghost admitted: map<string, Candidate>, ghost base: set<string>, ghost newest: string)
    returns (outcome: Outcome)
    requires Measured(w, r, base, depth, newest)
    requires ValidRequest(r) && AtEnd(w, r, t, admitted, base, depth) && depth < r.traversalDepth
    requires depth > 0 ==> t.seen != {}
    requires t.next == {} || depth + 1 == r.traversalDepth
    ensures outcome.Collected? && !outcome.collection.partial && Faithful(w, r, outcome.collection, admitted)
    ensures outcome.collection.stopReason != STOP_TRANSFER_LIMIT
  {
    hide TableSound, WalkSound, Holds, AllWithin, Conclusive, ReachesTo, Exact, KeysDetermineTransfers, Within, Total;
    ReachIs(w, r, t, admitted, base, depth, newest);
    var c;
    if t.next == {} {
      if t.seen == {} {
        c := CompleteWalk(w, r, t, depth, 0, STOP_NO_ELIGIBLE, 0, admitted);
      } else {
        c := CompleteWalk(w, r, t, depth, t.reached, STOP_SOURCE_EXHAUSTED, 100, admitted);
      }
    } else {
      c := CompleteWalk(w, r, t, depth, t.reached, STOP_TRAVERSAL_DEPTH, 100, admitted);
    }
    if KeysDetermineTransfers(w, r) { EndIsConclusive(w, r, t, admitted, base, depth, c, newest); }
    outcome := Collected(c);
  }

  /** Pages were asked for in order, and what is held is what they showed. */
  ghost predicate KeptPages(w: World, r: Request, asks: seq<Ask>, admitted: map<string, Candidate>, flow: Flow) {
    Scheduled(w, r, asks) && GatheredAs(w, r, asks, admitted, flow)
  }

  function Stopped(c: Collection): Flow {
    if c.stopReason == STOP_TRANSFER_LIMIT then LimitReached else Continue
  }

  /** How Collect ended is decided by the world: whole when every fetch was paid for and met no fault and no cursor
      was repeated; otherwise cut short by what provoked it, and reported accordingly. */
  ghost predicate Accounted(p: Provider, r: Request, outcome: Outcome, admitted: map<string, Candidate>, cut: Option<Fault>)
    reads p
  {
    match cut
    case None => Unbroken(p, r) && outcome.Collected? && !outcome.collection.partial && KeptPages(p.world, r, p.answered, admitted, Stopped(outcome.collection))
    case Some(fault) =>
      && p.Valid() && r.traversalDepth >= 1 && EachAnswered(p, r) && Provoked(p.world, r, p.fetches, r.traversalDepth - 1, fault)
      && Reports(outcome, fault, admitted) && KeptPages(p.world, r, p.answered, admitted, Broken(fault))
  }

  /** Nothing in the world cuts a walk of that many fetches short. */
  ghost predicate Undisturbed(w: World, r: Request, fetches: nat) {
    Quiet(w, fetches) && Affordable(w, r, fetches) && r.traversalDepth >= 1 && !RepeatsCursor(w, r, r.traversalDepth - 1)
  }

  lemma UndisturbedIsFull(p: Provider, r: Request, outcome: Outcome, admitted: map<string, Candidate>, cut: Option<Fault>)
    requires Accounted(p, r, outcome, admitted, cut) && (outcome.Collected? ==> Faithful(p.world, r, outcome.collection, admitted))
    requires Undisturbed(p.world, r, p.fetches)
    ensures cut == None && outcome.Collected? && FullCoverage(r, outcome.collection)
  {
    hide RepeatsCursor, Holds, AllWithin, Conclusive, Spent;
  }

  /** Collect. The loop guard of the source (levels left, frontier not empty) holds at the start of every level,
      so the walk always ends inside the loop. */
  method Collect(p: Provider, r: Request) returns (outcome: Outcome, ghost admitted: map<string, Candidate>, ghost cut: Option<Fault>)
    requires p.Valid()
    modifies p
    ensures p.Valid() && outcome.InvalidRequest? == !ValidRequest(r)
    ensures !outcome.InvalidRequest? <==> (r.target != "" && r.network == "TRON_MAINNET" && r.asset == "USDT"
      && r.windowStart != 0 && r.windowEnd != 0 && r.windowStart <= r.windowEnd
      && 1 <= r.transferLimit <= 5000 && 1 <= r.traversalDepth <= 4)
    ensures ValidRequest(r) ==> p.sent <= 200 + 6 * r.transferLimit && Accounted(p, r, outcome, admitted, cut)
    ensures outcome.Collected? ==> Faithful(p.world, r, outcome.collection, admitted)
    ensures ValidRequest(r) && Undisturbed(p.world, r, p.fetches) ==> outcome.Collected? && FullCoverage(r, outcome.collection)
  {
    hide Undisturbed, FullCoverage, Faithful, Accounted, Reports;
    admitted, cut := map[], None;
    if !ValidRequest(r) {
      return InvalidRequest, admitted, cut;
    }
    p.WithCallBudget(r.transferLimit);
    outcome, admitted, cut := Walk(p, r);
    AccountedStands(p, r, outcome, admitted, cut);
    if Undisturbed(p.world, r, p.fetches) { UndisturbedIsFull(p, r, outcome, admitted, cut); }
  }

  lemma AccountedStands(p: Provider, r: Request, outcome: Outcome, admitted: map<string, Candidate>, cut: Option<Fault>)
    requires Accounted(p, r, outcome, admitted, cut)
    ensures p.Valid()
  {
  }

  lemma {:induction false} AskIsAnswered(w: World, r: Request, asks: seq<Ask>, k: nat)
    requires k < |asks|
    ensures KeysOfAsk(w, r, asks[k]) <= KeysAnswered(w, r, asks)
  {
    hide KeysOfAsk;
    var front := asks[..|asks| - 1];
    if k < |front| {
      AskIsAnswered(w, r, front, k);
      assert front[k] == asks[k];
    }
  }

  lemma {:induction false} AnsweredIsAsked(w: World, r: Request, asks: seq<Ask>, key: string) returns (k: nat)
    requires key in KeysAnswered(w, r, asks)
    ensures k < |asks| && key in KeysOfAsk(w, r, asks[k])
  {
    hide KeysOfAsk;
    k := |asks| - 1;
    if key !in KeysOfAsk(w, r, asks[k]) {
      k := AnsweredIsAsked(w, r, asks[..|asks| - 1], key);
    }
  }

  /** An eligible transfer on the page that was answered. */
  ghost predicate Shown(w: World, r: Request, a: Ask, c: Candidate) {
    OnPageAt(w, r, a.address, a.index, c)
  }

  lemma ShownIsKey(w: World, r: Request, a: Ask)
    ensures forall c :: Shown(w, r, a, c) ==> Key(c) in KeysOfAsk(w, r, a)
    ensures forall k :: k in KeysOfAsk(w, r, a) ==> exists c :: Shown(w, r, a, c) && Key(c) == k
  {
    var cursor := CursorAt(w, a.address, a.index);
    if cursor.Some? { EligibleAreOnPage(w.page(a.address, cursor.value), r, a.address); }
    hide OnPage, EligibleOf, Key;
  }

  /** A cut walk keeps every eligible transfer of every answered page, whichever address and level was being read; it
      fails only when there is none or the fault has no stop reason. */
  lemma CutKeepsEverything(p: Provider, r: Request, outcome: Outcome, admitted: map<string, Candidate>, fault: Fault)
    requires Accounted(p, r, outcome, admitted, Some(fault)) && (outcome.Collected? ==> Faithful(p.world, r, outcome.collection, admitted))
    ensures forall k, c :: 0 <= k < |p.answered| && Shown(p.world, r, p.answered[k], c) ==> Key(c) in admitted
    ensures outcome.Failure? <==> (fault == Other || forall k, c :: 0 <= k < |p.answered| ==> !Shown(p.world, r, p.answered[k], c))
    ensures outcome.Failure? ==> outcome.fault == fault
    ensures outcome.Collected? ==> TransferKeys(outcome.collection) == admitted.Keys && outcome.collection.stopReason == (match fault
      case RateLimited => "provider_rate_limited" case Unavailable => "provider_unavailable" case _ => "resource_limit_reached")
  {
    hide Shown, Faithful, Key, KeysAnswered, KeysOfAsk, Scheduled, TransferKeys, Provoked;
    forall k, c | 0 <= k < |p.answered| && Shown(p.world, r, p.answered[k], c) ensures Key(c) in admitted {
      ShownIsKey(p.world, r, p.answered[k]);
      AskIsAnswered(p.world, r, p.answered, k);
    }
    if admitted != map[] {
      var key :| key in admitted.Keys;
      var k := AnsweredIsAsked(p.world, r, p.answered, key);
      ShownIsKey(p.world, r, p.answered[k]);
      var c :| Shown(p.world, r, p.answered[k], c) && Key(c) == key;
      assert 0 <= k < |p.answered| && Shown(p.world, r, p.answered[k], c);
    }
    forall k, c | 0 <= k < |p.answered| && admitted == map[] ensures !Shown(p.world, r, p.answered[k], c) {
      assert Shown(p.world, r, p.answered[k], c) ==> Key(c) in admitted;
    }
    if outcome.Collected? {
      FaithfulIsCanonical(p.world, r, outcome.collection, admitted);
      HoldsParts(outcome.collection, r, admitted);
    }
  }

  /** A walk that was not cut keeps every eligible transfer of every answered page, but for the page on which it reached
      the Transfer Limit: of that one it keeps those whose keys come no later than some key on it. */
  lemma WholeKeepsEverything(p: Provider, r: Request, outcome: Outcome, admitted: map<string, Candidate>)
    requires Accounted(p, r, outcome, admitted, None) && outcome.Collected?
    ensures KeptToLimit(p.world, r, p.answered, admitted, outcome.collection.stopReason == "transfer_limit_reached")
  {
    hide KeptToLimit, Scheduled, Gathered, GatheredToLimit, Unbroken;
    var asks := p.answered;
    if outcome.collection.stopReason == STOP_TRANSFER_LIMIT { LimitKeeps(p.world, r, asks, admitted); } else { EndKeeps(p.world, r, asks, admitted); }
  }

  ghost predicate KeptToLimit(w: World, r: Request, asks: seq<Ask>, admitted: map<string, Candidate>, limited: bool) {
    && (forall k, c {:trigger Shown(w, r, asks[k], c)} ::
          0 <= k < |asks| && (k < |asks| - 1 || !limited) && Shown(w, r, asks[k], c) ==> Key(c) in admitted)
    && (limited ==> asks != [] && KeptSome(w, r, asks[|asks| - 1], admitted))
  }

  ghost predicate KeptSome(w: World, r: Request, a: Ask, admitted: map<string, Candidate>) {
    exists last :: Shown(w, r, a, last) && KeptTo(w, r, a, admitted, Key(last))
  }

  ghost predicate KeptTo(w: World, r: Request, a: Ask, admitted: map<string, Candidate>, last: string) {
    forall c {:trigger Shown(w, r, a, c)} :: Shown(w, r, a, c) && !Before(last, Key(c)) ==> Key(c) in admitted
  }

  lemma EndKeeps(w: World, r: Request, asks: seq<Ask>, admitted: map<string, Candidate>)
    requires Gathered(w, r, asks, admitted)
    ensures KeptToLimit(w, r, asks, admitted, false)
  {
    hide Shown, Key, KeysAnswered, KeysOfAsk;
    forall k, c | 0 <= k < |asks| && Shown(w, r, asks[k], c) ensures Key(c) in admitted {
      ShownIsKey(w, r, asks[k]);
      AskIsAnswered(w, r, asks, k);
    }
  }

  lemma LimitKeeps(w: World, r: Request, asks: seq<Ask>, admitted: map<string, Candidate>)
    requires GatheredToLimit(w, r, asks, admitted)
    ensures KeptToLimit(w, r, asks, admitted, true)
  {
    hide Shown, Key, KeysAnswered, KeysOfAsk, Before;
    var front, a := asks[..|asks| - 1], asks[|asks| - 1];
    var last :| CutAfter(w, r, front, a, admitted.Keys, last);
    forall k, c | 0 <= k < |front| && Shown(w, r, asks[k], c) ensures Key(c) in admitted {
      assert front[k] == asks[k];
      ShownIsKey(w, r, asks[k]);
      AskIsAnswered(w, r, front, k);
    }
    ShownIsKey(w, r, a);
    var o :| Shown(w, r, a, o) && Key(o) == last;
    assert KeptTo(w, r, a, admitted, Key(o));
  }

  lemma StoppedAs(c: Collection)
    ensures Stopped(c) == if c.stopReason == STOP_TRANSFER_LIMIT then LimitReached else Continue
  {
  }

  lemma WalkIsWhole(p: Provider, r: Request, outcome: Outcome, admitted: map<string, Candidate>)
    requires Unbroken(p, r) && outcome.Collected? && !outcome.collection.partial
    requires Scheduled(p.world, r, p.answered) && GatheredAs(p.world, r, p.answered, admitted, Stopped(outcome.collection))
    ensures Accounted(p, r, outcome, admitted, None)
  {
  }

  lemma WalkIsCut(p: Provider, r: Request, depth: nat, flow: Flow, outcome: Outcome, admitted: map<string, Candidate>)
    requires EndsAs(p, r, depth, flow) && flow.Broken? && depth < r.traversalDepth && Reports(outcome, flow.fault, admitted)
    requires Scheduled(p.world, r, p.answered) && GatheredAs(p.world, r, p.answered, admitted, flow)
    ensures Accounted(p, r, outcome, admitted, Some(flow.fault))
  {
    hide Provoked, Reports, Scheduled, Gathered;
    ProvokedBeyond(p.world, r, p.fetches, depth, r.traversalDepth - 1, flow.fault);
  }

  method Walk(p: Provider, r: Request) returns (outcome: Outcome, ghost admitted: map<string, Candidate>, ghost cut: Option<Fault>)
    requires ValidRequest(r) && Unbroken(p, r) && p.answered == []
    modifies p`fetches, p`remaining, p`sent, p`answered
    ensures !outcome.InvalidRequest? && Accounted(p, r, outcome, admitted, cut)
    ensures outcome.Collected? ==> Faithful(p.world, r, outcome.collection, admitted)
  {
    hide *;
    admitted, cut := map[], None;
    var t := Tally(map[], {}, {r.target}, {}, 0);
    var frontier, depth := [r.target], 0;
    ghost var done: set<string> := {};
    StartOfWalk(p.world, r, t);
    while true
      invariant Gathered(p.world, r, p.answered, admitted) && Scheduled(p.world, r, p.answered) && LevelBegins(p.world, p.answered, depth)
      invariant Unbroken(p, r) && 0 <= depth && AtStart(p.world, r, t, admitted, frontier, done, depth)
      decreases r.traversalDepth - depth
    {
      ghost var base := t.visited;
      LevelStarts(p.world, r, t, admitted, frontier, done, depth);
      var flow;
      ghost var before, earlier, newest := t, admitted, frontier[0];
      t, admitted, flow := CollectLevel(p, r, frontier, depth, t, admitted, done);
      GatheredEither(p.world, r, p.answered, admitted, flow);
      if flow.Broken? {
        outcome := InterruptedWalk(p.world, r, t, flow.fault, depth, admitted, base, newest);
        cut := Some(flow.fault);
        WalkIsCut(p, r, depth, flow, outcome, admitted);
        return;
      }
      WalkGoesOn(p, r, depth, flow);
      if flow.LimitReached? {
        outcome := LimitedWalk(p.world, r, t, depth, admitted, base, newest);
        StoppedAs(outcome.collection);
        WalkIsWhole(p, r, outcome, admitted);
        return;
      }
      LevelEnds(p.world, r, before, earlier, frontier, done, depth, t, admitted);
      if t.next == {} || depth + 1 == r.traversalDepth {
        outcome := FinishedWalk(p.world, r, t, depth, admitted, base, newest);
        StoppedAs(outcome.collection);
        WalkIsWhole(p, r, outcome, admitted);
        return;
      }
      frontier := SortedSet(t.next);
      ghost var ended := t;
      t := t.(next := {});
      NextLevel(p.world, r, ended, admitted, base, frontier, depth, t);
      depth, done := depth + 1, base;
    }
  }

  lemma LevelStarts(w: World, r: Request, t: Tally, admitted: map<string, Candidate>, frontier: seq<string>, done: set<string>, depth: nat)
    requires AtStart(w, r, t, admitted, frontier, done, depth)
    ensures Running(w, r, t, admitted, t.visited, depth) && AllExhausted(w, r, done, admitted) && depth < r.traversalDepth
    ensures FreshLevel(w, r, frontier, depth) && frontier != [] && Measured(w, r, t.visited, depth, frontier[0])
    ensures forall a :: a in frontier ==> a in t.visited && Within(w, r, a, depth)
  {
  }

  lemma LevelEnds(w: World, r: Request, t: Tally, admitted: map<string, Candidate>, frontier: seq<string>, done: set<string>, depth: nat,
                  t': Tally, admitted': map<string, Candidate>)
    requires AtStart(w, r, t, admitted, frontier, done, depth) && Running(w, r, t', admitted', t.visited, depth)
    requires Extends(admitted, admitted') && AllExhausted(w, r, done + (set a | a in frontier), admitted')
    ensures AtEnd(w, r, t', admitted', t.visited, depth) && (depth > 0 ==> t'.seen != {})
  {
    hide TableSound, WalkSound, AllExhausted, KeysDetermineTransfers, FreshLevel;
    if depth > 0 {
      var k :| k in t.seen;
      assert k in admitted && k in admitted';
    }
  }

  ghost predicate HeldAsOffered(c: Collection, o: Candidate) {
    exists t :: t in c.transactions && o.transfer in t.transfers && TransferKey(t, o.transfer) == Key(o)
  }

  ghost predicate OfferedAsHeld(w: World, r: Request, t: Transaction, transfer: Transfer)
    requires r.traversalDepth >= 1
  {
    exists o :: OfferedWithin(w, r, r.traversalDepth - 1, o) && o.transfer == transfer && Key(o) == TransferKey(t, transfer)
  }

  /** A conclusive Collection holds exactly the eligible transfers that the pages of all addresses within
      TraversalDepth - 1 hops show, each under the key it was offered with, and by Canonical each once. */
  lemma CollectedExactly(w: World, r: Request, c: Collection, admitted: map<string, Candidate>)
    requires Faithful(w, r, c, admitted) && KeysDetermineTransfers(w, r) && !c.partial && c.stopReason != STOP_TRANSFER_LIMIT
    ensures Canonical(c)
    ensures forall o :: OfferedWithin(w, r, r.traversalDepth - 1, o) ==> HeldAsOffered(c, o)
    ensures forall t, transfer :: t in c.transactions && transfer in t.transfers ==> OfferedAsHeld(w, r, t, transfer)
  {
    assert r.traversalDepth >= 1;
    hide Faithful, Canonical, OfferedWithin, Holds, AllWithin, HeldAsOffered, OfferedAsHeld;
    FaithfulIsCanonical(w, r, c, admitted);
    forall o | OfferedWithin(w, r, r.traversalDepth - 1, o)
      ensures HeldAsOffered(c, o)
    {
      OfferIsHeld(w, r, c, admitted, o);
    }
    forall t, transfer | t in c.transactions && transfer in t.transfers
      ensures OfferedAsHeld(w, r, t, transfer)
    {
      HeldIsOffered(w, r, c, admitted, t, transfer);
    }
  }

  /** source_exhausted leaves nothing out: an eligible transfer offered by any address at any number of hops is held. */
  lemma ExhaustedLeavesNothingOut(w: World, r: Request, c: Collection, admitted: map<string, Candidate>, k: nat, o: Candidate)
    requires Faithful(w, r, c, admitted) && KeysDetermineTransfers(w, r) && c.stopReason == STOP_SOURCE_EXHAUSTED && OfferedWithin(w, r, k, o)
    ensures HeldAsOffered(c, o)
  {
    hide *;
    FaithfulExhausted(w, r, c, admitted);
    OfferedBeforeTheEnd(w, r, k, c.reachedDepth, r.traversalDepth - 1, o);
    OfferIsHeld(w, r, c, admitted, o);
  }

  lemma OfferedBeforeTheEnd(w: World, r: Request, k: nat, end: nat, m: nat, o: Candidate)
    requires OfferedWithin(w, r, k, o) && ReachEndsAt(w, r, end) && end <= m
    ensures OfferedWithin(w, r, m, o)
  {
    hide Offered, Linked;
    var a :| Within(w, r, a, k) && Offered(w, r, a, o);
    assert Within(w, r, a, end);
    WithinGrows(w, r, a, end, m);
  }

  lemma FaithfulExhausted(w: World, r: Request, c: Collection, admitted: map<string, Candidate>)
    requires Faithful(w, r, c, admitted) && KeysDetermineTransfers(w, r) && c.stopReason == STOP_SOURCE_EXHAUSTED
    ensures !c.partial && c.stopReason != STOP_TRANSFER_LIMIT && 0 <= c.reachedDepth < r.traversalDepth && ReachEndsAt(w, r, c.reachedDepth)
  {
    hide Holds, AllWithin, Complete, KeysDetermineTransfers, ReachEndsAt;
  }

  lemma FaithfulIsCanonical(w: World, r: Request, c: Collection, admitted: map<string, Candidate>)
    requires Faithful(w, r, c, admitted)
    ensures Canonical(c) && Holds(c, r, admitted) && AllWithin(w, r, admitted)
  {
  }

  lemma FaithfulCoverage(w: World, r: Request, c: Collection, admitted: map<string, Candidate>)
    requires Faithful(w, r, c, admitted)
    ensures PartialCoverage(r, c) || FullCoverage(r, c)
  {
    hide Holds, AllWithin, ReachesTo, Conclusive, PartialCoverage, FullCoverage;
  }

  lemma FaithfulIsComplete(w: World, r: Request, c: Collection, admitted: map<string, Candidate>)
    requires Faithful(w, r, c, admitted) && KeysDetermineTransfers(w, r) && !c.partial && c.stopReason != STOP_TRANSFER_LIMIT
    ensures r.traversalDepth >= 1 && Complete(w, r, r.traversalDepth - 1, admitted) && Holds(c, r, admitted) && AllWithin(w, r, admitted)
  {
    hide ReachesTo, Holds, Complete, KeysDetermineTransfers;
  }

  lemma OfferIsHeld(w: World, r: Request, c: Collection, admitted: map<string, Candidate>, o: Candidate)
    requires Faithful(w, r, c, admitted) && KeysDetermineTransfers(w, r) && !c.partial && c.stopReason != STOP_TRANSFER_LIMIT
    requires OfferedWithin(w, r, r.traversalDepth - 1, o)
    ensures HeldAsOffered(c, o)
  {
    hide *;
    FaithfulIsComplete(w, r, c, admitted);
    CompleteHolds(w, r, r.traversalDepth - 1, admitted, o);
    var t, i := HeldEntry(c, r, admitted, Key(o));
    SameKeySameTransfer(w, r, o, admitted[Key(o)]);
    AdmittedIsHeld(c, r, admitted, o);
  }

  lemma CompleteHolds(w: World, r: Request, k: nat, admitted: map<string, Candidate>, o: Candidate)
    requires Complete(w, r, k, admitted) && OfferedWithin(w, r, k, o) && AllWithin(w, r, admitted) && k == r.traversalDepth - 1
    ensures Key(o) in admitted && OfferedWithin(w, r, k, admitted[Key(o)])
  {
    hide OfferedWithin;
  }

  lemma SameTransactionSameKey(a: Transaction, b: Transaction, x: Transfer)
    requires TransactionKey(a) == TransactionKey(b)
    ensures TransferKey(a, x) == TransferKey(b, x)
  {
  }

  lemma EntryKeeps(t: Transaction, i: nat, r: Request, admitted: map<string, Candidate>)
    requires EntrySound(TransactionKey(t), t, r, admitted) && i < |t.transfers|
    ensures var key := TransferKey(t, t.transfers[i]);
      key in admitted && admitted[key].transfer == t.transfers[i] && Key(admitted[key]) == key
  {
    hide EligibleTransaction, TransactionKey, TransferKey;
    SameTransactionSameKey(admitted[TransferKey(t, t.transfers[i])].transaction, t, t.transfers[i]);
  }

  lemma HoldsParts(c: Collection, r: Request, admitted: map<string, Candidate>)
    requires Holds(c, r, admitted)
    ensures TransferKeys(c) == admitted.Keys && forall t :: t in c.transactions ==> EntrySound(TransactionKey(t), t, r, admitted)
  {
  }

  /** Where an admitted candidate is held. */
  lemma HeldEntry(c: Collection, r: Request, admitted: map<string, Candidate>, key: string) returns (t: Transaction, i: nat)
    requires Holds(c, r, admitted) && key in admitted
    ensures t in c.transactions && i < |t.transfers| && TransferKey(t, t.transfers[i]) == key
    ensures admitted[key].transfer == t.transfers[i] && Key(admitted[key]) == key
  {
    hide Holds, EntrySound, TransferKey, TransactionKey, Key;
    HoldsParts(c, r, admitted);
    assert key in TransferKeys(c);
    var transfer;
    t, transfer :| t in c.transactions && transfer in t.transfers && key == TransferKey(t, transfer);
    i :| 0 <= i < |t.transfers| && t.transfers[i] == transfer;
    EntryKeeps(t, i, r, admitted);
  }

  lemma AdmittedIsHeld(c: Collection, r: Request, admitted: map<string, Candidate>, o: Candidate)
    requires Holds(c, r, admitted) && Key(o) in admitted && admitted[Key(o)].transfer == o.transfer
    ensures HeldAsOffered(c, o)
  {
    hide Holds;
    var t, i := HeldEntry(c, r, admitted, Key(o));
    assert t in c.transactions && o.transfer in t.transfers && TransferKey(t, o.transfer) == Key(o);
  }

  lemma SameKeySameTransfer(w: World, r: Request, o: Candidate, held: Candidate)
    requires KeysDetermineTransfers(w, r) && r.traversalDepth >= 1
    requires OfferedWithin(w, r, r.traversalDepth - 1, o) && OfferedWithin(w, r, r.traversalDepth - 1, held) && Key(o) == Key(held)
    ensures o.transfer == held.transfer
  {
    var a :| Within(w, r, a, r.traversalDepth - 1) && Offered(w, r, a, o);
    var b :| Within(w, r, b, r.traversalDepth - 1) && Offered(w, r, b, held);
  }

  lemma HeldIsOffered(w: World, r: Request, c: Collection, admitted: map<string, Candidate>, t: Transaction, transfer: Transfer)
    requires Holds(c, r, admitted) && AllWithin(w, r, admitted) && t in c.transactions && transfer in t.transfers
    ensures OfferedAsHeld(w, r, t, transfer)
  {
    hide Headed, Canonical, OfferedWithin, EligibleTransaction;
    assert EntrySound(TransactionKey(t), t, r, admitted);
    var i :| 0 <= i < |t.transfers| && t.transfers[i] == transfer;
    var o := admitted[TransferKey(t, t.transfers[i])];
    assert OfferedWithin(w, r, r.traversalDepth - 1, o);
    assert Key(o) == TransferKey(t, transfer);
  }

  // ----- which transfers are in scope -----

  /** A successful, confirmed transaction inside the window with a USDT transfer of the address inside the window. */
  predicate InScope(r: Request, address: string, t: Transaction, x: Transfer) {
    && t.network == "TRON_MAINNET" && t.successful && t.confirmed && t.hash != "" && t.blockId != ""
    && x.asset == "USDT" && x.contract == "TR7NHqjeKQxGTCi8q8ZY4pL8otSzgjLj6t" && x.decimals == 6 && x.event != ""
    && IsUnsignedInteger(x.amount) && x.from != "" && x.to != "" && address in {x.from, x.to}
    && InWindow(r, t.blockTime) && InWindow(r, x.timestamp)
  }

  predicate InWindow(r: Request, time: Time) {
    time != 0 && !(time < r.windowStart || r.windowEnd < time)
  }

  /** The provider offers exactly the transfers in scope on the pages of an address. */
  lemma OfferedIffInScope(w: World, r: Request, address: string, c: Candidate)
    requires ValidRequest(r)
    ensures Offered(w, r, address, c) <==> (InScope(r, address, c.transaction, c.transfer) && exists i: nat :: ShowsAt(w, address, i, c))
  {
    if Offered(w, r, address, c) {
      var i: nat :| OnPageAt(w, r, address, i, c);
      assert ShowsAt(w, address, i, c);
    }
    if i: nat :| ShowsAt(w, address, i, c) {
      assert InScope(r, address, c.transaction, c.transfer) ==> OnPageAt(w, r, address, i, c);
    }
  }

  /** The i-th page of the address shows the transfer among those of its transaction. */
  predicate ShowsAt(w: World, address: string, i: nat, c: Candidate) {
    var cursor := CursorAt(w, address, i);
    cursor.Some? && c.transaction in w.page(address, cursor.value).transactions && c.transfer in c.transaction.transfers
  }

  /** What is held lies inside the window, of an address fewer than TraversalDepth hops from the target; and a transfer
      is held under its own network, hash and event. */
  lemma HeldIsInScope(w: World, r: Request, c: Collection, admitted: map<string, Candidate>, t: Transaction, x: Transfer)
    requires ValidRequest(r) && Faithful(w, r, c, admitted) && t in c.transactions && x in t.transfers
    ensures exists a :: Within(w, r, a, r.traversalDepth - 1) && InScope(r, a, t, x)
  {
    hide *;
    FaithfulIsCanonical(w, r, c, admitted);
    HoldsParts(c, r, admitted);
    DepthIsPositive(w, r, admitted);
    HeldIsOffered(w, r, c, admitted, t, x);
    var o, a := HeldFrom(w, r, t, x);
    OfferedIffInScope(w, r, a, o);
    ScopeOfEntry(r, a, o, t, x, admitted);
  }

  lemma DepthIsPositive(w: World, r: Request, admitted: map<string, Candidate>)
    requires AllWithin(w, r, admitted)
    ensures r.traversalDepth >= 1
  {
  }

  lemma HeldFrom(w: World, r: Request, t: Transaction, x: Transfer) returns (o: Candidate, a: string)
    requires r.traversalDepth >= 1 && OfferedAsHeld(w, r, t, x)
    ensures Within(w, r, a, r.traversalDepth - 1) && Offered(w, r, a, o) && o.transfer == x
  {
    hide Within, Offered;
    o :| OfferedWithin(w, r, r.traversalDepth - 1, o) && o.transfer == x;
    a :| Within(w, r, a, r.traversalDepth - 1) && Offered(w, r, a, o);
  }

  lemma ScopeOfEntry(r: Request, a: string, o: Candidate, t: Transaction, x: Transfer, admitted: map<string, Candidate>)
    requires ValidRequest(r) && InScope(r, a, o.transaction, x) && EntrySound(TransactionKey(t), t, r, admitted)
    ensures InScope(r, a, t, x)
  {
    hide TransactionKey, TransferKey, IsUnsignedInteger;
  }
}
