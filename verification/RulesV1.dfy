/** The rules-v1 evaluator: normalisation and the five signals as the loops that fill Go's maps. */
module RulesV1 {
  import opened Wrappers
  import opened Chain
  import opened Order
  import opened CycleSearch
  import opened RulesModel

  function Members(flows: seq<Flow>): set<Flow> {
    set f | f in flows
  }

  predicate DistinctKeys(flows: seq<Flow>) {
    forall i, j :: 0 <= i < j < |flows| ==> flows[i].key != flows[j].key
  }

  /** An amount that is no unsigned integer is an error before it becomes a transfer. */
  function FlowOf(t: Transaction, transfer: Transfer): Flow {
    Flow(TransferKey(t, transfer), transfer.from, transfer.to, if IsUnsignedInteger(transfer.amount) then Amount(transfer) else 0, transfer.timestamp)
  }

  predicate AmountsValid(transactions: seq<Transaction>) {
    forall t :: t in transactions ==> TransactionValid(t)
  }

  predicate TransactionValid(t: Transaction) {
    forall transfer :: transfer in t.transfers ==> IsUnsignedInteger(transfer.amount)
  }

  /** All transfers of a Collection, as rules-v1 sees them. */
  function Flows(c: Collection): set<Flow> {
    set t, transfer | t in c.transactions && transfer in t.transfers :: FlowOf(t, transfer)
  }

  /** Repetitions of a key repeat the transfer. */
  predicate KeyConsistent(flows: set<Flow>) {
    forall f, g :: f in flows && g in flows && f.key == g.key ==> f == g
  }

  /** Time, then sender, then recipient, then key. */
  predicate FlowBefore(a: Flow, b: Flow) {
    a.at < b.at || (a.at == b.at && (Before(a.from, b.from) || (a.from == b.from &&
      (Before(a.to, b.to) || (a.to == b.to && Before(a.key, b.key))))))
  }

  lemma FlowBeforeTotal(a: Flow, b: Flow)
    ensures a.key != b.key ==> FlowBefore(a, b) || FlowBefore(b, a)
    ensures !FlowBefore(a, a) && !(FlowBefore(a, b) && FlowBefore(b, a))
  {
    BeforeTotal(a.from, b.from);
    BeforeTotal(a.to, b.to);
    BeforeTotal(a.key, b.key);
    BeforeTotal(a.from, a.from);
    BeforeTotal(a.to, a.to);
    BeforeTotal(a.key, a.key);
  }

  lemma FlowBeforeIsStrictWeak()
    ensures StrictWeak(FlowBefore)
  {
    BeforeIsStrictWeak();
    forall x, y, z | !FlowBefore(x, y) && !FlowBefore(y, z) ensures !FlowBefore(x, z) {
      BeforeTotal(x.from, y.from);
      BeforeTotal(y.from, z.from);
      BeforeTotal(x.to, y.to);
      BeforeTotal(y.to, z.to);
    }
  }

  function KeysOf(flows: seq<Flow>): set<string> {
    set f | f in flows :: f.key
  }

  /** Of `all`, one transfer per key is kept. */
  predicate Kept(flows: seq<Flow>, all: set<Flow>) {
    && DistinctKeys(flows) && (forall f :: f in flows ==> f in all) && (forall f :: f in all ==> f.key in KeysOf(flows))
  }

  lemma KeptAll(flows: seq<Flow>, all: set<Flow>)
    requires Kept(flows, all) && KeyConsistent(all)
    ensures Members(flows) == all
  {
    forall f | f in all ensures f in flows {
      var g :| g in flows && g.key == f.key;
    }
  }

  lemma KeptSorted(flows: seq<Flow>, sorted: seq<Flow>, all: set<Flow>)
    requires Kept(flows, all) && multiset(sorted) == multiset(flows)
    ensures Kept(sorted, all)
  {
    SameMembers(flows, sorted);
    NoRepeats(flows);
    forall i, j | 0 <= i < j < |sorted| ensures sorted[i].key != sorted[j].key {
      RepeatCounted(sorted, i, j);
      assert sorted[i] in flows && sorted[j] in flows;
    }
    forall f | f in all ensures f.key in KeysOf(sorted) {
      var g :| g in flows && g.key == f.key;
      assert g in sorted;
    }
  }

  /** The transfers transaction by transaction. */
  function InOrder(transactions: seq<Transaction>): seq<Flow> {
    if transactions == [] then []
    else InOrder(transactions[..|transactions| - 1]) + FlowsOf(transactions[|transactions| - 1])
  }

  function FlowsOf(t: Transaction): seq<Flow> {
    seq(|t.transfers|, j requires 0 <= j < |t.transfers| => FlowOf(t, t.transfers[j]))
  }

  lemma InOrderNext(transactions: seq<Transaction>, i: nat)
    requires i < |transactions|
    ensures InOrder(transactions[..i + 1]) == InOrder(transactions[..i]) + FlowsOf(transactions[i])
  {
    assert transactions[..i + 1][..i] == transactions[..i];
  }

  lemma {:induction false} InOrderMembers(c: Collection)
    ensures Members(InOrder(c.transactions)) == Flows(c)
    decreases |c.transactions|
  {
    if c.transactions != [] {
      var n := |c.transactions| - 1;
      var front, t := c.(transactions := c.transactions[..n]), c.transactions[n];
      InOrderMembers(front);
      assert c.transactions == front.transactions + [t];
      forall f ensures f in FlowsOf(t) <==> exists x :: x in t.transfers && f == FlowOf(t, x) {
        if x :| x in t.transfers && f == FlowOf(t, x) {
          var j :| 0 <= j < |t.transfers| && t.transfers[j] == x;
          assert FlowsOf(t)[j] == f;
        }
      }
      hide FlowOf, FlowsOf;
      assert Flows(c) == Flows(front) + set x | x in t.transfers :: FlowOf(t, x);
      assert Members(InOrder(c.transactions)) == Members(InOrder(front.transactions)) + Members(FlowsOf(t));
    }
  }

  /** What rules-v1 sees of a Collection is each transfer's own sender, recipient, amount and time, under the names of
      its network, transaction and event. */
  lemma FlowsAre(c: Collection, f: Flow)
    requires AmountsValid(c.transactions)
    ensures f in Flows(c) <==> exists t, x :: t in c.transactions && x in t.transfers && Shows(f, t, x)
  {
    if t, x :| t in c.transactions && x in t.transfers && Shows(f, t, x) {
      assert TransactionValid(t) && f == FlowOf(t, x);
    }
    if f in Flows(c) {
      var t, x :| t in c.transactions && x in t.transfers && f == FlowOf(t, x);
      assert TransactionValid(t) && Shows(f, t, x);
    }
  }

  predicate Shows(f: Flow, t: Transaction, x: Transfer) {
    && IsUnsignedInteger(x.amount) && f.amount == DecimalValue(x.amount) && f.from == x.from && f.to == x.to && f.at == x.timestamp
    && f.key == t.network + "\0" + t.hash + "\0" + x.event
  }

  /** The i-th transfer is the first one with its key. */
  predicate IsFirst(done: seq<Flow>, i: nat) {
    i < |done| && forall k :: 0 <= k < i ==> done[k].key != done[i].key
  }

  /** Of the transfers with one key it is the first that is kept. */
  ghost predicate FirstsKept(flows: seq<Flow>, done: seq<Flow>) {
    forall f :: f in flows ==> exists i: nat :: IsFirst(done, i) && done[i] == f
  }

  ghost predicate KeptFrom(flows: seq<Flow>, done: seq<Flow>) {
    Kept(flows, Members(done)) && FirstsKept(flows, done)
  }

  lemma NoneKept()
    ensures KeptFrom([], [])
  {
  }

  lemma KeepFirst(flows: seq<Flow>, done: seq<Flow>, f: Flow)
    requires KeptFrom(flows, done)
    ensures f.key in KeysOf(flows) ==> KeptFrom(flows, done + [f])
    ensures f.key !in KeysOf(flows) ==> KeptFrom(flows + [f], done + [f]) && KeysOf(flows + [f]) == KeysOf(flows) + {f.key}
  {
    var all := done + [f];
    assert Members(all) == Members(done) + {f};
    KeepNext(flows, Members(done), f);
    forall g | g in flows ensures exists i: nat :: IsFirst(all, i) && all[i] == g {
      var i: nat :| IsFirst(done, i) && done[i] == g;
      assert IsFirst(all, i);
    }
    if f.key !in KeysOf(flows) {
      forall k | 0 <= k < |done| ensures done[k].key != f.key {
        assert done[k] in Members(done);
        assert done[k].key in KeysOf(flows);
      }
      assert IsFirst(all, |done|) && all[|done|] == f;
    }
  }

  lemma FirstsAgree(a: seq<Flow>, b: seq<Flow>, done: seq<Flow>)
    requires KeptFrom(a, done) && KeptFrom(b, done)
    ensures forall f :: f in a ==> f in b
  {
    forall f | f in a ensures f in b {
      var i: nat :| IsFirst(done, i) && done[i] == f;
      assert f.key in KeysOf(b) by { assert f in Members(done); }
      var g :| g in b && g.key == f.key;
      var j: nat :| IsFirst(done, j) && done[j] == g;
      assert i == j;
    }
  }

  lemma KeepNext(flows: seq<Flow>, all: set<Flow>, f: Flow)
    requires Kept(flows, all)
    ensures f.key in KeysOf(flows) ==> Kept(flows, all + {f})
    ensures f.key !in KeysOf(flows) ==> Kept(flows + [f], all + {f}) && KeysOf(flows + [f]) == KeysOf(flows) + {f.key}
  {
    if f.key !in KeysOf(flows) {
      var longer := flows + [f];
      forall k | k in KeysOf(flows) ensures k in KeysOf(longer) {
        var g :| g in flows && g.key == k;
        assert g in longer;
      }
      assert f in longer;
    }
  }

  lemma FirstsSorted(flows: seq<Flow>, sorted: seq<Flow>, done: seq<Flow>)
    requires KeptFrom(flows, done) && multiset(sorted) == multiset(flows)
    ensures KeptFrom(sorted, done)
  {
    KeptSorted(flows, sorted, Members(done));
    SameMembers(flows, sorted);
  }

  /** Canonical order reads by time, then sender, then recipient, then key. */
  lemma CanonicalReads(flows: seq<Flow>, i: nat, j: nat)
    requires DistinctKeys(flows) && Sorted(FlowBefore, flows) && i < j < |flows|
    ensures var a, b := flows[i], flows[j];
      && a.at <= b.at && (a.at == b.at ==> !Before(b.from, a.from))
      && ((a.at, a.from) == (b.at, b.from) ==> !Before(b.to, a.to)) && ((a.at, a.from, a.to) == (b.at, b.from, b.to) ==> Before(a.key, b.key))
  {
    FlowBeforeTotal(flows[i], flows[j]);
    BeforeTotal(flows[i].key, flows[j].key);
  }

  /** normalizeRulesV1Transfers: an error exactly when some amount is malformed; otherwise the first transfer of each
      key, in canonical order. */
  method Normalize(c: Collection) returns (r: Option<seq<Flow>>)
    ensures r.None? <==> !AmountsValid(c.transactions)
    ensures r.Some? ==> KeptFrom(r.value, InOrder(c.transactions)) && Kept(r.value, Flows(c)) && Sorted(FlowBefore, r.value)
  {
    hide KeptFrom, InOrder, Sorted, StrictWeak, Flows, IsUnsignedInteger, FlowOf;
    var flows: seq<Flow> := [];
    var seen: set<string> := {};
    ghost var done: seq<Flow> := [];
    NoneKept();
    NothingYet(c.transactions);
    for i := 0 to |c.transactions|
      invariant AmountsValid(c.transactions[..i])
      invariant done == InOrder(c.transactions[..i]) && KeptFrom(flows, done) && seen == KeysOf(flows)
    {
      var t := c.transactions[i];
      ghost var before := done;
      InOrderNext(c.transactions, i);
      for j := 0 to |t.transfers|
        invariant forall k :: 0 <= k < j ==> IsUnsignedInteger(t.transfers[k].amount)
        invariant done == before + FlowsOf(t)[..j] && KeptFrom(flows, done) && seen == KeysOf(flows)
      {
        if !IsUnsignedInteger(t.transfers[j].amount) {
          assert t in c.transactions && t.transfers[j] in t.transfers;
          return None;
        }
        var f := FlowOf(t, t.transfers[j]);
        KeepFirst(flows, done, f);
        assert FlowsOf(t)[..j + 1] == FlowsOf(t)[..j] + [f];
        done := done + [f];
        if f.key !in seen {
          seen := seen + {f.key};
          flows := flows + [f];
        }
      }
      assert FlowsOf(t)[..|t.transfers|] == FlowsOf(t);
    }
    assert c.transactions[..|c.transactions|] == c.transactions;
    FlowBeforeIsStrictWeak();
    var sorted := Sort(FlowBefore, flows);
    FirstsSorted(flows, sorted, done);
    InOrderMembers(c);
    KeptOf(sorted, done);
    r := Some(sorted);
  }

  lemma NothingYet(transactions: seq<Transaction>)
    ensures InOrder(transactions[..0]) == []
  {
  }

  lemma KeptOf(flows: seq<Flow>, done: seq<Flow>)
    requires KeptFrom(flows, done)
    ensures Kept(flows, Members(done))
  {
  }

  /** The normal form of a Collection is the only one, whatever its keys repeat. */
  lemma NormalFormIsTheOnlyOne(a: seq<Flow>, b: seq<Flow>, done: seq<Flow>)
    requires KeptFrom(a, done) && KeptFrom(b, done) && Sorted(FlowBefore, a) && Sorted(FlowBefore, b)
    ensures a == b
  {
    FirstsAgree(a, b, done);
    FirstsAgree(b, a, done);
    SameNormalForm(a, b);
  }

  lemma SameNormalForm(a: seq<Flow>, b: seq<Flow>)
    requires DistinctKeys(a) && DistinctKeys(b) && Sorted(FlowBefore, a) && Sorted(FlowBefore, b) && forall f :: f in a <==> f in b
    ensures a == b
  {
    NoRepeats(a);
    NoRepeats(b);
    forall f ensures multiset(a)[f] == multiset(b)[f] { assert f in a <==> f in b; }
    assert multiset(a) == multiset(b);
    forall i, j | 0 <= i < |a| && 0 <= j < |a| && a[i] != a[j] ensures FlowBefore(a[i], a[j]) || FlowBefore(a[j], a[i]) {
      FlowBeforeTotal(a[i], a[j]);
    }
    SortedUnique(FlowBefore, a, b);
  }

  /** Two Collections that show the same transfers, in any order and with any repetition, normalise to one list. */
  lemma NormalFormUnique(a: seq<Flow>, b: seq<Flow>, all: set<Flow>)
    requires KeyConsistent(all) && Kept(a, all) && Kept(b, all) && Sorted(FlowBefore, a) && Sorted(FlowBefore, b)
    ensures a == b
  {
    KeptAll(a, all);
    KeptAll(b, all);
    forall f ensures f in a <==> f in b {
      assert f in a <==> f in Members(a);
      assert f in b <==> f in Members(b);
    }
    SameNormalForm(a, b);
  }

  // ----- signals -----

  /** A map from addresses to address sets that holds what `Recipients` or `Senders` says of the flows so far. */
  method FanOutOf(flows: seq<Flow>) returns (result: set<string>)
    ensures result == FanOut(Members(flows))
  {
    var recipients: map<string, set<string>> := map[];
    for i := 0 to |flows|
      invariant forall a :: a in recipients ==> recipients[a] == Recipients(Members(flows[..i]), a)
      invariant forall a :: a !in recipients ==> Recipients(Members(flows[..i]), a) == {}
    {
      var f := flows[i];
      assert flows[..i + 1] == flows[..i] + [f];
      assert Members(flows[..i + 1]) == Members(flows[..i]) + {f};
      forall a ensures Recipients(Members(flows[..i + 1]), a) ==
        Recipients(Members(flows[..i]), a) + if BetweenOthers(f) && f.from == a then {f.to} else {} {}
      if BetweenOthers(f) {
        recipients := recipients[f.from := (if f.from in recipients then recipients[f.from] else {}) + {f.to}];
      }
    }
    assert flows[..|flows|] == flows;
    result := AddressesMeetingCardinality(recipients, FAN_THRESHOLD);
    forall a ensures a in result <==> a in FanOut(Members(flows)) {
      if a in recipients && |recipients[a]| >= FAN_THRESHOLD {
        var to :| to in recipients[a];
      }
    }
  }

  method FanInOf(flows: seq<Flow>) returns (result: set<string>)
    ensures result == FanIn(Members(flows))
  {
    var senders: map<string, set<string>> := map[];
    for i := 0 to |flows|
      invariant forall a :: a in senders ==> senders[a] == Senders(Members(flows[..i]), a)
      invariant forall a :: a !in senders ==> Senders(Members(flows[..i]), a) == {}
    {
      var f := flows[i];
      assert flows[..i + 1] == flows[..i] + [f];
      assert Members(flows[..i + 1]) == Members(flows[..i]) + {f};
      forall a ensures Senders(Members(flows[..i + 1]), a) ==
        Senders(Members(flows[..i]), a) + if BetweenOthers(f) && f.to == a then {f.from} else {} {}
      if BetweenOthers(f) {
        senders := senders[f.to := (if f.to in senders then senders[f.to] else {}) + {f.from}];
      }
    }
    assert flows[..|flows|] == flows;
    result := AddressesMeetingCardinality(senders, FAN_THRESHOLD);
    forall a ensures a in result <==> a in FanIn(Members(flows)) {
      if a in senders && |senders[a]| >= FAN_THRESHOLD {
        var from :| from in senders[a];
      }
    }
  }

  method AddressesMeetingCardinality(values: map<string, set<string>>, threshold: nat) returns (result: set<string>)
    ensures result == set a | a in values && |values[a]| >= threshold
  {
    result := {};
    var rest := values.Keys;
    while rest != {}
      invariant rest <= values.Keys && result == set a | a in values && a !in rest && |values[a]| >= threshold
      decreases |rest|
    {
      var a :| a in rest;
      rest := rest - {a};
      if |values[a]| >= threshold {
        result := result + {a};
      }
    }
  }

  /** The transfers whose chosen end is the address, in list order. */
  function Touching(flows: seq<Flow>, end: Flow -> string, a: string): seq<Flow> {
    if flows == [] then [] else Touching(flows[..|flows| - 1], end, a) + if end(flows[|flows| - 1]) == a then [flows[|flows| - 1]] else []
  }

  lemma {:induction false} TouchingMembers(flows: seq<Flow>, end: Flow -> string, a: string)
    ensures forall f :: f in Touching(flows, end, a) <==> f in flows && end(f) == a
    ensures DistinctKeys(flows) ==> DistinctKeys(Touching(flows, end, a))
  {
    if flows != [] {
      var n := |flows| - 1;
      assert flows == flows[..n] + [flows[n]];
      TouchingMembers(flows[..n], end, a);
      forall f ensures f in flows <==> f in flows[..n] || f == flows[n] {}
      if DistinctKeys(flows) {
        forall f | f in flows[..n] ensures f.key != flows[n].key {}
      }
    }
  }

  function Sender(): Flow -> string { (f: Flow) => f.from }
  function Recipient(): Flow -> string { (f: Flow) => f.to }

  ghost predicate Grouped(groups: map<string, seq<Flow>>, flows: seq<Flow>, end: Flow -> string) {
    forall a {:trigger Touching(flows, end, a)} :: Touching(flows, end, a) == if a in groups then groups[a] else []
  }

  function Group(groups: map<string, seq<Flow>>, a: string): seq<Flow> {
    if a in groups then groups[a] else []
  }

  method GroupBy(flows: seq<Flow>, end: Flow -> string) returns (groups: map<string, seq<Flow>>)
    ensures Grouped(groups, flows, end)
    ensures forall a :: a in groups ==> groups[a] != []
  {
    groups := map[];
    for i := 0 to |flows|
      invariant Grouped(groups, flows[..i], end)
      invariant forall a :: a in groups ==> groups[a] != []
    {
      var f := flows[i];
      var a := end(f);
      ghost var before := groups;
      groups := groups[a := Group(groups, a) + [f]];
      assert flows[..i + 1][..i] == flows[..i];
      forall b ensures Touching(flows[..i + 1], end, b) == Group(groups, b) {
        assert Touching(flows[..i], end, b) == Group(before, b);
      }
    }
    assert flows[..|flows|] == flows;
  }

  lemma ForwardNext(sent: seq<Flow>, k: nat, receipt: Flow)
    requires DistinctKeys(sent) && k < |sent|
    ensures SumAmounts(Forwardings(Members(sent[..k + 1]), receipt)) ==
            SumAmounts(Forwardings(Members(sent[..k]), receipt)) + if ForwardedFrom(receipt, sent[k]) then sent[k].amount else 0
  {
    var before, after := Forwardings(Members(sent[..k]), receipt), Forwardings(Members(sent[..k + 1]), receipt);
    assert sent[..k + 1] == sent[..k] + [sent[k]];
    forall f | f in sent[..k] ensures f != sent[k] {}
    hide ForwardedFrom, SumAmounts;
    if ForwardedFrom(receipt, sent[k]) {
      SumWithout(after, sent[k]);
      assert after - {sent[k]} == before;
    } else {
      assert after == before;
    }
  }

  lemma ForwardingsTouch(flows: seq<Flow>, sent: seq<Flow>, receipt: Flow)
    requires sent == Touching(flows, Sender(), receipt.to) && DistinctKeys(flows)
    ensures DistinctKeys(sent) && (forall f :: f in sent ==> f.from == receipt.to)
    ensures Forwardings(Members(sent), receipt) == Forwardings(Members(flows), receipt)
    ensures Forwardings(Members(sent[..0]), receipt) == {} && sent[..|sent|] == sent
  {
    TouchingMembers(flows, Sender(), receipt.to);
  }

  /** The sum the inner loop accumulates for one receipt. */
  method ForwardedAmount(sent: seq<Flow>, receipt: Flow, ghost flows: seq<Flow>) returns (forwarded: nat)
    requires sent == Touching(flows, Sender(), receipt.to) && DistinctKeys(flows)
    ensures forwarded == SumAmounts(Forwardings(Members(flows), receipt))
  {
    ForwardingsTouch(flows, sent, receipt);
    hide Touching, DistinctKeys, Members, Forwardings;
    forwarded := 0;
    for k := 0 to |sent|
      invariant forwarded == SumAmounts(Forwardings(Members(sent[..k]), receipt))
    {
      var s := sent[k];
      ForwardNext(sent, k, receipt);
      assert s in sent;
      if s.key == receipt.key || s.at < receipt.at || s.at > receipt.at + RAPID_WINDOW {
        continue;
      }
      forwarded := forwarded + s.amount;
    }
  }

  ghost predicate SomeForwards(flows: set<Flow>, received: seq<Flow>) {
    exists r :: r in received && ForwardsRapidly(flows, r)
  }

  method AddressForwards(received: seq<Flow>, sent: seq<Flow>, a: string, ghost flows: seq<Flow>) returns (found: bool)
    requires received == Touching(flows, Recipient(), a) && sent == Touching(flows, Sender(), a) && DistinctKeys(flows)
    ensures found <==> SomeForwards(Members(flows), received)
  {
    TouchingMembers(flows, Recipient(), a);
    hide ForwardsRapidly;
    for k := 0 to |received|
      invariant forall j :: 0 <= j < k ==> !ForwardsRapidly(Members(flows), received[j])
    {
      var receipt := received[k];
      assert receipt in received && receipt.to == a;
      var forwarded := ForwardedAmount(sent, receipt, flows);
      ForwardsWhen(Members(flows), receipt, forwarded);
      if receipt.amount != 0 && AtLeastRatio(forwarded, receipt.amount, 80, 100) {
        return true;
      }
    }
    found := false;
  }

  lemma ForwardsWhen(flows: set<Flow>, receipt: Flow, forwarded: nat)
    requires forwarded == SumAmounts(Forwardings(flows, receipt))
    ensures ForwardsRapidly(flows, receipt) <==> receipt.amount != 0 && AtLeastRatio(forwarded, receipt.amount, 80, 100)
  {
  }

  method RapidForwarding(flows: seq<Flow>) returns (result: set<string>)
    requires DistinctKeys(flows)
    ensures result == Rapid(Members(flows))
  {
    var incoming := GroupBy(flows, Recipient());
    var outgoing := GroupBy(flows, Sender());
    result := {};
    hide ForwardsRapidly, SomeForwards;
    var rest := incoming.Keys;
    while rest != {}
      invariant rest <= incoming.Keys
      invariant forall a {:trigger a in result} :: a in result <==> a in incoming && a !in rest && SomeForwards(Members(flows), incoming[a])
      decreases |rest|
    {
      var a :| a in rest;
      rest := rest - {a};
      assert Touching(flows, Recipient(), a) == incoming[a] && Touching(flows, Sender(), a) == Group(outgoing, a);
      var found := AddressForwards(incoming[a], Group(outgoing, a), a, flows);
      if found {
        result := result + {a};
      }
    }
    RapidFound(flows, incoming, result);
  }

  lemma RapidFound(flows: seq<Flow>, incoming: map<string, seq<Flow>>, result: set<string>)
    requires Grouped(incoming, flows, Recipient())
    requires forall a {:trigger a in result} :: a in result <==> a in incoming && SomeForwards(Members(flows), incoming[a])
    ensures result == Rapid(Members(flows))
  {
    forall a ensures a in result <==> a in Rapid(Members(flows)) {
      TouchingMembers(flows, Recipient(), a);
      assert Touching(flows, Recipient(), a) == Group(incoming, a);
      if a in Rapid(Members(flows)) {
        var r :| r in Members(flows) && ForwardsRapidly(Members(flows), r) && r.to == a;
        assert r in Touching(flows, Recipient(), a);
      }
    }
  }

  method TargetConnectedForwarding(target: string, flows: seq<Flow>) returns (result: set<string>)
    ensures result == TargetConnected(Members(flows), target)
  {
    result := {};
    if target == "" {
      return;
    }
    var outgoing := GroupBy(flows, Sender());
    var firsts := Group(outgoing, target);
    assert firsts == Touching(flows, Sender(), target);
    TouchingMembers(flows, Sender(), target);
    for i := 0 to |firsts|
      invariant forall a {:trigger a in result} :: a in result <==> FollowedByOneOf(flows, target, firsts[..i], a)
    {
      assert firsts[..i + 1] == firsts[..i] + [firsts[i]];
      var first := firsts[i];
      assert first in firsts;
      if first.to == target || first.amount == 0 {
        continue;
      }
      var found := Followers(target, first, Group(outgoing, first.to), flows, outgoing);
      result := result + found;
    }
    assert firsts[..|firsts|] == firsts;
    ConnectedFound(flows, target, firsts, result);
  }

  ghost predicate FollowedByOneOf(flows: seq<Flow>, target: string, firsts: seq<Flow>, a: string) {
    exists f :: f in firsts && FollowedBy(flows, target, f, a)
  }

  ghost predicate FollowedBy(flows: seq<Flow>, target: string, first: Flow, a: string) {
    exists s :: s in flows && ForwardingPath(target, first, s) && a in {target, first.to, s.to}
  }

  method Followers(target: string, first: Flow, seconds: seq<Flow>, ghost flows: seq<Flow>, ghost outgoing: map<string, seq<Flow>>) returns (found: set<string>)
    requires first.from == target && first.to != target && first.amount != 0
    requires Grouped(outgoing, flows, Sender()) && seconds == Group(outgoing, first.to)
    ensures forall a {:trigger a in found} :: a in found <==> FollowedBy(flows, target, first, a)
  {
    found := {};
    assert seconds == Touching(flows, Sender(), first.to);
    TouchingMembers(flows, Sender(), first.to);
    for k := 0 to |seconds|
      invariant forall a {:trigger a in found} :: a in found <==> exists j {:trigger seconds[j]} :: 0 <= j < k && ForwardingPath(target, first, seconds[j]) && a in {target, first.to, seconds[j].to}
    {
      var second := seconds[k];
      assert second in seconds;
      if second.key == first.key || second.to == first.to || second.at < first.at || second.at > first.at + PATH_WINDOW {
        continue;
      }
      if AtLeastRatio(second.amount, first.amount, 70, 100) {
        found := found + {target, first.to, second.to};
      }
    }
    forall a | FollowedBy(flows, target, first, a) ensures a in found {
      var s :| s in flows && ForwardingPath(target, first, s) && a in {target, first.to, s.to};
      assert s in seconds;
      var j :| 0 <= j < |seconds| && seconds[j] == s;
    }
    forall a | a in found ensures FollowedBy(flows, target, first, a) {
      var j :| 0 <= j < |seconds| && ForwardingPath(target, first, seconds[j]) && a in {target, first.to, seconds[j].to};
      assert seconds[j] in seconds;
    }
  }

  lemma ConnectedFound(flows: seq<Flow>, target: string, firsts: seq<Flow>, result: set<string>)
    requires target != "" && (forall f :: f in firsts <==> f in flows && f.from == target)
    requires forall a {:trigger a in result} :: a in result <==> FollowedByOneOf(flows, target, firsts, a)
    ensures result == TargetConnected(Members(flows), target)
  {
    forall a | a in result ensures a in TargetConnected(Members(flows), target) {
      var f :| f in firsts && FollowedBy(flows, target, f, a);
      var s :| s in flows && ForwardingPath(target, f, s) && a in {target, f.to, s.to};
      assert OnForwardingPath(Members(flows), target, a);
      assert f in Members(flows) && s in Members(flows);
    }
    forall a | a in TargetConnected(Members(flows), target) ensures a in result {
      var f, s :| f in Members(flows) && s in Members(flows) && ForwardingPath(target, f, s) && a in {target, f.to, s.to};
      assert f in firsts && FollowedBy(flows, target, f, a);
    }
  }

  method CircularFlowOf(flows: seq<Flow>) returns (result: set<string>)
    ensures result == Circular(Members(flows))
  {
    var edges := FlowEdges(Members(flows));
    result := CircularFlow(edges);
    forall a | a in result ensures a in Circular(Members(flows)) {
      var q :| Cycle(edges, q) && a in q;
      var i :| 0 <= i < |q| && q[i] == a;
      var edge := (a, if i + 1 < |q| then q[i + 1] else q[0]);
      assert edge in edges;
      var f :| f in Members(flows) && BetweenOthers(f) && (f.from, f.to) == edge;
    }
  }

  // ----- Evaluate -----

  /** nodeSignals[a]: the signals the address qualifies for, in order. */
  function SignalsFor(signals: seq<Signal>, a: string): seq<Signal> {
    if signals == [] then []
    else SignalsFor(signals[..|signals| - 1], a) + if a in signals[|signals| - 1].qualifying then [signals[|signals| - 1]] else []
  }

  ghost predicate NodeSignals(m: map<string, seq<Signal>>, signals: seq<Signal>) {
    m.Keys == Qualified(signals) && forall a {:trigger m[a]} :: a in m ==> m[a] == SignalsFor(signals, a)
  }

  lemma {:induction false} Unqualified(signals: seq<Signal>, a: string)
    requires a !in Qualified(signals)
    ensures SignalsFor(signals, a) == []
  {
    if signals != [] {
      var n := |signals| - 1;
      assert signals[n] in signals;
      assert forall s :: s in signals[..n] ==> s in signals;
      Unqualified(signals[..n], a);
    }
  }

  lemma QualifiedSnoc(signals: seq<Signal>, s: Signal)
    ensures Qualified(signals + [s]) == Qualified(signals) + s.qualifying
  {
    assert forall x :: x in signals + [s] <==> x in signals || x == s;
  }

  method AppendSignal(m: map<string, seq<Signal>>, ghost signals: seq<Signal>, s: Signal) returns (r: map<string, seq<Signal>>)
    requires NodeSignals(m, signals)
    ensures NodeSignals(r, signals + [s])
  {
    r := m;
    var rest := s.qualifying;
    while rest != {}
      invariant rest <= s.qualifying && r.Keys == m.Keys + (s.qualifying - rest)
      invariant forall a {:trigger r[a]} :: a in r ==>
        r[a] == SignalsFor(signals, a) + if a in s.qualifying && a !in rest then [s] else []
      decreases rest
    {
      var a :| a in rest;
      if a !in r { Unqualified(signals, a); }
      r := r[a := (if a in r then r[a] else []) + [s]];
      rest := rest - {a};
    }
    QualifiedSnoc(signals, s);
    assert (signals + [s])[..|signals|] == signals;
  }

  function Always(): Signal -> bool { (s: Signal) => true }

  lemma NodeSnoc(list: seq<Signal>, s: Signal)
    ensures WeightOf(list + [s], Always()) == WeightOf(list, Always()) + s.weight
    ensures ReasonsOf(list + [s], Always()) == ReasonsOf(list, Always()) + [s.reason]
  {
    assert (list + [s])[..|list|] == list;
  }

  lemma {:induction false} NodeFromSignals(signals: seq<Signal>, a: string)
    ensures WeightOf(SignalsFor(signals, a), Always()) == WeightOf(signals, Qualifies(a))
    ensures ReasonsOf(SignalsFor(signals, a), Always()) == ReasonsOf(signals, Qualifies(a))
  {
    if signals != [] {
      var n := |signals| - 1;
      NodeFromSignals(signals[..n], a);
      NodeSnoc(SignalsFor(signals[..n], a), signals[n]);
      hide Always;
      assert SignalsFor(signals[..n], a) + [] == SignalsFor(signals[..n], a);
      assert ReasonsOf(signals[..n], Qualifies(a)) + [] == ReasonsOf(signals[..n], Qualifies(a));
    }
  }

  /** Score, reasons and level of one list of signals, capped as the source caps them. */
  method AddUp(signals: seq<Signal>, ghost p: Signal -> bool) returns (score: int, reasons: seq<string>)
    requires (forall s :: s in signals ==> p(s)) && WeightOf(signals, p) <= 100
    ensures score == WeightOf(signals, p) && reasons == ReasonsOf(signals, p)
  {
    score, reasons := 0, [];
    for i := 0 to |signals|
      invariant score == WeightOf(signals[..i], p) && reasons == ReasonsOf(signals[..i], p)
    {
      assert signals[..i + 1][..i] == signals[..i];
      assert signals[i] in signals;
      score := score + signals[i].weight;
      reasons := reasons + [signals[i].reason];
    }
    assert signals[..|signals|] == signals;
    if score > 100 {
      score := 100;
    }
  }

  method NodeFor(a: string, list: seq<Signal>, ghost flows: set<Flow>, ghost target: string) returns (node: NodeAssessment)
    requires list == SignalsFor(Signals(flows, target), a)
    ensures node == Node(Signals(flows, target), a)
  {
    hide Signals, SignalsFor;
    NodeFromSignals(Signals(flows, target), a);
    ScoreNeverCapped(flows, target, Qualifies(a));
    var score, reasons := AddUp(list, Always());
    node := NodeAssessment(a, score, Level(score), reasons);
  }

  method Nodes(nodeSignals: map<string, seq<Signal>>, ghost flows: set<Flow>, ghost target: string) returns (nodes: seq<NodeAssessment>)
    requires NodeSignals(nodeSignals, Signals(flows, target))
    ensures AreNodes(Signals(flows, target), nodes)
  {
    hide Signals, Qualified, AreNodes, SignalsFor, Node;
    ghost var signals := Signals(flows, target);
    var addresses := SortedSet(nodeSignals.Keys);
    nodes := [];
    for i := 0 to |addresses|
      invariant |nodes| == i
      invariant forall j {:trigger nodes[j]} {:trigger addresses[j]} :: 0 <= j < i ==> nodes[j] == Node(signals, addresses[j])
    {
      assert addresses[i] in nodeSignals;
      var node := NodeFor(addresses[i], nodeSignals[addresses[i]], flows, target);
      nodes := nodes + [node];
    }
    NodesAreThose(signals, addresses, nodes);
  }

  lemma NodesAreThose(signals: seq<Signal>, addresses: seq<string>, nodes: seq<NodeAssessment>)
    requires (forall a :: a in addresses <==> a in Qualified(signals)) && |nodes| == |addresses|
    requires forall i, j :: 0 <= i < j < |addresses| ==> Before(addresses[i], addresses[j])
    requires forall j {:trigger nodes[j]} {:trigger addresses[j]} :: 0 <= j < |nodes| ==> nodes[j] == Node(signals, addresses[j])
    ensures AreNodes(signals, nodes)
  {
    forall a | a in Qualified(signals) ensures Node(signals, a) in nodes {
      var j :| 0 <= j < |addresses| && addresses[j] == a;
      assert nodes[j] in nodes;
    }
    forall n | n in nodes ensures n.address in Qualified(signals) && n == Node(signals, n.address) {
      var j :| 0 <= j < |nodes| && nodes[j] == n;
      assert addresses[j] in addresses;
    }
  }

  datatype EvaluationResult = Evaluated(evaluation: Evaluation) | InvalidAmount | ContextEnded

  /** Evaluate. Its verdict is about the first transfer of each key; when repetitions agree, about all of them. */
  method Evaluate(target: string, c: Collection, contextEnded: bool) returns (r: EvaluationResult, ghost kept: seq<Flow>)
    ensures r.InvalidAmount? <==> !AmountsValid(c.transactions)
    ensures r.ContextEnded? <==> AmountsValid(c.transactions) && Flows(c) != {} && contextEnded
    ensures r.Evaluated? ==> KeptFrom(kept, InOrder(c.transactions)) && Kept(kept, Flows(c)) && IsVerdict(Members(kept), target, r.evaluation)
    ensures r.Evaluated? && KeyConsistent(Flows(c)) ==> IsVerdict(Flows(c), target, r.evaluation)
  {
    kept := [];
    var normalized := Normalize(c);
    if normalized.None? {
      return InvalidAmount, kept;
    }
    var flows := normalized.value;
    kept := flows;
    if KeyConsistent(Flows(c)) { KeptAll(kept, Flows(c)); }
    if |flows| == 0 {
      assert Flows(c) == {} by { if f :| f in Flows(c) { assert f.key in KeysOf(kept); } }
      return Evaluated(Evaluation(None, "", [], [], RULES_SOURCE)), kept;
    }
    assert flows[0] in Members(kept) && flows[0] in Flows(c);
    if contextEnded {
      return ContextEnded, kept;
    }
    var e := Assess(target, flows);
    r := Evaluated(e);
  }

  method Assess(target: string, flows: seq<Flow>) returns (e: Evaluation)
    requires DistinctKeys(flows) && flows != []
    ensures IsVerdict(Members(flows), target, e)
  {
    ghost var all := Members(flows);
    var fanOut := FanOutOf(flows);
    var fanIn := FanInOf(flows);
    var rapid := RapidForwarding(flows);
    var connected := TargetConnectedForwarding(target, flows);
    var circular := CircularFlowOf(flows);
    var signals := [Signal("fan_out", 20, fanOut), Signal("fan_in", 15, fanIn), Signal("rapid_forwarding", 25, rapid),
                    Signal("target_connected_forwarding", 25, connected), Signal("circular_flow", 15, circular)];
    assert signals == Signals(all, target);
    ScoreNeverCapped(all, target, Fires);
    hide Signals;
    var score, reasons := 0, [];
    var nodeSignals: map<string, seq<Signal>> := map[];
    for i := 0 to |signals|
      invariant score == WeightOf(signals[..i], Fires) && reasons == ReasonsOf(signals[..i], Fires)
      invariant NodeSignals(nodeSignals, signals[..i])
    {
      var signal := signals[i];
      assert signals[..i + 1][..i] == signals[..i] && signals[..i + 1] == signals[..i] + [signal];
      ghost var before := nodeSignals;
      nodeSignals := AppendSignal(nodeSignals, signals[..i], signal);
      if |signal.qualifying| != 0 {
        score := score + signal.weight;
        reasons := reasons + [signal.reason];
      }
    }
    assert signals[..|signals|] == signals;
    if score > 100 {
      score := 100;
    }
    var nodes := Nodes(nodeSignals, all, target);
    assert flows[0] in all;
    e := Evaluation(Some(score), Level(score), reasons, nodes, RULES_SOURCE);
  }

  /** Evaluating the same transfers in another order, or with repetitions, gives the same evaluation. */
  lemma OrderAndRepetitionIrrelevant(target: string, c1: Collection, c2: Collection, e1: Evaluation, e2: Evaluation)
    requires Flows(c1) == Flows(c2) && KeyConsistent(Flows(c1))
    requires IsVerdict(Flows(c1), target, e1) && IsVerdict(Flows(c2), target, e2)
    ensures e1 == e2
  {
    VerdictUnique(Flows(c1), target, e1, e2);
  }
}
