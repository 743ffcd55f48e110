/** The tables Collect fills: Blockchain Transactions by key, and what they hold. */
module CollectorTables {
  import opened Chain
  import opened CollectorModel
  import opened Order

  /** transactions, seenTransfers, visitedAddresses, nextAddresses and reachedDepth of Collect. */
  datatype Tally = Tally(
    transactions: map<string, Transaction>,
    seen: set<string>,
    visited: set<string>,
    next: set<string>,
    reached: nat)

  /** One stored transaction: eligible, not empty, each event once, each transfer the one admitted under its key. */
  predicate EntrySound(key: string, t: Transaction, r: Request, admitted: map<string, Candidate>) {
    && TransactionKey(t) == key && t.transfers != [] && EligibleTransaction(t, r)
    && (forall i :: 0 <= i < |t.transfers| ==>
          TransferKey(t, t.transfers[i]) in admitted && admitted[TransferKey(t, t.transfers[i])].transfer == t.transfers[i]
          && TransactionKey(admitted[TransferKey(t, t.transfers[i])].transaction) == key)
    && (forall i, j :: 0 <= i < j < |t.transfers| ==> t.transfers[i].event != t.transfers[j].event)
  }

  /** A transaction without its transfers: the block it is in, and whether it counts. */
  function Header(t: Transaction): Transaction {
    t.(transfers := [])
  }

  /** The block and confirmation stored with a transaction are those of a candidate admitted from it. */
  ghost predicate Headed(t: Transaction, admitted: map<string, Candidate>) {
    exists key :: key in admitted && Header(admitted[key].transaction) == Header(t)
  }

  predicate Stored(transactions: map<string, Transaction>, c: Candidate) {
    TransactionKey(c.transaction) in transactions && c.transfer in transactions[TransactionKey(c.transaction)].transfers
  }

  /** The table holds exactly the admitted candidates. */
  ghost predicate TableSound(transactions: map<string, Transaction>, r: Request, admitted: map<string, Candidate>) {
    && (forall key {:trigger EntrySound(key, transactions[key], r, admitted)} :: key in transactions ==> EntrySound(key, transactions[key], r, admitted))
    && (forall key {:trigger Headed(transactions[key], admitted)} :: key in transactions ==> Headed(transactions[key], admitted))
    && (forall key {:trigger Stored(transactions, admitted[key])} :: key in admitted ==> Key(admitted[key]) == key && Stored(transactions, admitted[key]))
  }

  /** admitTransfer. */
  function Admit(transactions: map<string, Transaction>, c: Candidate): map<string, Transaction> {
    var key := TransactionKey(c.transaction);
    var stored := if key in transactions then transactions[key] else c.transaction.(transfers := []);
    transactions[key := stored.(transfers := stored.transfers + [c.transfer])]
  }

  lemma AdmitKeepsHeader(transactions: map<string, Transaction>, r: Request, admitted: map<string, Candidate>, c: Candidate, key: string)
    requires TableSound(transactions, r, admitted) && Key(c) !in admitted && key in Admit(transactions, c)
    ensures Headed(Admit(transactions, c)[key], admitted[Key(c) := c])
  {
    var after, admitted' := Admit(transactions, c), admitted[Key(c) := c];
    if key in transactions {
      assert Headed(transactions[key], admitted);
      var k :| k in admitted && Header(admitted[k].transaction) == Header(transactions[key]);
      assert admitted'[k] == admitted[k] && Header(after[key]) == Header(transactions[key]);
    } else {
      assert Header(admitted'[Key(c)].transaction) == Header(after[key]);
    }
  }

  lemma AdmitKeepsEntry(transactions: map<string, Transaction>, r: Request, admitted: map<string, Candidate>, c: Candidate, k: string)
    requires TableSound(transactions, r, admitted) && Key(c) !in admitted && EligibleTransaction(c.transaction, r) && k in Admit(transactions, c)
    ensures EntrySound(k, Admit(transactions, c)[k], r, admitted[Key(c) := c])
  {
    var key, after, admitted' := TransactionKey(c.transaction), Admit(transactions, c), admitted[Key(c) := c];
    if k in transactions { assert EntrySound(k, transactions[k], r, admitted); }
    hide Headed, EligibleTransaction;
    if k == key {
      var t := after[key];
      var last := |t.transfers| - 1;
      assert TransferKey(t, c.transfer) == Key(c);
      forall i | 0 <= i < |t.transfers|
        ensures TransferKey(t, t.transfers[i]) in admitted' && admitted'[TransferKey(t, t.transfers[i])].transfer == t.transfers[i]
        ensures TransactionKey(admitted'[TransferKey(t, t.transfers[i])].transaction) == key
        ensures i < last ==> t.transfers[i].event != c.transfer.event
      {
        if i < last {
          assert t.transfers[i] == transactions[key].transfers[i];
          assert TransferKey(t, t.transfers[i]) == TransferKey(transactions[key], transactions[key].transfers[i]);
        }
      }
    }
  }

  lemma AdmitKeepsTable(transactions: map<string, Transaction>, r: Request, admitted: map<string, Candidate>, c: Candidate)
    requires TableSound(transactions, r, admitted) && Key(c) !in admitted && EligibleTransaction(c.transaction, r)
    ensures TableSound(Admit(transactions, c), r, admitted[Key(c) := c])
  {
    var after, admitted' := Admit(transactions, c), admitted[Key(c) := c];
    hide Headed, EntrySound;
    forall k | k in after ensures Headed(after[k], admitted') { AdmitKeepsHeader(transactions, r, admitted, c, k); }
    forall k | k in after ensures EntrySound(k, after[k], r, admitted') { AdmitKeepsEntry(transactions, r, admitted, c, k); }
    forall k | k in admitted' ensures Key(admitted'[k]) == k && Stored(after, admitted'[k]) {
      if k != Key(c) { assert Stored(transactions, admitted[k]); }
    }
  }

  // ----- counting -----

  /** transferMapCount, summed in any order. */
  ghost function Total(transactions: map<string, Transaction>): nat
    decreases |transactions|
  {
    if transactions == map[] then 0
    else
      var key :| key in transactions;
      |transactions[key].transfers| + Total(transactions - {key})
  }

  lemma {:induction false} TotalWithout(transactions: map<string, Transaction>, key: string)
    requires key in transactions
    ensures Total(transactions) == |transactions[key].transfers| + Total(transactions - {key})
    decreases |transactions|
  {
    var first :| first in transactions && Total(transactions) == |transactions[first].transfers| + Total(transactions - {first});
    if first != key {
      TotalWithout(transactions - {first}, key);
      TotalWithout(transactions - {key}, first);
      assert transactions - {first} - {key} == transactions - {key} - {first};
    }
  }

  lemma TotalAdmit(transactions: map<string, Transaction>, c: Candidate)
    ensures Total(Admit(transactions, c)) == Total(transactions) + 1
  {
    var key, after := TransactionKey(c.transaction), Admit(transactions, c);
    TotalWithout(after, key);
    assert after - {key} == transactions - {key};
    if key in transactions { TotalWithout(transactions, key); } else { assert transactions - {key} == transactions; }
  }

  method TransferMapCount(transactions: map<string, Transaction>) returns (count: nat)
    ensures count == Total(transactions)
  {
    var rest := transactions;
    count := 0;
    while rest != map[]
      invariant count + Total(rest) == Total(transactions)
      decreases |rest|
    {
      var key :| key in rest;
      TotalWithout(rest, key);
      count := count + |rest[key].transfers|;
      rest := rest - {key};
    }
  }

  // ----- the finished Collection -----

  /** The keys of all transfers in a Collection. */
  function TransferKeys(c: Collection): set<string> {
    set t, transfer | t in c.transactions && transfer in t.transfers :: TransferKey(t, transfer)
  }

  /** Transactions strictly in key order, so no hash twice; none empty; each transaction's events strictly in order. */
  predicate Canonical(c: Collection) {
    && (forall i, j :: 0 <= i < j < |c.transactions| ==> Before(TransactionKey(c.transactions[i]), TransactionKey(c.transactions[j])))
    && (forall t :: t in c.transactions ==> t.transfers != [] && EventsAscending(t))
  }

  predicate EventsAscending(t: Transaction) {
    forall i, j :: 0 <= i < j < |t.transfers| ==> Before(t.transfers[i].event, t.transfers[j].event)
  }

  /** The Collection holds exactly the admitted candidates. */
  ghost predicate Holds(c: Collection, r: Request, admitted: map<string, Candidate>) {
    && Canonical(c) && TransferKeys(c) == admitted.Keys && TransferCount(c.transactions) == |admitted|
    && (forall t :: t in c.transactions ==> EntrySound(TransactionKey(t), t, r, admitted) && Headed(t, admitted))
  }

  predicate EventBefore(a: Transfer, b: Transfer) {
    Before(a.event, b.event)
  }

  lemma EventBeforeIsStrictWeak()
    ensures StrictWeak(EventBefore)
  {
    BeforeIsStrictWeak();
  }

  /** t is the stored entry with its transfers put in event order. */
  ghost predicate EntryDone(key: string, stored: Transaction, t: Transaction, r: Request, admitted: map<string, Candidate>) {
    EntrySound(key, t, r, admitted) && EventsAscending(t) && SameTransfers(stored, t) && Header(t) == Header(stored)
  }

  ghost predicate SameTransfers(a: Transaction, b: Transaction) {
    |a.transfers| == |b.transfers| && forall transfer :: transfer in a.transfers <==> transfer in b.transfers
  }

  method SortedEntry(key: string, t: Transaction, r: Request, ghost admitted: map<string, Candidate>) returns (s: Transaction)
    requires EntrySound(key, t, r, admitted)
    ensures EntryDone(key, t, s, r, admitted)
  {
    EventBeforeIsStrictWeak();
    var sorted := Sort(EventBefore, t.transfers);
    s := t.(transfers := sorted);
    SameMembers(t.transfers, sorted);
    NoRepeats(t.transfers);
    forall i, j | 0 <= i < j < |sorted| ensures Before(sorted[i].event, sorted[j].event) {
      RepeatCounted(sorted, i, j);
      assert sorted[i] in t.transfers && sorted[j] in t.transfers;
      BeforeTotal(sorted[i].event, sorted[j].event);
    }
    forall i | 0 <= i < |sorted|
      ensures TransferKey(s, sorted[i]) in admitted && admitted[TransferKey(s, sorted[i])].transfer == sorted[i]
      ensures TransactionKey(admitted[TransferKey(s, sorted[i])].transaction) == key
    {
      assert sorted[i] in t.transfers;
      var k :| 0 <= k < |t.transfers| && t.transfers[k] == sorted[i];
      assert TransferKey(s, sorted[i]) == TransferKey(t, t.transfers[k]);
    }
    forall i, j | 0 <= i < j < |sorted| ensures sorted[i].event != sorted[j].event { BeforeTotal(sorted[i].event, sorted[j].event); }
  }

  lemma {:induction false} CountIsTotal(keys: seq<string>, result: seq<Transaction>, transactions: map<string, Transaction>)
    requires |keys| == |result| == |transactions|
    requires forall i, j :: 0 <= i < j < |keys| ==> keys[i] != keys[j]
    requires forall i :: 0 <= i < |keys| ==> keys[i] in transactions && |result[i].transfers| == |transactions[keys[i]].transfers|
    ensures TransferCount(result) == Total(transactions)
  {
    if keys != [] {
      var n := |keys| - 1;
      TotalWithout(transactions, keys[n]);
      CountIsTotal(keys[..n], result[..n], transactions - {keys[n]});
    }
  }

  ghost predicate AllDone(keys: seq<string>, transactions: map<string, Transaction>, result: seq<Transaction>, r: Request, admitted: map<string, Candidate>) {
    && |result| <= |keys|
    && forall j {:trigger keys[j]} {:trigger result[j]} :: 0 <= j < |result| ==>
         keys[j] in transactions && EntryDone(keys[j], transactions[keys[j]], result[j], r, admitted)
  }

  /** completedCollection. */
  method CompletedCollection(transactions: map<string, Transaction>, reached: nat, stopReason: string, partial: bool, confidence: int,
                             r: Request, ghost admitted: map<string, Candidate>)
    returns (c: Collection)
    requires TableSound(transactions, r, admitted) && Total(transactions) == |admitted|
    ensures Holds(c, r, admitted)
    ensures c.stopReason == stopReason && c.partial == partial && c.confidence == confidence && c.reachedDepth == reached
  {
    var keys := SortedSet(transactions.Keys);
    var result: seq<Transaction> := [];
    for i := 0 to |keys|
      invariant |result| == i && AllDone(keys, transactions, result, r, admitted)
    {
      assert keys[i] in transactions;
      assert EntrySound(keys[i], transactions[keys[i]], r, admitted);
      var entry := SortedEntry(keys[i], transactions[keys[i]], r, admitted);
      DoneSnoc(keys, transactions, result, entry, r, admitted);
      result := result + [entry];
    }
    c := Collection(result, stopReason, partial, confidence, reached);
    DoneHolds(c, keys, transactions, r, admitted);
  }

  lemma DoneSnoc(keys: seq<string>, transactions: map<string, Transaction>, result: seq<Transaction>, entry: Transaction, r: Request, admitted: map<string, Candidate>)
    requires AllDone(keys, transactions, result, r, admitted) && |result| < |keys|
    requires keys[|result|] in transactions && EntryDone(keys[|result|], transactions[keys[|result|]], entry, r, admitted)
    ensures AllDone(keys, transactions, result + [entry], r, admitted)
  {
  }

  lemma HeldHeaders(c: Collection, keys: seq<string>, transactions: map<string, Transaction>, r: Request, admitted: map<string, Candidate>)
    requires TableSound(transactions, r, admitted) && |c.transactions| == |keys| && AllDone(keys, transactions, c.transactions, r, admitted)
    ensures forall t :: t in c.transactions ==> Headed(t, admitted)
  {
    forall t | t in c.transactions ensures Headed(t, admitted) {
      var j :| 0 <= j < |c.transactions| && c.transactions[j] == t;
      assert EntryDone(keys[j], transactions[keys[j]], t, r, admitted);
      assert Headed(transactions[keys[j]], admitted);
      var k :| k in admitted && Header(admitted[k].transaction) == Header(transactions[keys[j]]);
      assert Header(admitted[k].transaction) == Header(t);
    }
  }

  lemma DoneHolds(c: Collection, keys: seq<string>, transactions: map<string, Transaction>, r: Request, admitted: map<string, Candidate>)
    requires TableSound(transactions, r, admitted) && Total(transactions) == |admitted| && |keys| == |transactions|
    requires (forall x :: x in keys <==> x in transactions) && |c.transactions| == |keys|
    requires forall i, j :: 0 <= i < j < |keys| ==> Before(keys[i], keys[j])
    requires AllDone(keys, transactions, c.transactions, r, admitted)
    ensures Holds(c, r, admitted)
  {
    hide *;
    HeldHeaders(c, keys, transactions, r, admitted);
    HeldKeys(c, keys, transactions, r, admitted);
    DoneCount(c.transactions, keys, transactions, r, admitted);
    DoneCanonical(c, keys);
    HoldsBy(c, r, admitted);
  }

  lemma DoneCanonical(c: Collection, keys: seq<string>)
    requires |c.transactions| == |keys|
    requires forall i, j :: 0 <= i < j < |keys| ==> Before(keys[i], keys[j])
    requires forall j :: 0 <= j < |keys| ==> TransactionKey(c.transactions[j]) == keys[j]
    requires forall t :: t in c.transactions ==> EventsAscending(t) && t.transfers != []
    ensures Canonical(c)
  {
    hide Before, TransactionKey, EventsAscending;
  }

  lemma HoldsBy(c: Collection, r: Request, admitted: map<string, Candidate>)
    requires Canonical(c) && TransferKeys(c) == admitted.Keys && TransferCount(c.transactions) == |admitted|
    requires forall t :: t in c.transactions ==> EntrySound(TransactionKey(t), t, r, admitted)
    requires forall t :: t in c.transactions ==> Headed(t, admitted)
    ensures Holds(c, r, admitted)
  {
    hide Canonical, TransferKeys, TransferCount, EntrySound, Headed;
  }

  lemma DoneCount(result: seq<Transaction>, keys: seq<string>, transactions: map<string, Transaction>, r: Request, admitted: map<string, Candidate>)
    requires |keys| == |transactions| == |result|
    requires forall i, j :: 0 <= i < j < |keys| ==> Before(keys[i], keys[j])
    requires AllDone(keys, transactions, result, r, admitted)
    ensures TransferCount(result) == Total(transactions)
  {
    forall i, j | 0 <= i < j < |keys| ensures keys[i] != keys[j] { BeforeTotal(keys[i], keys[j]); }
    forall i | 0 <= i < |keys| ensures keys[i] in transactions && |result[i].transfers| == |transactions[keys[i]].transfers| {
      assert EntryDone(keys[i], transactions[keys[i]], result[i], r, admitted);
    }
    CountIsTotal(keys, result, transactions);
  }

  lemma HeldEntries(c: Collection, keys: seq<string>, transactions: map<string, Transaction>, r: Request, admitted: map<string, Candidate>)
    requires |c.transactions| == |keys| && AllDone(keys, transactions, c.transactions, r, admitted)
    ensures forall t :: t in c.transactions ==> EntrySound(TransactionKey(t), t, r, admitted) && EventsAscending(t) && t.transfers != []
    ensures forall j :: 0 <= j < |keys| ==> TransactionKey(c.transactions[j]) == keys[j]
  {
    forall j | 0 <= j < |keys| ensures TransactionKey(c.transactions[j]) == keys[j] && EntrySound(keys[j], c.transactions[j], r, admitted)
      ensures EventsAscending(c.transactions[j]) && c.transactions[j].transfers != []
    {
      assert EntryDone(keys[j], transactions[keys[j]], c.transactions[j], r, admitted);
    }
  }

  lemma HeldKey(c: Collection, keys: seq<string>, transactions: map<string, Transaction>, r: Request, admitted: map<string, Candidate>, key: string)
    requires TableSound(transactions, r, admitted) && key in admitted
    requires (forall x :: x in keys <==> x in transactions) && |c.transactions| == |keys|
    requires AllDone(keys, transactions, c.transactions, r, admitted)
    ensures key in TransferKeys(c)
  {
    assert Stored(transactions, admitted[key]);
    var k := TransactionKey(admitted[key].transaction);
    var j :| 0 <= j < |keys| && keys[j] == k;
    var t := c.transactions[j];
    assert EntryDone(k, transactions[k], t, r, admitted);
    assert t in c.transactions && admitted[key].transfer in t.transfers;
    assert TransferKey(t, admitted[key].transfer) == Key(admitted[key]);
  }

  lemma HeldKeys(c: Collection, keys: seq<string>, transactions: map<string, Transaction>, r: Request, admitted: map<string, Candidate>)
    requires TableSound(transactions, r, admitted)
    requires (forall x :: x in keys <==> x in transactions) && |c.transactions| == |keys|
    requires AllDone(keys, transactions, c.transactions, r, admitted)
    ensures TransferKeys(c) == admitted.Keys
    ensures forall t :: t in c.transactions ==> EntrySound(TransactionKey(t), t, r, admitted) && EventsAscending(t) && t.transfers != []
    ensures forall j :: 0 <= j < |keys| ==> TransactionKey(c.transactions[j]) == keys[j]
  {
    HeldEntries(c, keys, transactions, r, admitted);
    forall key | key in admitted ensures key in TransferKeys(c) { HeldKey(c, keys, transactions, r, admitted, key); }
    hide TableSound, AllDone;
    forall key | key in TransferKeys(c) ensures key in admitted {
      var t, transfer :| t in c.transactions && transfer in t.transfers && key == TransferKey(t, transfer);
      assert EntrySound(TransactionKey(t), t, r, admitted);
    }
  }
}
