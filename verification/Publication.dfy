/** Publication of one collection: metrics, evidence rows, and the checks that stand between an evaluated
    collection and its Dataset. */
module Publication {
  import opened Wrappers
  import opened Chain
  import opened Order
  import opened CollectorModel
  import opened CollectorTables
  import opened CollectorCollect
  import RulesModel
  import opened RulesV1

  datatype Metrics = Metrics(relatedNodes: nat, transferCount: nat, totalFlow: nat, decimals: int, asset: string)

  datatype TransactionRow = TransactionRow(network: string, hash: string, blockId: string, blockTime: Time, successful: bool, confirmed: bool)

  datatype TransferRow = TransferRow(
    hash: string, event: string, contract: string, asset: string, from: string, to: string, amount: string, decimals: int, timestamp: Time)

  /** All transfers, transaction by transaction. */
  function AllTransfers(transactions: seq<Transaction>): seq<Transfer> {
    if transactions == [] then [] else AllTransfers(transactions[..|transactions| - 1]) + transactions[|transactions| - 1].transfers
  }

  lemma {:induction false} AllTransfersMembers(transactions: seq<Transaction>)
    ensures |AllTransfers(transactions)| == TransferCount(transactions)
    ensures forall x :: x in AllTransfers(transactions) <==> exists t :: t in transactions && x in t.transfers
  {
    if transactions != [] {
      var n := |transactions| - 1;
      AllTransfersMembers(transactions[..n]);
      assert transactions == transactions[..n] + [transactions[n]];
      assert forall t :: t in transactions <==> t in transactions[..n] || t == transactions[n];
    }
  }

  // ----- metrics -----

  predicate SameUnits(transfers: seq<Transfer>) {
    forall i :: 0 <= i < |transfers| ==> transfers[i].decimals == transfers[0].decimals && transfers[i].asset == transfers[0].asset
  }

  predicate Measurable(transfers: seq<Transfer>) {
    (forall i :: 0 <= i < |transfers| ==> IsUnsignedInteger(transfers[i].amount)) && SameUnits(transfers)
  }

  function SumOf(transfers: seq<Transfer>): nat
    requires forall i :: 0 <= i < |transfers| ==> IsUnsignedInteger(transfers[i].amount)
  {
    if transfers == [] then 0 else SumOf(transfers[..|transfers| - 1]) + Amount(transfers[|transfers| - 1])
  }

  function Peers(target: string, transfers: seq<Transfer>): set<string> {
    (set x | x in transfers && x.from != target :: x.from) + (set x | x in transfers && x.to != target :: x.to)
  }

  /** The loop state of calculateMetrics after a prefix of the transfers. */
  predicate Measured(target: string, done: seq<Transfer>, total: nat, peers: set<string>, count: nat, decimals: int, asset: string) {
    Measurable(done) && total == SumOf(done) && peers == Peers(target, done) && count == |done| &&
    (done == [] ==> decimals == 6 && asset == ASSET_USDT) && (done != [] ==> decimals == done[0].decimals && asset == done[0].asset)
  }

  /** The i-th transfer has a malformed amount or other units than the first. */
  predicate Unfit(all: seq<Transfer>, i: int) {
    0 <= i < |all| && (!IsUnsignedInteger(all[i].amount) || all[i].decimals != all[0].decimals || all[i].asset != all[0].asset)
  }

  lemma MeasurableIs(all: seq<Transfer>)
    ensures !Measurable(all) <==> exists i :: Unfit(all, i)
  {
    hide IsUnsignedInteger;
    if !Measurable(all) {
      var i :| 0 <= i < |all| && (!IsUnsignedInteger(all[i].amount) || all[i].decimals != all[0].decimals || all[i].asset != all[0].asset);
      assert Unfit(all, i);
    }
  }

  lemma MeasurableNext(done: seq<Transfer>, x: Transfer)
    requires Measurable(done)
    ensures Measurable(done + [x]) <==> IsUnsignedInteger(x.amount) && (done != [] ==> x.decimals == done[0].decimals && x.asset == done[0].asset)
    ensures Measurable(done + [x]) ==> SumOf(done + [x]) == SumOf(done) + Amount(x)
  {
    var all := done + [x];
    assert all[..|done|] == done && all[|done|] == x;
  }

  lemma PeersNext(target: string, done: seq<Transfer>, x: Transfer)
    ensures Peers(target, done + [x]) == Peers(target, done) + (if x.from != target then {x.from} else {}) + (if x.to != target then {x.to} else {})
  {
    assert forall y :: y in done + [x] <==> y in done || y == x;
  }

  lemma AllTransfersSteps(transactions: seq<Transaction>)
    ensures AllTransfers(transactions[..0]) == [] && transactions[..|transactions|] == transactions
    ensures Measurable([]) && SumOf([]) == 0 && (forall target :: Peers(target, []) == {})
    ensures forall i {:trigger transactions[i]} :: 0 <= i < |transactions| ==>
      AllTransfers(transactions[..i + 1]) == AllTransfers(transactions[..i]) + transactions[i].transfers
  {
    forall i | 0 <= i < |transactions|
      ensures AllTransfers(transactions[..i + 1]) == AllTransfers(transactions[..i]) + transactions[i].transfers
    {
      assert transactions[..i + 1][..i] == transactions[..i];
    }
  }

  lemma Unmeasurable(done: seq<Transfer>, rest: seq<Transfer>)
    requires Measurable(done + rest)
    ensures Measurable(done)
  {
    assert forall i :: 0 <= i < |done| ==> (done + rest)[i] == done[i];
  }

  /** calculateMetrics: an error exactly for a malformed amount or mixed units; otherwise every column of the metrics. */
  method CalculateMetrics(target: string, transactions: seq<Transaction>) returns (r: Option<Metrics>)
    ensures r.Some? <==> Measurable(AllTransfers(transactions))
    ensures r.None? <==> exists i :: Unfit(AllTransfers(transactions), i)
    ensures r.Some? ==> var all := AllTransfers(transactions);
      && r.value.transferCount == |all| && r.value.relatedNodes == |Peers(target, all)| && r.value.totalFlow == SumOf(all)
      && r.value.decimals == (if all == [] then 6 else all[0].decimals) && r.value.asset == (if all == [] then "USDT" else all[0].asset)
  {
    MeasurableIs(AllTransfers(transactions));
    hide Measurable, SumOf, Peers, AllTransfers;
    AllTransfersSteps(transactions);
    var total: nat, count: nat := 0, 0;
    var peers, decimals, asset := {}, 6, ASSET_USDT;
    ghost var all := AllTransfers(transactions);
    ghost var done: seq<Transfer> := [];
    for i := 0 to |transactions|
      invariant done == AllTransfers(transactions[..i]) && Measured(target, done, total, peers, count, decimals, asset)
    {
      var xs := transactions[i].transfers;
      ghost var before := done;
      for j := 0 to |xs|
        invariant done == before + xs[..j] && Measured(target, done, total, peers, count, decimals, asset)
      {
        var x := xs[j];
        MeasurableNext(done, x);
        PeersNext(target, done, x);
        assert done + [x] == before + xs[..j + 1];
        if !IsUnsignedInteger(x.amount) || (count != 0 && (x.decimals != decimals || x.asset != asset)) {
          PrefixOfAll(transactions, i, j + 1);
          if Measurable(all) { Unmeasurable(done + [x], all[|done| + 1..]); }
          return None;
        }
        if count == 0 { decimals, asset := x.decimals, x.asset; }
        total := total + DecimalValue(x.amount);
        count := count + 1;
        if x.from != target { peers := peers + {x.from}; }
        if x.to != target { peers := peers + {x.to}; }
        done := done + [x];
      }
      assert xs[..|xs|] == xs;
    }
    assert transactions[..|transactions|] == transactions;
    r := Some(Metrics(|peers|, count, total, decimals, asset));
  }

  lemma {:induction false} PrefixOfAll(transactions: seq<Transaction>, i: nat, j: nat)
    requires i < |transactions| && j <= |transactions[i].transfers|
    ensures var p := AllTransfers(transactions[..i]) + transactions[i].transfers[..j];
      p <= AllTransfers(transactions) && AllTransfers(transactions) == p + AllTransfers(transactions)[|p|..]
  {
    var n := |transactions| - 1;
    var p := AllTransfers(transactions[..i]) + transactions[i].transfers[..j];
    if i < n {
      PrefixOfAll(transactions[..n], i, j);
      assert transactions[..n][..i] == transactions[..i];
    }
  }

  // ----- evidence rows -----

  function RowOf(t: Transaction): TransactionRow {
    TransactionRow(t.network, t.hash, t.blockId, t.blockTime, t.successful, t.confirmed)
  }

  function TransferRowOf(t: Transaction, x: Transfer): TransferRow {
    TransferRow(t.hash, x.event, x.contract, x.asset, x.from, x.to, x.amount, x.decimals, x.timestamp)
  }

  /** validateTransaction */
  predicate ValidTransactionRow(network: string, row: TransactionRow) {
    row.network == network && row.hash != "" && row.blockId != "" && row.blockTime != 0 && row.successful && row.confirmed
  }

  /** validateTransfer */
  predicate ValidTransferRow(row: TransferRow) {
    && row.event != "" && row.contract == USDT_CONTRACT && row.asset == ASSET_USDT && row.from != "" && row.to != ""
    && row.decimals == 6 && row.timestamp != 0 && IsUnsignedInteger(row.amount)
  }

  predicate EvidenceValid(network: string, transactions: seq<Transaction>) {
    forall t :: t in transactions ==> ValidTransactionRow(network, RowOf(t)) && TransfersValid(t)
  }

  predicate TransfersValid(t: Transaction) {
    forall x :: x in t.transfers ==> ValidTransferRow(TransferRowOf(t, x))
  }

  function TransactionRows(transactions: seq<Transaction>): seq<TransactionRow> {
    seq(|transactions|, i requires 0 <= i < |transactions| => RowOf(transactions[i]))
  }

  function RowsOfTransaction(t: Transaction): seq<TransferRow> {
    seq(|t.transfers|, j requires 0 <= j < |t.transfers| => TransferRowOf(t, t.transfers[j]))
  }

  function TransferRows(transactions: seq<Transaction>): seq<TransferRow> {
    if transactions == [] then []
    else TransferRows(transactions[..|transactions| - 1]) + RowsOfTransaction(transactions[|transactions| - 1])
  }

  lemma EvidenceNext(network: string, transactions: seq<Transaction>, i: nat)
    requires i < |transactions|
    ensures var t, done, all := transactions[i], transactions[..i], transactions[..i + 1];
      && (EvidenceValid(network, all) <==> EvidenceValid(network, done) && ValidTransactionRow(network, RowOf(t)) && TransfersValid(t))
      && TransactionRows(all) == TransactionRows(done) + [RowOf(t)] && TransferRows(all) == TransferRows(done) + RowsOfTransaction(t)
    ensures EvidenceValid(network, transactions) ==> EvidenceValid(network, transactions[..i + 1])
  {
    var t := transactions[i];
    assert transactions[..i + 1] == transactions[..i] + [t] && transactions[..i + 1][..i] == transactions[..i];
    hide ValidTransactionRow, TransfersValid;
    forall x ensures x in transactions[..i + 1] <==> x in transactions[..i] || x == t {}
  }

  lemma RowsSteps(t: Transaction)
    ensures |RowsOfTransaction(t)| == |t.transfers| && RowsOfTransaction(t)[..|t.transfers|] == RowsOfTransaction(t)
    ensures forall j :: 0 <= j < |t.transfers| ==> RowsOfTransaction(t)[..j + 1] == RowsOfTransaction(t)[..j] + [TransferRowOf(t, t.transfers[j])]
  {
  }

  /** The rows of one transaction, or false at the first that does not validate. */
  method TransferEvidence(t: Transaction) returns (ok: bool, rows: seq<TransferRow>)
    ensures ok <==> TransfersValid(t)
    ensures ok ==> rows == RowsOfTransaction(t)
  {
    ok, rows := true, [];
    RowsSteps(t);
    hide RowsOfTransaction, ValidTransferRow;
    for j := 0 to |t.transfers|
      invariant forall k :: 0 <= k < j ==> ValidTransferRow(TransferRowOf(t, t.transfers[k]))
      invariant rows == RowsOfTransaction(t)[..j]
    {
      var row := TransferRowOf(t, t.transfers[j]);
      if !ValidTransferRow(row) {
        assert t.transfers[j] in t.transfers;
        ok := false;
        return;
      }
      rows := rows + [row];
    }
  }

  /** datasetEvidence: all rows in order, or an error for the first row that does not validate. */
  method DatasetEvidence(network: string, transactions: seq<Transaction>) returns (ok: bool, rows: seq<TransactionRow>, transfers: seq<TransferRow>)
    ensures ok <==> EvidenceValid(network, transactions)
    ensures ok ==> rows == TransactionRows(transactions) && transfers == TransferRows(transactions)
  {
    ok, rows, transfers := true, [], [];
    assert EvidenceValid(network, transactions[..0]) && TransactionRows(transactions[..0]) == [] && TransferRows(transactions[..0]) == [];
    hide EvidenceValid, TransactionRows, TransferRows, RowOf, ValidTransactionRow, TransfersValid;
    for i := 0 to |transactions|
      invariant EvidenceValid(network, transactions[..i])
      invariant rows == TransactionRows(transactions[..i]) && transfers == TransferRows(transactions[..i])
    {
      var t := transactions[i];
      EvidenceNext(network, transactions, i);
      if !ValidTransactionRow(network, RowOf(t)) {
        ok := false;
        return;
      }
      rows := rows + [RowOf(t)];
      var more;
      ok, more := TransferEvidence(t);
      if !ok {
        return;
      }
      transfers := transfers + more;
    }
    assert transactions[..|transactions|] == transactions;
  }

  /** The Dataset's unique indexes: (dataset, network, hash) and (dataset, hash, event). */
  predicate IndexesHold(rows: seq<TransactionRow>, transfers: seq<TransferRow>) {
    && (forall i, j :: 0 <= i < j < |rows| ==> (rows[i].network, rows[i].hash) != (rows[j].network, rows[j].hash))
    && (forall i, j :: 0 <= i < j < |transfers| ==> (transfers[i].hash, transfers[i].event) != (transfers[j].hash, transfers[j].event))
  }

  predicate DistinctHashes(network: string, transactions: seq<Transaction>) {
    && (forall t :: t in transactions ==> t.network == network && EventsAscending(t))
    && (forall i, j :: 0 <= i < j < |transactions| ==> transactions[i].hash != transactions[j].hash)
  }

  lemma {:induction false} RowsHashes(transactions: seq<Transaction>)
    ensures |TransferRows(transactions)| == TransferCount(transactions)
    ensures forall row :: row in TransferRows(transactions) ==> exists t :: t in transactions && row.hash == t.hash
  {
    if transactions != [] {
      var n := |transactions| - 1;
      RowsHashes(transactions[..n]);
      assert transactions == transactions[..n] + [transactions[n]];
      assert forall t :: t in transactions <==> t in transactions[..n] || t == transactions[n];
    }
  }

  lemma {:induction false} TransferIndexHolds(network: string, transactions: seq<Transaction>)
    requires DistinctHashes(network, transactions)
    ensures var rows := TransferRows(transactions);
      forall i, j :: 0 <= i < j < |rows| ==> (rows[i].hash, rows[i].event) != (rows[j].hash, rows[j].event)
  {
    if transactions != [] {
      var n := |transactions| - 1;
      var rows, earlier, t := TransferRows(transactions), TransferRows(transactions[..n]), transactions[n];
      TransferIndexHolds(network, transactions[..n]);
      RowsHashes(transactions[..n]);
      assert t in transactions;
      forall i, j | 0 <= i < j < |rows| ensures (rows[i].hash, rows[i].event) != (rows[j].hash, rows[j].event) {
        if j >= |earlier| {
          if i < |earlier| {
            assert earlier[i] in earlier;
          } else {
            BeforeTotal(t.transfers[i - |earlier|].event, t.transfers[j - |earlier|].event);
          }
        }
      }
    }
  }

  // ----- the gate -----

  /** The checks publish makes before it opens its transaction. */
  ghost predicate Accepted(network: string, c: Collection, e: RulesModel.Evaluation) {
    && Measurable(AllTransfers(c.transactions))
    && c.stopReason != "" && 0 <= c.confidence <= 100 && e.source != ""
    && (if TransferCount(c.transactions) == 0 then e.score.None? && e.level == "" && c.confidence == 0
        else e.score.Some? && 0 <= e.score.value <= 100 && e.level != "")
    && EvidenceValid(network, c.transactions)
  }

  lemma TransferIsEligible(w: World, r: Request, c: Collection, admitted: map<string, Candidate>, t: Transaction, x: Transfer)
    requires r.traversalDepth >= 1 && Holds(c, r, admitted) && AllWithin(w, r, admitted) && t in c.transactions && x in t.transfers
    ensures exists a :: EligibleTransfer(x, r, a)
  {
    hide Holds, AllWithin, EligibleTransfer, OfferedWithin, TransferKey;
    HeldIsOffered(w, r, c, admitted, t, x);
    var o :| OfferedWithin(w, r, r.traversalDepth - 1, o) && o.transfer == x;
    OfferedIsEligible(w, r, r.traversalDepth - 1, o);
  }

  lemma OfferedIsEligible(w: World, r: Request, k: nat, o: Candidate)
    requires OfferedWithin(w, r, k, o)
    ensures exists a :: EligibleTransfer(o.transfer, r, a)
  {
    var a :| Within(w, r, a, k) && Offered(w, r, a, o);
    var n: nat :| OnPageAt(w, r, a, n, o);
    assert EligibleTransfer(o.transfer, r, a);
  }

  lemma EntryIsRow(r: Request, t: Transaction, admitted: map<string, Candidate>)
    requires ValidRequest(r) && EntrySound(TransactionKey(t), t, r, admitted)
    ensures t.network == NETWORK_TRON && ValidTransactionRow(NETWORK_TRON, RowOf(t))
  {
    hide TransactionKey, TransferKey;
  }

  lemma HeldTransfersAreRows(w: World, r: Request, c: Collection, admitted: map<string, Candidate>, t: Transaction)
    requires ValidRequest(r) && Holds(c, r, admitted) && AllWithin(w, r, admitted) && t in c.transactions
    ensures TransfersValid(t)
  {
    hide Holds, AllWithin;
    forall x | x in t.transfers ensures ValidTransferRow(TransferRowOf(t, x)) { TransferIsEligible(w, r, c, admitted, t, x); }
  }

  lemma EvidenceOfCollected(w: World, r: Request, c: Collection, admitted: map<string, Candidate>)
    requires ValidRequest(r) && Faithful(w, r, c, admitted)
    ensures EvidenceValid(NETWORK_TRON, c.transactions) && Measurable(AllTransfers(c.transactions))
  {
    hide *;
    FaithfulIsCanonical(w, r, c, admitted);
    HoldsParts(c, r, admitted);
    forall t | t in c.transactions ensures ValidTransactionRow(NETWORK_TRON, RowOf(t)) && TransfersValid(t) {
      EntryIsRow(r, t, admitted);
      HeldTransfersAreRows(w, r, c, admitted, t);
    }
    EvidenceIsMeasurable(c.transactions);
  }

  lemma EvidenceIsMeasurable(transactions: seq<Transaction>)
    requires forall t :: t in transactions ==> ValidTransactionRow(NETWORK_TRON, RowOf(t)) && TransfersValid(t)
    ensures EvidenceValid(NETWORK_TRON, transactions) && Measurable(AllTransfers(transactions))
  {
    AllTransfersMembers(transactions);
    var all := AllTransfers(transactions);
    forall i | 0 <= i < |all| ensures IsUnsignedInteger(all[i].amount) && all[i].decimals == 6 && all[i].asset == ASSET_USDT {
      assert all[i] in all;
      var t :| t in transactions && all[i] in t.transfers;
      assert ValidTransferRow(TransferRowOf(t, all[i]));
    }
  }

  lemma FlowsOfCollected(c: Collection)
    requires EvidenceValid(NETWORK_TRON, c.transactions) && (forall t :: t in c.transactions ==> t.transfers != [])
    ensures AmountsValid(c.transactions) && (Flows(c) == {} <==> TransferCount(c.transactions) == 0)
  {
    forall t, x | t in c.transactions && x in t.transfers ensures IsUnsignedInteger(x.amount) {
      assert TransfersValid(t) && ValidTransferRow(TransferRowOf(t, x));
    }
    AllTransfersMembers(c.transactions);
    var all := AllTransfers(c.transactions);
    if all != [] {
      assert all[0] in all;
      var t :| t in c.transactions && all[0] in t.transfers;
      assert FlowOf(t, all[0]) in Flows(c);
    }
    if f :| f in Flows(c) {
      var t, x :| t in c.transactions && x in t.transfers && f == FlowOf(t, x);
      assert x in all;
    }
  }

  /** Whatever Collect returns and rules-v1 evaluates, publish accepts; its rows keep the Dataset's unique indexes;
      and it holds no transfers exactly when it stopped for want of eligible ones. */
  lemma CollectedAndEvaluatedIsPublishable(w: World, r: Request, c: Collection, admitted: map<string, Candidate>,
                                           kept: seq<RulesModel.Flow>, e: RulesModel.Evaluation)
    requires ValidRequest(r) && Faithful(w, r, c, admitted)
    requires Kept(kept, Flows(c)) && RulesModel.IsVerdict(Members(kept), r.target, e)
    ensures AmountsValid(c.transactions)
    ensures Accepted(NETWORK_TRON, c, e)
    ensures IndexesHold(TransactionRows(c.transactions), TransferRows(c.transactions))
    ensures |TransferRows(c.transactions)| == 0 <==> c.stopReason == STOP_NO_ELIGIBLE
  {
    hide Faithful, Kept, RulesModel.IsVerdict, Measurable, EvidenceValid, TransferRows, Flows;
    EvidenceOfCollected(w, r, c, admitted);
    NoneEmpty(w, r, c, admitted);
    FlowsOfCollected(c);
    HashesOfCollected(w, r, c, admitted);
    TransferIndexHolds(NETWORK_TRON, c.transactions);
    TransactionIndexHolds(NETWORK_TRON, c.transactions);
    RowsHashes(c.transactions);
    VerdictShape(c, kept, r.target, e);
  }

  lemma TransactionIndexHolds(network: string, transactions: seq<Transaction>)
    requires DistinctHashes(network, transactions)
    ensures var rows := TransactionRows(transactions);
      forall i, j :: 0 <= i < j < |rows| ==> (rows[i].network, rows[i].hash) != (rows[j].network, rows[j].hash)
  {
  }

  lemma NoneEmpty(w: World, r: Request, c: Collection, admitted: map<string, Candidate>)
    requires Faithful(w, r, c, admitted)
    ensures forall t :: t in c.transactions ==> t.transfers != []
    ensures TransferCount(c.transactions) == 0 <==> c.stopReason == STOP_NO_ELIGIBLE
    ensures c.stopReason != "" && 0 <= c.confidence <= 100 && (TransferCount(c.transactions) == 0 ==> c.confidence == 0)
  {
    hide *;
    FaithfulIsCanonical(w, r, c, admitted);
    FaithfulCoverage(w, r, c, admitted);
    NotEmptyWhenCanonical(c);
    CoverageShape(r, c);
  }

  lemma NotEmptyWhenCanonical(c: Collection)
    requires Canonical(c)
    ensures forall t :: t in c.transactions ==> t.transfers != []
  {
  }

  lemma CoverageShape(r: Request, c: Collection)
    requires PartialCoverage(r, c) || FullCoverage(r, c)
    ensures TransferCount(c.transactions) == 0 <==> c.stopReason == STOP_NO_ELIGIBLE
    ensures c.stopReason != "" && 0 <= c.confidence <= 100 && (TransferCount(c.transactions) == 0 ==> c.confidence == 0)
  {
  }

  lemma VerdictShape(c: Collection, kept: seq<RulesModel.Flow>, target: string, e: RulesModel.Evaluation)
    requires Kept(kept, Flows(c)) && RulesModel.IsVerdict(Members(kept), target, e)
    ensures e.source != ""
    ensures if Flows(c) == {} then e.score.None? && e.level == "" else e.score.Some? && 0 <= e.score.value <= 100 && e.level != ""
  {
    KeptEmpty(kept, Flows(c));
    hide Kept, Flows, RulesModel.IsVerdict;
    if Flows(c) == {} {
      RulesModel.EmptyVerdict(target, e);
    } else {
      RulesModel.NodesWithinVerdict(Members(kept), target, e);
      RulesModel.VerdictLevel(Members(kept), target, e);
    }
  }

  lemma KeptEmpty(kept: seq<RulesModel.Flow>, all: set<RulesModel.Flow>)
    requires Kept(kept, all)
    ensures Members(kept) == {} <==> all == {}
  {
    if f :| f in all {
      assert f.key in KeysOf(kept);
      var g :| g in kept && g.key == f.key;
      assert g in Members(kept);
    }
    if f :| f in Members(kept) { assert f in all; }
  }

  lemma HashesOfCollected(w: World, r: Request, c: Collection, admitted: map<string, Candidate>)
    requires ValidRequest(r) && Faithful(w, r, c, admitted)
    ensures DistinctHashes(NETWORK_TRON, c.transactions)
  {
    hide *;
    FaithfulIsCanonical(w, r, c, admitted);
    HoldsParts(c, r, admitted);
    forall t | t in c.transactions ensures t.network == NETWORK_TRON { EntryIsRow(r, t, admitted); }
    CanonicalHashes(c);
  }

  lemma CanonicalHashes(c: Collection)
    requires Canonical(c) && forall t :: t in c.transactions ==> t.network == NETWORK_TRON
    ensures DistinctHashes(NETWORK_TRON, c.transactions)
  {
    hide EventsAscending;
    forall i, j | 0 <= i < j < |c.transactions| ensures c.transactions[i].hash != c.transactions[j].hash {
      assert c.transactions[i] in c.transactions && c.transactions[j] in c.transactions;
      BeforeTotal(TransactionKey(c.transactions[i]), TransactionKey(c.transactions[j]));
    }
  }

  // ----- what the columns and the sums are -----

  /** The k-th transfer row is about the k-th transfer: its sender, its recipient and every other column by name. */
  predicate RowShows(row: TransferRow, hash: string, x: Transfer) {
    && row.hash == hash && row.event == x.event && row.contract == x.contract && row.asset == x.asset
    && row.from == x.from && row.to == x.to && row.amount == x.amount && row.decimals == x.decimals && row.timestamp == x.timestamp
  }

  lemma {:induction false} TransferRowsShow(transactions: seq<Transaction>, k: nat)
    requires k < |AllTransfers(transactions)|
    ensures |TransferRows(transactions)| == |AllTransfers(transactions)|
    ensures exists t :: t in transactions && AllTransfers(transactions)[k] in t.transfers && RowShows(TransferRows(transactions)[k], t.hash, AllTransfers(transactions)[k])
  {
    var n := |transactions| - 1;
    var t, front := transactions[n], AllTransfers(transactions[..n]);
    AllTransfersMembers(transactions[..n]);
    RowsHashes(transactions[..n]);
    if k < |front| {
      TransferRowsShow(transactions[..n], k);
    } else {
      assert t in transactions && AllTransfers(transactions)[k] == t.transfers[k - |front|];
      assert TransferRows(transactions)[k] == RowsOfTransaction(t)[k - |front|];
    }
  }

  lemma TransactionRowsShow(transactions: seq<Transaction>, k: nat)
    requires k < |transactions|
    ensures |TransactionRows(transactions)| == |transactions|
    ensures var row, t := TransactionRows(transactions)[k], transactions[k];
      && row.network == t.network && row.hash == t.hash && row.blockId == t.blockId && row.blockTime == t.blockTime
      && row.successful == t.successful && row.confirmed == t.confirmed
  {
  }

  lemma {:induction false} SumOfJoined(a: seq<Transfer>, b: seq<Transfer>)
    requires forall i :: 0 <= i < |a| ==> IsUnsignedInteger(a[i].amount)
    requires forall i :: 0 <= i < |b| ==> IsUnsignedInteger(b[i].amount)
    ensures forall i :: 0 <= i < |a + b| ==> IsUnsignedInteger((a + b)[i].amount)
    ensures SumOf(a + b) == SumOf(a) + SumOf(b)
    ensures |a| == 1 ==> SumOf(a) == DecimalValue(a[0].amount)
  {
    hide IsUnsignedInteger, DecimalValue;
    if b != [] {
      var n := |b| - 1;
      SumOfJoined(a, b[..n]);
      assert (a + b)[..|a| + n] == a + b[..n];
    } else {
      assert a + b == a;
    }
    if |a| == 1 { assert a[..0] == []; }
  }

  /** The checks on stored evidence are the collector's, but for the window: what validates is in scope of any request
      whose window holds it, as a transfer of its own sender, and nothing else is. */
  lemma EvidenceIsInScope(r: Request, t: Transaction, x: Transfer)
    requires r.windowStart <= t.blockTime <= r.windowEnd && r.windowStart <= x.timestamp <= r.windowEnd
    ensures ValidTransactionRow("TRON_MAINNET", RowOf(t)) && ValidTransferRow(TransferRowOf(t, x)) <==> InScope(r, x.from, t, x)
  {
    hide IsUnsignedInteger;
  }

  /** Of every transfer that touches the target, the other end; of any other transfer, both ends. */
  lemma PeersAre(target: string, transfers: seq<Transfer>, a: string)
    ensures a in Peers(target, transfers) <==> (a != target && exists x :: x in transfers && (a == x.from || a == x.to))
  {
  }
}
