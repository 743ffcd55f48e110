/** Blockchain evidence as the analysis package stores it, and the arithmetic of decimal amounts. */
module Chain {
  import opened Order

  /** Instants, counted from Go's zero time, which IsZero tests for. */
  type Time = int

  const ASSET_USDT := "USDT"
  const NETWORK_TRON := "TRON_MAINNET"
  const USDT_CONTRACT := "TR7NHqjeKQxGTCi8q8ZY4pL8otSzgjLj6t"

  const STOP_SOURCE_EXHAUSTED := "source_exhausted"
  const STOP_TRANSFER_LIMIT := "transfer_limit_reached"
  const STOP_TRAVERSAL_DEPTH := "traversal_depth_reached"
  const STOP_NO_ELIGIBLE := "no_eligible_transfers"
  const STOP_RATE_LIMITED := "provider_rate_limited"
  const STOP_UNAVAILABLE := "provider_unavailable"
  const STOP_RESOURCE_LIMIT := "resource_limit_reached"

  const MAXIMUM_TRANSFER_LIMIT := 5000
  const MAXIMUM_TRAVERSAL_DEPTH := 4

  datatype Transfer = Transfer(
    event: string,
    contract: string,
    asset: string,
    from: string,
    to: string,
    amount: string,
    decimals: int,
    timestamp: Time)

  datatype Transaction = Transaction(
    network: string,
    hash: string,
    blockId: string,
    blockTime: Time,
    successful: bool,
    confirmed: bool,
    transfers: seq<Transfer>)

  datatype Collection = Collection(
    transactions: seq<Transaction>,
    stopReason: string,
    partial: bool,
    confidence: int,
    reachedDepth: int)

  /** `^(0|[1-9][0-9]*)$` */
  predicate IsUnsignedInteger(s: string) {
    s == "0" || (s != "" && '1' <= s[0] <= '9' && forall i :: 0 <= i < |s| ==> '0' <= s[i] <= '9')
  }

  predicate IsDigits(s: string) {
    forall i :: 0 <= i < |s| ==> '0' <= s[i] <= '9'
  }

  /** big.Int's SetString in base ten. */
  function DecimalValue(s: string): nat
    requires IsDigits(s)
  {
    if s == "" then 0 else 10 * DecimalValue(s[..|s| - 1]) + (s[|s| - 1] as int - '0' as int)
  }

  function DigitOf(d: nat): char
    requires d < 10
  {
    '0' + d as char
  }

  /** The text of a number in base ten, as big.Int's String writes it. */
  function Decimal(n: nat): (s: string)
    ensures IsUnsignedInteger(s)
  {
    if n < 10 then [DigitOf(n)] else Decimal(n / 10) + [DigitOf(n % 10)]
  }

  /** An amount text is read as the number it writes ... */
  lemma {:induction false} ReadsWhatIsWritten(n: nat)
    ensures DecimalValue(Decimal(n)) == n
  {
    var s := Decimal(n);
    if n < 10 {
      assert s[..0] == "";
    } else {
      ReadsWhatIsWritten(n / 10);
      assert s[..|s| - 1] == Decimal(n / 10);
    }
  }

  lemma PositiveValue(s: string)
    requires IsUnsignedInteger(s) && s != "0"
    ensures DecimalValue(s) > 0
    decreases |s|
  {
    if |s| > 1 { PositiveValue(s[..|s| - 1]); }
  }

  lemma LastDigit(v: nat, d: nat)
    requires d < 10
    ensures (10 * v + d) / 10 == v && (10 * v + d) % 10 == d
  {
  }

  /** ... and every well-formed amount text is the one that its number is written as. */
  lemma {:induction false} WritesWhatIsRead(s: string)
    requires IsUnsignedInteger(s)
    ensures Decimal(DecimalValue(s)) == s
    decreases |s|
  {
    var n := |s| - 1;
    var front, d := s[..n], s[n] as int - '0' as int;
    LastDigit(DecimalValue(front), d);
    if n > 0 {
      assert IsUnsignedInteger(front) && front != "0";
      PositiveValue(front);
      hide IsUnsignedInteger;
      WritesWhatIsRead(front);
    }
    assert s == front + [s[n]];
  }

  function Amount(t: Transfer): nat
    requires IsUnsignedInteger(t.amount)
  {
    DecimalValue(t.amount)
  }

  function TransactionKey(t: Transaction): string {
    t.network + "\0" + t.hash
  }

  function TransferKey(t: Transaction, transfer: Transfer): string {
    t.network + "\0" + t.hash + "\0" + transfer.event
  }

  /** A key names one event of one transaction of one network. */
  lemma KeyNamesEvent(t: Transaction, x: Transfer, u: Transaction, y: Transfer)
    requires '\0' !in t.network && '\0' !in t.hash && '\0' !in u.network && '\0' !in u.hash
    ensures TransferKey(t, x) == TransferKey(u, y) <==> t.network == u.network && t.hash == u.hash && x.event == y.event
    ensures TransactionKey(t) == TransactionKey(u) <==> t.network == u.network && t.hash == u.hash
  {
    if TransferKey(t, x) == TransferKey(u, y) {
      var p, q := t.hash + "\0" + x.event, u.hash + "\0" + y.event;
      assert TransferKey(t, x) == t.network + "\0" + p && TransferKey(u, y) == u.network + "\0" + q;
      SplitAt('\0', t.network, p, u.network, q);
      SplitAt('\0', t.hash, x.event, u.hash, y.event);
    }
    if TransactionKey(t) == TransactionKey(u) { SplitAt('\0', t.network, t.hash, u.network, u.hash); }
  }

  function TransferCount(transactions: seq<Transaction>): nat {
    if transactions == [] then 0 else TransferCount(transactions[..|transactions| - 1]) + |transactions[|transactions| - 1].transfers|
  }
}
