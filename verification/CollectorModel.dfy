/** What a collection should hold: the provider as a fixed world of pages, and reachability over its transfers. */
module CollectorModel {
  import opened Wrappers
  import opened Chain

  datatype Request = Request(
    target: string,
    network: string,
    asset: string,
    windowStart: Time,
    windowEnd: Time,
    transferLimit: int,
    traversalDepth: int)

  datatype Page = Page(transactions: seq<Transaction>, next: string)

  /** A fault that is not a CollectionInterruption, or one of a kind with no stop reason, is `Other`. */
  datatype Fault = RateLimited | Unavailable | ResourceLimit | Other

  /** The provider: the page behind each address and cursor; for the n-th fetch, the error it ends in if any, and
      how many requests it sends beyond the one every page costs (a receipt per transaction, and retries). */
  datatype World = World(page: (string, string) -> Page, fault: nat -> Option<Fault>, extra: nat -> nat)

  datatype Candidate = Candidate(transaction: Transaction, transfer: Transfer)

  predicate ValidRequest(r: Request) {
    && r.target != "" && r.network == NETWORK_TRON && r.asset == ASSET_USDT
    && r.windowStart != 0 && r.windowEnd != 0 && r.windowStart <= r.windowEnd
    && 1 <= r.transferLimit <= MAXIMUM_TRANSFER_LIMIT && 1 <= r.traversalDepth <= MAXIMUM_TRAVERSAL_DEPTH
  }

  predicate EligibleTransaction(t: Transaction, r: Request) {
    && t.network == r.network && t.hash != "" && t.blockId != "" && t.successful && t.confirmed
    && t.blockTime != 0 && r.windowStart <= t.blockTime <= r.windowEnd
  }

  predicate EligibleTransfer(t: Transfer, r: Request, address: string) {
    && t.event != "" && t.contract == USDT_CONTRACT && t.asset == r.asset
    && t.from != "" && t.to != "" && (t.from == address || t.to == address)
    && t.decimals == 6 && t.timestamp != 0 && r.windowStart <= t.timestamp <= r.windowEnd
    && IsUnsignedInteger(t.amount)
  }

  function Key(c: Candidate): string {
    TransferKey(c.transaction, c.transfer)
  }

  predicate OnPage(page: Page, r: Request, address: string, c: Candidate) {
    && c.transaction in page.transactions && c.transfer in c.transaction.transfers
    && EligibleTransaction(c.transaction, r) && EligibleTransfer(c.transfer, r, address)
  }

  /** The cursor of an address's i-th page, while the chain of NextCursor goes on. */
  function CursorAt(w: World, address: string, i: nat): Option<string> {
    if i == 0 then Some("")
    else
      match CursorAt(w, address, i - 1)
      case None => None
      case Some(cursor) => if w.page(address, cursor).next == "" then None else Some(w.page(address, cursor).next)
  }

  predicate OnPageAt(w: World, r: Request, address: string, i: nat, c: Candidate) {
    CursorAt(w, address, i).Some? && OnPage(w.page(address, CursorAt(w, address, i).value), r, address, c)
  }

  /** The provider offers eligible transfer c on some page of the address. */
  ghost predicate Offered(w: World, r: Request, address: string, c: Candidate) {
    exists i: nat :: OnPageAt(w, r, address, i, c)
  }

  ghost predicate Linked(w: World, r: Request, from: string, to: string) {
    exists c :: Offered(w, r, from, c) && (to == c.transfer.from || to == c.transfer.to)
  }

  /** At most k hops from the target, a hop being an offered transfer between two addresses. */
  ghost predicate Within(w: World, r: Request, address: string, k: nat)
    decreases k
  {
    if k == 0 then address == r.target
    else Within(w, r, address, k - 1) || exists b :: Within(w, r, b, k - 1) && Linked(w, r, b, address)
  }

  /** Offered by an address at most k hops away. */
  ghost predicate OfferedWithin(w: World, r: Request, k: nat, c: Candidate) {
    exists a :: Within(w, r, a, k) && Offered(w, r, a, c)
  }

  /** A key determines its transfer, wherever the provider shows it. */
  ghost predicate KeysDetermineTransfers(w: World, r: Request) {
    forall a, b, c, d :: Offered(w, r, a, c) && Offered(w, r, b, d) && Key(c) == Key(d) ==> c.transfer == d.transfer
  }

  lemma {:induction false} WithinGrows(w: World, r: Request, address: string, k: nat, m: nat)
    requires Within(w, r, address, k) && k <= m
    ensures Within(w, r, address, m)
    decreases m
  {
    if k < m { WithinGrows(w, r, address, k, m - 1); }
  }

  /** A set that holds the target and every address linked from it holds everything reachable. */
  lemma {:induction false} ClosedHoldsAll(w: World, r: Request, closed: set<string>, address: string, k: nat)
    requires r.target in closed && forall a, b :: a in closed && Linked(w, r, a, b) ==> b in closed
    requires Within(w, r, address, k)
    ensures address in closed
    decreases k
  {
    if k > 0 {
      if Within(w, r, address, k - 1) {
        ClosedHoldsAll(w, r, closed, address, k - 1);
      } else {
        var b :| Within(w, r, b, k - 1) && Linked(w, r, b, address);
        ClosedHoldsAll(w, r, closed, b, k - 1);
      }
    }
  }

  lemma {:induction false} NoCursorAfterEnd(w: World, address: string, i: nat, j: nat)
    requires CursorAt(w, address, i).None? && i <= j
    ensures CursorAt(w, address, j).None?
    decreases j
  {
    if i < j { NoCursorAfterEnd(w, address, i, j - 1); }
  }
}
