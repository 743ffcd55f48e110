# ChainTrace in Dafny

ChainTrace analyses TRON addresses: a Go server collects confirmed USDT transfers around a target, evaluates them
with exact integer rules, and publishes one Analysis Dataset per run; a browser pages and expands the stored graph; a
Python agent computes scoring features. This project models the parts where correctness is hardest to see in the
code, and proves what they promise.

| files | part of the system |
|---|---|
| `RunModel`, `RunSafety`, `RunTheorems`, `RunOutcomes`, `RunManager` | the Run Manager and the Investigation row, as a step system whose steps are mutex-held sections and database commits, and as the classes that perform those sections |
| `Chain`, `CollectorModel`, `CollectorTables`, `Collector`, `CollectorCollect` | the breadth-first evidence collector over a paged provider |
| `CycleSearch`, `RulesModel`, `RulesV1` | the rules-v1 evaluator |
| `Publication` | the checks and rows of a publication, fed by the two above |
| `FlowPairing` | FIFO pairing of inflows and outflows |
| `Base58Model`, `Base58` | four address validators and two encoders in three languages |
| `Receipts`, `Retry` | receipt matching, the request loop and its back-off |
| `GraphPaging`, `GraphRanking`, `GraphBrowser`, `GraphExport` | keyset pages, ranked batches, the browsed graph, the exporter |
| `RateLimiter` | the sliding-window limiter |
| `Utf8Split`, `Conversation` | chunked content and the conversation store |
| `Order`, `Wrappers` | string order, sorting, Option |

The pattern throughout: a value-level specification (a function or a predicate over sets, sequences and maps), the
code's own loops and classes proved equal to it, and lemmas about the specification that no single body shows. What a
specification says in numbers, columns and answers is stated a second time without its own functions: `RunOutcomes`,
`RulesModel.VerdictReads`, `CollectorCollect.CutKeepsEverything`, `FlowPairing.FifoUnique` and their like.

Check everything with `dafny verify dfyconfig.toml` (Dafny 4.11).

## Where the code does less than its documentation suggests

- Start updates the row without rechecking the address it was given. A Dataset can describe another address than its
  row: `RunTheorems.StaleSnapshotIsPublished`, and exactly when: `RunTheorems.PublishedTargetIffSnapshotMatched`.
- A cancelled or failed run whose restoring statement errs leaves its row naming it. RecoverLost does not help, since
  the run is still in memory; only a restart does: `RunTheorems.StuckReachable`, exactly when: `RunTheorems.EndingSticksIff`;
  `RunTheorems.RecoverFreesExactlyLostRuns`, `RunTheorems.StuckUntilRestart`.
- A worker whose context has ended returns without a terminal transition, so its run stays queued or running:
  `RunTheorems.StrandedReachable`, exactly when: `RunTheorems.StrandedExactly`, and for how long: `RunTheorems.StrandedRun`.
- Receipt matching starts over on each page, so one log can be named by two transfers: `Receipts.PagesRepeatAnIdentity`,
  and exactly when: `Receipts.PagesShareIdentityIff`.
  Collection results are therefore stated relative to what the provider returns.
- Splitting conversation content does not end on every byte string: `Utf8Split.TailsNeverEnd`, and exactly when it does:
  `Utf8Split.SplitsUnlessTailRun`.
- A message stored with empty content has no chunk, and makes its group and every page that contains it unreadable:
  `Conversation.EmptyAnswerHidesItsPage`, and exactly when: `Conversation.ReadableIffNoneEmpty`.

## Model

| member | source | states |
|---|---|---|
| RunSafety.InvStep | analysis/analysis.go:203-490 | Every locked section, publication commit, unlocked edit, deadline, failed statement and restart keeps one invariant over the manager's two maps, the stored rows and Datasets, and each worker's position |
| RunTheorems.InvAfter | analysis/analysis.go:203-490 | So does every finite interleaving of them, from any state that satisfies it |
| RunTheorems.ActiveNamesALiveRun | analysis/analysis.go:203-255 | Whatever `active` maps an Investigation to is a record of a queued or running run of that Investigation |
| RunTheorems.LiveRunIsTheActiveRun | analysis/analysis.go:203-255 | A run is queued or running iff `active` maps its Investigation to it, so at most one is; while it is, its row exists, is analyzing and names it, except between publish's commit and its second locked section |
| RunTheorems.CommittedIffCompletedOrInWindow | analysis/analysis.go:451-490 | A Dataset was committed for a run iff the run is completed or inside publish's window; failed and cancelled runs never committed one; a run's result id is its only Dataset |
| RunTheorems.TerminalForever | analysis/analysis.go:311-358 | A run leaves {queued, running} at most once: until a restart its terminal status, result and error stay for ever, in every interleaving |
| RunTheorems.AbandonedNeverPublishes | analysis/analysis.go:451-490 | Exactly one of publication and cancellation wins: a run that failed, was cancelled or was lost never gets a Dataset later, restarts included |
| RunTheorems.ReachableRow | model/investigation.go:37-61 | Every reachable row is analyzing iff an active run is set, locked iff a current result exists, otherwise completed or pending by that result, and its result is a stored Dataset of its own |
| RunTheorems.RecoverSparesLiveRuns | analysis/analysis.go:286-293 | RecoverLost, with any arguments, never changes the row of a queued or running run |
| RunTheorems.EndingUndoesStart | analysis/analysis.go:311-358 | Cancellation, failure, a refused publication and a deletion whose own statement errs, when their restoring statement succeeds, leave the row as Start found it, but for a title edited meanwhile, and release the Investigation |
| RunTheorems.StepRow | analysis/analysis.go:203-509 | A step that is not its creation changes a row in one of four ways only: accepted by Start, restored, published by the run it names, or edited under the target's conditions |
| RunTheorems.TargetHeldWhileNamed | analysis/analysis.go:216-224 | While a row names a run only its title can change; its address is the run's target iff Start's snapshot matched the row that Start updated |
| RunTheorems.PublishedTargetIffSnapshotMatched | analysis/analysis.go:763-777 | A published Dataset is about its row's own address iff Start's snapshot matched the row at the conditional update |
| RunTheorems.StaleSnapshotIsPublished | analysis/analysis.go:216-224 | The counterexample: Start does not recheck the address, and a reachable state holds a result about "A" on a row whose address is "B" |
| RunTheorems.PublishedTargetNeverChanges | model/investigation.go:37-61 | Once a result is published the row stays locked and keeps its address in every later run of the system, its id never being used again |
| RunTheorems.RecoverFreesExactlyLostRuns | analysis/analysis.go:286-293 | A row that names a run names a live one, a finished one or a lost one; RecoverLost by its owner frees it exactly when the run is in no map |
| RunTheorems.StuckOnlyByFailedRestore | analysis/analysis.go:351-358 | A row comes to name a finished run only in a section whose restoring statement fails |
| RunTheorems.EndingSticksIff | analysis/analysis.go:351-358 | A step that ends a live run leaves its row naming the finished run iff its restoring statement failed and no Dataset of the run was committed |
| RunTheorems.StuckReachable | analysis/analysis.go:351-358 | Such a row is reachable: a cancelled run whose restoring statement errs |
| RunTheorems.StuckStep | analysis/analysis.go:351-358 | Such a row refuses Start, and every step but a restart leaves it naming the same finished run or removes it |
| RunTheorems.StuckUntilRestart | analysis/analysis.go:351-358 | Over every restart-free run of the system such a row stays stuck or is gone |
| RunTheorems.RestartFreesEveryRow | model/init.go:56-74 | Start-up reconciliation leaves every row stable and changes only status and active run |
| RunTheorems.StrandedExactly | analysis/analysis.go:457-461 | A step at which a worker returns leaves its run queued or running iff it is the first check of execute, or the claim, of a live run whose context has ended |
| RunTheorems.StrandedReachable | analysis/analysis.go:360-363 | Such a state is reachable: the deadline of an accepted run passes before its worker begins |
| RunTheorems.StrandedRun | analysis/analysis.go:360-363 | A live run whose worker has returned had its context ended, and it stays live exactly until its owner cancels it or deletes the Investigation, or the process restarts |
| RunManagement.RunManager.Start | analysis/analysis.go:203-255 | Start's section on the shared records and the database is StartSection of their values, outcome included |
| RunManagement.RunManager.RecoverLost | analysis/analysis.go:286-293 | Leaves memory alone; on the database it is RecoverSection |
| RunManagement.RunManager.CancelLocked | analysis/analysis.go:351-358 | Restores the row, ends the record and releases the Investigation whether or not the restore failed; no other record changes |
| RunManagement.RunManager.Cancel | analysis/analysis.go:298-325 | Is CancelSection: waits on a held claim, else refuses, reports a terminal run, or cancels |
| RunManagement.RunManager.DeleteInvestigation | analysis/analysis.go:327-349 | Is DeleteSection: waits on a claim, cancels the owner's own active run, stops when the restore fails, then deletes; when the answer is Deleted the row was the owner's and is gone, its Datasets are gone, and nothing else in the database changed |
| RunManagement.RunManager.Progress | analysis/analysis.go:424-434 | Is ProgressSection: only a live run moves, and its count never falls |
| RunManagement.RunManager.Fail | analysis/analysis.go:436-449 | Is FailSection: only a live run fails, and its row is restored |
| RunManagement.RunManager.PublishClaim | analysis/analysis.go:455-464 | Is ClaimSection: the claim is granted to one worker of a live, unended run |
| RunManagement.RunManager.PublishFinish | analysis/analysis.go:468-490 | Is FinishSection: failed or completed, claim and Investigation released |
| RunManagement.Database.Publish | analysis/analysis.go:712-785 | The publication transaction: everything or nothing, and only onto an analyzing row that names the run, for a new Dataset id and a run without one |
| RunManagement.Database.RestoreStableStatus | analysis/analysis.go:498-509 | Only the named owner's row that names the run is restored, by its current result |
| RunManagement.Database.UpdateInvestigation | model/investigation.go:37-61 | A change of address needs a pending, unlocked row without an active run; not found and immutable are told apart |
| RunManagement.Database.ReconcileLostAnalysisRuns | model/init.go:56-74 | Exactly the analyzing rows are rewritten |
| RunOutcomes.DeleteRemoves | analysis/analysis.go:327-349 | In a reachable state without a claim on it: Deleted iff the row is the caller's; then the row and exactly its Datasets are gone, its run is released, every other row and Dataset is as it was; otherwise nothing changes |
| RunOutcomes.DeleteWaits | analysis/analysis.go:327-349 | A held claim, and only that, makes a deletion wait, without effect |
| RunOutcomes.DeleteErrs | analysis/analysis.go:327-349 | A deletion is an error iff its own statement or the restore of the owner's run fails; no row or Dataset goes, but the owner's run is cancelled |
| RunOutcomes.RecoverRestores | analysis/analysis.go:286-293 | A run in memory under that owner and Investigation is left alone; any other is taken out of the row |
| RunOutcomes.StartAnswers | analysis/analysis.go:203-232 | Without failing statements: accepted iff the row is the caller's, names no run and the Investigation is not active; already active, not found, each with its own condition |
| RunOutcomes.StartChanges | analysis/analysis.go:203-255 | Invalid scope and statement errors each iff their condition; a refusal changes nothing; an acceptance writes two columns of one row, one new queued record and one entry of `active` |
| RunOutcomes.CancelAnswers | analysis/analysis.go:298-325 | The five answers, each iff its condition; a cancellation ends one record, releases one Investigation and restores one row, or none when that statement errs |
| RunOutcomes.ProgressMoves | analysis/analysis.go:424-434 | Only a live record moves: status and phase are the given ones, the count the larger of the two |
| RunOutcomes.FailEnds | analysis/analysis.go:436-449 | Only a live record fails, with the given code; its row is restored unless that statement errs |
| RunOutcomes.ClaimGranted | analysis/analysis.go:455-464 | Granted iff the run is in memory, live, unclaimed and its context has not ended; the claim is all that is written |
| RunOutcomes.FinishRecords | analysis/analysis.go:468-490 | The record gets the result, or publication_failed and a restored row; claim and Investigation are released |
| RunOutcomes.RestoreRewrites | analysis/analysis.go:498-509 | Exactly the owner's row that names the run becomes completed or pending by its result and names none |
| RunOutcomes.PublicationWrites | analysis/analysis.go:712-785 | Goes through iff the Dataset id is new, the run has none, and the caller's row is analyzing and names it; then one Dataset and six columns of one row |
| RunOutcomes.EditAnswers | model/investigation.go:37-61 | Not found, immutable, edited, each iff its condition; an edit writes title and address of the one row as asked, and nothing else |
| CollectorCollect.Collect | analysis/collector.go:90-181 | For any provider, page content, faults and request costs: refused up front exactly for an invalid request; never more than 200 + 6*TransferLimit requests sent; cut short only by a fault of the last fetch, by the budget or by a repeated cursor, with nothing wrong before, and then reported as partial with that fault's stop reason unless nothing was collected or the fault has none; otherwise whole. Pages are asked for level by level, addresses in string order, each to its last page, and what is held is exactly what the answered pages showed (at the Transfer Limit, of the last page the first keys). What is returned is faithful: offered within TraversalDepth-1 hops, coverage fields as documented, reachedDepth the hops that its transfers reach, conclusive when it ran to its end |
| CollectorCollect.CutKeepsEverything | analysis/collector.go:248-276 | A walk cut short keeps every eligible transfer of every answered page, the interrupted address included; it fails with the fault iff no answered page showed one or the fault has no stop reason, and otherwise is stored under that fault's own stop reason |
| CollectorCollect.WholeKeepsEverything | analysis/collector.go:129-151 | So does a walk that was not cut, but for the page on which it reached the Transfer Limit, of which it keeps the eligible transfers up to some key |
| CollectorCollect.OfferedIffInScope | analysis/collector.go:208-219 | Which transfers count: successful, confirmed, of the USDT contract with six decimals and a whole amount, of the address, transaction and transfer inside the window |
| CollectorCollect.HeldIsInScope | analysis/collector.go:208-219 | Everything held is in scope as a transfer of some address within TraversalDepth-1 hops, its stored transaction included |
| CollectorCollect.UndisturbedIsFull | analysis/collector.go:99-181 | Without faults or repeated cursors, and with pages that cost no more than the budget, Collect returns a full, non-partial collection |
| CollectorCollect.CollectedExactly | analysis/collector.go:99-181 | A non-partial collection not stopped by the limit holds exactly the eligible transfers on the pages of all addresses within TraversalDepth-1 hops, each once, in canonical order, when keys determine transfers |
| CollectorCollect.ExhaustedLeavesNothingOut | analysis/collector.go:165-180 | source_exhausted: every eligible transfer offered by any address at any number of hops is held |
| CollectorCollect.CollectLevel | analysis/collector.go:107-163 | A level that ends has every page of every frontier address admitted, every fetch paid for and met with no fault; it stops at exactly the Transfer Limit, or for a fault that the provider, the budget or a repeated cursor provoked |
| CollectorCollect.CollectAddress | analysis/collector.go:110-162 | All pages of one address, once each, and whatever ends it, every eligible transfer of every page answered so far stays admitted; it is broken only by a fault of the last fetch, the spent budget or a repeated cursor; it terminates because the call budget falls |
| CollectorCollect.PartialConfidence | analysis/collector.go:257-261 | The rounded-down percentage of the limit, and 75 exactly when that would be at least 75 |
| CollectorCollect.InterruptedCollection | analysis/collector.go:248-263 | Partial results exactly when something was collected and the fault has a stop reason; confidence in 0..75 |
| CollectorRuns.EligiblePageTransfers | analysis/collector.go:188-219 | The eligible transfers of the page, each as often as the page shows it, in key order |
| CollectorRuns.AdmitPage | analysis/collector.go:129-151 | Exactly the page's keys are admitted, or at the limit those up to some key, each transfer once; the hop counts of newly seen peers are right |
| CollectorRuns.Provider.Fetch | analysis/collector.go:114-127 | A page is answered by its fault if it has one, by a resource limit if the budget cannot pay for it, and by the page otherwise |
| CollectorRuns.Provider.SpendProviderCall | analysis/collector.go:71-80 | One request is granted per unit of budget and none after |
| CollectorTables.CompletedCollection | analysis/collector.go:278-299 | Holds exactly the admitted transfers, transactions by key and transfers by event identity, under the block and confirmation of a transaction they were admitted from, with the given coverage |
| CollectorTables.TotalAdmit | analysis/collector.go:236-246 | Admitting a transfer under its transaction's key adds exactly one to the stored total |
| Chain.ReadsWhatIsWritten | analysis/analysis.go:855-862 | The base-ten value of a number's decimal text is the number |
| Chain.WritesWhatIsRead | analysis/analysis.go:855-862 | and every well-formed amount text is the decimal text of its value, so the accepted texts are exactly those and the value is theirs |
| Chain.KeyNamesEvent | analysis/collector.go:221-223 | Transfer keys and transaction keys name one network, hash and event when hashes hold no NUL |
| Publication.CollectedAndEvaluatedIsPublishable | analysis/analysis.go:657-674 | Whatever Collect returns and rules-v1 evaluates passes all of publish's checks, keeps both unique indexes, and holds no transfers iff the stop reason is no_eligible_transfers |
| Publication.CalculateMetrics | analysis/analysis.go:850-882 | An error exactly when some amount is malformed or some unit differs from the first; otherwise each column of the metrics |
| Publication.SumOfJoined | analysis/analysis.go:872-872 | The total adds up over any split, and of one transfer is its base-ten amount |
| Publication.PeersAre | analysis/analysis.go:874-879 | The peers are the ends of the transfers other than the target |
| Publication.TransferRowsShow | analysis/analysis.go:798-848 | The k-th transfer row carries the k-th transfer's own sender, recipient, amount and other columns, under its transaction's hash |
| Publication.TransactionRowsShow | analysis/analysis.go:798-848 | The k-th transaction row carries the k-th transaction's own columns |
| Publication.EvidenceIsInScope | analysis/analysis.go:884-896 | The checks on rows accept what is in scope of a request whose window holds it, and nothing else |
| Publication.DatasetEvidence | analysis/analysis.go:798-848 | All rows in order, or an error iff one does not validate |
| Publication.TransferIndexHolds | model/store/analysis_store.go:38-45 | Canonical transactions with distinct hashes give rows without a repeated (hash, event) |
| Publication.TransactionIndexHolds | model/store/analysis_store.go:25-30 | and without a repeated (network, hash) |
| RulesV1.Evaluate | analysis/rules_v1.go:53-125 | An error exactly for a malformed amount or an ended context; otherwise the verdict on the first transfer of each key |
| RulesModel.VerdictReads | analysis/rules_v1.go:53-125 | The verdict in numbers: 20, 15, 25, 25 and 15 points and their reasons for the whole and for each address, levels from 25, 50 and 75, one node for each address with a signal |
| RulesModel.FanOutIs | analysis/rules_v1.go:168-180 | fan_out is at least ten distinct other recipients |
| RulesModel.FanInIs | analysis/rules_v1.go:182-194 | fan_in is at least ten distinct other senders |
| RulesModel.RapidIs | analysis/rules_v1.go:206-234 | rapid_forwarding is four fifths of a non-zero receipt sent on, in other transfers, within 3600 seconds |
| RulesModel.TargetConnectedIs | analysis/rules_v1.go:236-262 | target_connected_forwarding is the target and the two addresses behind it when seven tenths are passed on within 24 hours |
| RulesModel.CircularIs | analysis/rules_v1.go:264-287 | circular_flow is a way back over two, three or four transfers between different addresses |
| RulesV1.FlowsAre | analysis/rules_v1.go:127-143 | What is evaluated is each transfer's own sender, recipient, base-ten amount and time under its key |
| RulesV1.OrderAndRepetitionIrrelevant | analysis/rules_v1.go:53-166 | Reordering or repeating key-consistent transfers gives the same evaluation |
| RulesV1.Normalize | analysis/rules_v1.go:127-166 | An error iff an amount is malformed; otherwise the first transfer of each key, in canonical order |
| RulesV1.NormalFormIsTheOnlyOne | analysis/rules_v1.go:127-166 | and there is only one such list for a Collection, whatever its keys repeat |
| RulesV1.CanonicalReads | analysis/rules_v1.go:152-164 | Canonical order is by time, then sender, recipient and key |
| RulesV1.NormalFormUnique | analysis/rules_v1.go:127-166 | Collections that show the same transfers have one normal form |
| RulesModel.VerdictUnique | analysis/rules_v1.go:53-125 | The signals, weights, reasons and node list fix the evaluation |
| RulesModel.ScoreNeverCapped | analysis/rules_v1.go:53-125 | The weights of any choice of signals sum to at most 100, so the cap never fires |
| RulesModel.NodesWithinVerdict | analysis/rules_v1.go:53-125 | No node outscores the whole, and the overall reasons are the union of the nodes' reasons |
| RulesModel.RatioIsExact | analysis/rules_v1.go:317-324 | Cross-multiplication compares the exact quotients |
| RulesV1.FanOutOf | analysis/rules_v1.go:168-180 | Exactly the senders with at least ten distinct other recipients |
| RulesV1.FanInOf | analysis/rules_v1.go:182-194 | Exactly the recipients with at least ten distinct other senders |
| RulesV1.RapidForwarding | analysis/rules_v1.go:206-234 | Exactly the addresses that sent on 80% of some receipt within the hour, other transfers only |
| RulesV1.TargetConnectedForwarding | analysis/rules_v1.go:236-262 | Exactly the addresses on some two-hop path from the target within a day passing on 70% |
| RulesV1.CircularFlowOf | analysis/rules_v1.go:264-287 | Exactly the senders that lie on a simple cycle of the transfers' edges |
| CycleSearch.CircularFlow | analysis/rules_v1.go:264-287 | An address is found iff it lies on a simple directed cycle of 2 to 4 distinct addresses |
| CycleSearch.FindCycles | analysis/rules_v1.go:289-306 | Calls that share a backing array leave the caller's view of the path unchanged, add only cycle members, and cover every cycle that continues the path |
| CycleSearch.Append | analysis/rules_v1.go:289-306 | append yields the longer slice and never changes the view of the shorter, in place or reallocated |
| CycleSearch.IndexOf | analysis/rules_v1.go:308-315 | The first position, or -1 |
| FlowPairing.PairFlows | agent/scoring/features.py:143-162 | Both sides in stable time order; every unit goes from the oldest inflow left to the first outflow that still wants it, so moves never go back on either side and no inflow is passed over before it is used up; each pair is a move's amount and the time between its two flows; and it pairs as much as any causal assignment can |
| FlowPairing.FifoUnique | agent/scoring/features.py:149-162 | First in, first out determines the moves: two lists that follow it are equal |
| FlowPairing.PairsDetermined | agent/scoring/features.py:143-162 | so the pairs are determined by the flows in the order given |
| FlowPairing.FifoInOrder | agent/scoring/features.py:149-162 | Later moves use the same or a later inflow for the same or a later outflow |
| FlowPairing.FifoIsOptimal | agent/scoring/features.py:143-162 | Its total is the least cut (inflow arrived by an outflow plus all later outflow) and the largest total of any assignment |
| FlowPairing.AssignmentWithinCut | agent/scoring/features.py:143-162 | No causal assignment exceeds any cut |
| FlowPairing.PairSorted | agent/scoring/features.py:149-162 | The loop follows first in, first out to its end, passing no inflow over, in at most one pair per flow; its total equals some cut |
| FlowPairing.ForwardedJoined | agent/scoring/features.py:128-128 | The forwarded amount adds up over the pairs, each counted whole iff its gap is within the time |
| FlowPairing.ForwardedNeverExceedsInflow | agent/scoring/features.py:123-140 | Every gap is non-negative, and what is forwarded within any time is at most the total inflow |
| Base58Model.AlphabetIndexed | analysis/trongrid.go:29-29 | Each of the 58 digits is the position of its character in the alphabet text |
| Base58.AddressShape | controller/tron_address.go:17-42 | Text that decodes to 25 bytes starting with 0x41 has exactly 34 characters and starts with T, whatever its checksum |
| Base58.AddressIs | analysis/trongrid.go:423-431 | A valid address byte by byte: prefix 65, twenty bytes, and the first four bytes of the digest of the digest of those |
| Base58.TrimsBothEnds | frontend/src/middle/investigation-client.ts:328-330 | Trimming removes the white space at both ends and nothing else |
| Base58.DecodeTypeScript | frontend/src/middle/investigation-client.ts:299-319 | The byte-carry decoder equals the big-integer decoder on every non-empty text, and decodes the empty text to one zero byte |
| Base58.FoldDigit | frontend/src/middle/investigation-client.ts:299-319 | One digit folded into the byte array multiplies its value by 58 and adds the digit |
| Base58.DecodeGo | analysis/trongrid.go:433-452 | Nothing for the empty text or a foreign character; otherwise leading zeros and the minimal bytes of the number |
| Base58.AllValidators | agent/tron_address.py:11-32 | The three server-side validators agree on every text, and the browser's agrees on every trimmed one |
| Base58.ValidTronAddress | analysis/trongrid.go:423-431 | Accepts exactly 25 decoded bytes, prefix 0x41, with the right checksum |
| Base58.IsValidTronAddress | controller/tron_address.go:17-42 | The same set |
| Base58.IsValidTronAddressPython | agent/tron_address.py:11-32 | The same set |
| Base58.ValidateTronAddress | frontend/src/middle/investigation-client.ts:328-338 | The same set after trimming |
| Base58.DecodeOfEncode | analysis/trongrid.go:454-472 | Encoding a 21-byte payload with prefix 0x41 gives a valid address that decodes to it and its checksum |
| Base58.EncodeOfDecode | analysis/trongrid.go:423-472 | Encoding what a valid address decodes to gives the address back |
| Base58.EncodeGo | analysis/trongrid.go:454-472 | Digits least significant first, reversed in place, are the address text |
| Base58.ReverseInPlace | analysis/trongrid.go:468-470 | The two-index swap loop reverses the array |
| Base58.EncodePython | crawler/trongrid.py:39-51 | The crawler's encoder writes the same text as the provider's for the payload 0x41 + body |
| Receipts.VerifiedReceiptTransfers | analysis/trongrid.go:356-384 | The nested loops over the used array are greedy matching against a multiset |
| Receipts.GreedyIsMaximum | analysis/trongrid.go:356-384 | No matching of logs with history rows is larger |
| Receipts.EmittedPerEvent | analysis/trongrid.go:356-384 | For each (timestamp, from, to, value): as many transfers as logs or rows, whichever is fewer |
| Receipts.LogIsTakenIff | analysis/trongrid.go:356-384 | Which logs: a log becomes a transfer iff the rows of its event and the receipt's time outnumber the earlier logs of that event |
| Receipts.IdentitiesAscend | analysis/trongrid.go:356-384 | Event identities are distinct, ascending indices of logs with the transfer's own event |
| Receipts.CandidateOrderIrrelevant | analysis/trongrid.go:356-384 | The output does not depend on the order of the history rows |
| Receipts.PagesRepeatAnIdentity | analysis/trongrid.go:356-384 | The counterexample: two pages that split two identical rows of one transaction emit the same identity twice |
| Receipts.PagesShareIdentityIff | analysis/trongrid.go:356-384 | and exactly when that happens: some event of the receipt has a row on both pages |
| Retry.RetryDelay | analysis/trongrid.go:582-601 | min(base*2^attempt, maximum), or the clamped Retry-After when there is one, computed in 64 bits without overflow; every value the loop passes through is min(base*2^k, maximum), so none is above the maximum when the base is not |
| Retry.WaitsDouble | analysis/trongrid.go:582-601 | The first wait is the base and each next one twice the last, up to the maximum |
| Retry.RequestJSON | analysis/trongrid.go:503-533 | At most maxRetries + 1 attempts, one budget unit and one request each, all but the last retryable; the loop ends only at success, at a final refusal, at the last retry or with the budget spent, and the result is which |
| GraphPaging.WalkPages | analysis/graph.go:93-150 | Following nextCursor gives each row exactly once in (timestamp, hash, event) order, for any page size |
| GraphPaging.LoadByCursor | analysis/graph.go:93-131 | A page is the first stretch of the one listing past the cursor, with a cursor iff rows remain |
| GraphPaging.ListingReadsByTime | analysis/graph.go:93-107 | The one listing reads by timestamp, then hash, then event identity |
| GraphPaging.TailAfterCursor | analysis/graph.go:93-107 | The keyset condition of the k-th row selects exactly the rows after it |
| GraphPaging.EdgeIdsAreUnique | analysis/graph.go:158-160 | hash:event ids never collide when hashes hold no colon |
| GraphRanking.RankedCounterparties | analysis/graph.go:70-82 | OFFSET and LIMIT select exactly the counterparties whose rank (how many come before) lies in that range |
| GraphRanking.RanksFollowTransfers | analysis/graph.go:70-82 | One counterparty ranks before another iff it shares more rows with the anchor, or as many and its address comes first |
| GraphRanking.LoadTop | analysis/graph.go:70-92 | The page holds exactly the anchor's rows whose counterparty ranks in the batch, in order |
| GraphRanking.BatchesPartition | analysis/graph.go:70-92 | Each row of a node lies in exactly one batch, and that batch starts below the node's counterparty count |
| GraphRanking.CountsAgree | analysis/graph.go:186-216 | The count on a node and the ranking, computed by different queries, have the same length |
| GraphBrowser.TransactionGraphBrowser.Expand | frontend/src/services/transactionGraphBrowser.ts:245-271 | Adds exactly the rows in the ranks passed, ten per request; hasMore iff ranks remain; true hasMore reveals something; false hasMore means every row of the node is shown |
| GraphBrowser.TransactionGraphBrowser.RevealWholeNode | frontend/src/services/transactionGraphBrowser.ts:242-271 | Expanding until hasMore is false shows every row of the node within ceil(counterparties/10) requests |
| GraphBrowser.TransactionGraphBrowser.Load | frontend/src/services/transactionGraphBrowser.ts:205-222 | The first graph shows exactly the focus's first ten ranks, with only the ends of those rows and the focus as nodes, and hasMore iff some row of the Dataset is not shown |
| GraphBrowser.TransactionGraphBrowser.LoadMore | frontend/src/services/transactionGraphBrowser.ts:224-239 | When hasMore, adds exactly the first pageSize of the focus's rows after the cursor, moves the cursor to the last of them, and keeps hasMore iff rows remain; otherwise changes nothing |
| GraphBrowser.TransactionGraphBrowser.RevealFocus | frontend/src/services/transactionGraphBrowser.ts:224-239 | Loading more until hasMore is false takes one request per page of the rows that remained, at least one, and shows them all and no row besides |
| GraphBrowser.MergeKeeps | frontend/src/services/transactionGraphBrowser.ts:118-155 | Merging adds exactly the page's rows, each once, and their ends as nodes, and hides nothing |
| GraphBrowser.ExpandOnce | frontend/src/services/transactionGraphBrowser.ts:258-267 | One request keeps the promise of expandRanks for every node and extends it by ten ranks for this one |
| GraphBrowser.CreatedGraph | frontend/src/services/transactionGraphBrowser.ts:71-115 | createGraph starts with true counts, ranks and hasMore, also for a focus without rows |
| GraphExport.LoadCompleteDatasetGraph | frontend/src/services/analysisExportBrowser.ts:80-136 | On an unchanged Dataset the page cap and the repeated-cursor checks never fire; it succeeds iff the distinct edge ids are as many as promised, and then returns every row once, in order; with unique ids and true counts it always does |
| GraphExport.DistinctIds | frontend/src/services/analysisExportBrowser.ts:122-126 | The rows of a Dataset with unique edge ids have distinct ids |
| GraphExport.DistinctIdCount | frontend/src/services/analysisExportBrowser.ts:122-134 | so the exporter's count is the number of rows |
| GraphExport.PageCap | frontend/src/services/analysisExportBrowser.ts:86-94 | Whole pages requested so far never reach the cap of ceil(limit/pageSize) + 2 |
| RateLimiting.AnswersAreThePolicys | middleware/limiter.go:32-74 | Over every run, cleaner passes anywhere, Request accepts iff fewer than max of the key's accepted requests lie in the last duration seconds |
| RateLimiting.RefusedIffFull | middleware/limiter.go:49-74 | A request is refused iff max requests of its key were accepted and the max-th last of them is less than the duration old |
| RateLimiting.AcceptedAreSpaced | middleware/limiter.go:49-74 | Any max + 1 consecutive accepted requests of a key span at least duration seconds |
| RateLimiting.RateLimiter.Request | middleware/limiter.go:49-74 | The queue updates under the mutex are RequestStep |
| RateLimiting.RateLimiter.ClearExpiredItems | middleware/limiter.go:32-46 | One cleaner pass removes exactly the keys whose newest entry is older than expire |
| Utf8Split.SplitContent | model/conversation.go:309-322 | Chunks of 1..4096 bytes that join to the content; for valid UTF-8 each is valid and all but the last are filled to within three bytes |
| Utf8Split.SplitsUnlessTailRun | model/conversation.go:309-322 | The loop ends iff the content has no 4096 consecutive continuation bytes after its first byte |
| Utf8Split.TailsNeverEnd | model/conversation.go:309-322 | A failing input: on 4097 continuation bytes the loop never ends |
| Utf8Split.StallsExactlyOnTails | model/conversation.go:312-317 | One round makes no progress exactly on a long text whose bytes 1..4096 are all continuation bytes |
| Utf8Split.ValidIsSplittable | model/conversation.go:309-322 | so it ends on all valid UTF-8 (sections 3 and 4 of RFC 3629) |
| Utf8Split.ValidIsEncoded | model/conversation.go:309-322 | Every text valid here is the encoding of a sequence of Unicode scalar values (section 3 of RFC 3629) |
| Utf8Split.EncodedIsValid | model/conversation.go:309-322 | and every such encoding is valid |
| Utf8Split.CutAtRuneStart | model/conversation.go:313-319 | A valid text cut where a character starts is two valid texts |
| Conversation.ConversationTables.PersistGroup | model/conversation.go:85-182 | On the stored tables a group is Persist of the log: replayed, refused whole, or appended with dense ordinals and chunked contents |
| Conversation.ConversationTables.LoadConversationPage | model/conversation.go:235-307 | A page read back through records and chunks is LoadPage of the log; an error exactly when it holds a message stored without content |
| Conversation.NewGroupIsStored | model/conversation.go:117-182 | Under a new key the messages are appended one for one, each role with its own content, and answered; a repeated role writes nothing |
| Conversation.ReplayAnswersTheBlock | model/conversation.go:100-115 | Under a used key nothing is written, and the stored messages are answered iff none is empty and the roles asked for are theirs |
| Conversation.FirstGroupOwnsBlock | model/conversation.go:117-123 | The first group under a key takes one contiguous block at the end |
| Conversation.BlockIsKept | model/conversation.go:100-115 | No later group moves or changes the block; replaying the key writes nothing, and returns the block iff it is readable and the roles are the same |
| Conversation.EveryKeyOwnsItsBlock | model/conversation.go:85-182 | Over every history of groups, each key's messages are one contiguous block |
| Conversation.ReadableIffNoneEmpty | model/conversation.go:174-182 | A new group leaves the conversation readable iff none of its messages is empty |
| Conversation.EmptyAnswerHidesItsPage | model/conversation.go:274-307 | A failing input: a group with an empty answer is accepted, and the page that holds it cannot be read |
| Conversation.WalkIsGapFree | model/conversation.go:235-272 | However pages and arrivals interleave, the reader holds a prefix of the conversation: no gap, no repetition |
| Conversation.WalkStepIsGapFree | model/conversation.go:235-272 | A fetch adds exactly the next page of messages and finishes iff none remain, or changes nothing when one of them is unreadable |
| Conversation.WalkAdvances | model/conversation.go:235-272 | On a readable conversation every fetch adds a full page or finishes, so a walk ends within one fetch per page |
| Order.BeforeAtDifference | analysis/rules_v1.go:152-164 | Strings compare by their first difference, a prefix first |
| Order.StableUnique | agent/scoring/features.py:143-148 | A stable sort of a list has one result, equal elements in the order given |
| Order.SortedUnique | analysis/rules_v1.go:144-166 | Sorting by an order that tells different elements apart leaves one result, so sort.Slice's instability cannot show |

## Left out

- HTTP handlers, middleware glue, SQL drivers and gorm: a WHERE clause is a condition on a map or set of rows, a transaction is one step that commits or has no effect, and a statement that errs has no effect.
- Random ids (runs, Datasets, messages): parameters presumed unused before.
- The panic recovery around a worker is a Fail step; a panic between publish's claim and its second section, which would leave the claim held, is not modelled. Neither is deleting a user, nor several server processes on one database.
- Waiting on a claim: a section that meets one has the outcome Waiting and is tried again as a new step; that the waiter is eventually woken is not stated.
- RunSafety.InvStep: does not cover the evidence rows, metrics and assessment written with a Dataset, which Publication covers.
- The provider behind the collector is a fixed function from address and cursor to page; each fetch costs at least one request and may fail with any fault. Its own history cursors are not part of this model.
- CollectorCollect.CollectedExactly: does not claim completeness relative to the chain, because pages are the provider's own and receipt matching is per page.
- CollectorTables.CompletedCollection: does not say whose, when pages show one transaction with different blocks; the code keeps the block it admitted first.
- Learned scores, float features (variation, entropy, concentration, logarithms), percentiles and model training.
- FlowPairing.PairFlows: does not model the microseconds of Python datetimes or the float gap; times are whole units of any fixed size.
- SHA-256 is a function to 32 bytes of which nothing else is assumed. Go and Python texts are sequences of characters, not UTF-8 bytes; a non-ASCII character is simply outside the alphabet.
- Decoding a receipt log into an event (hex topics, contract address); a log is an event or nothing.
- Retry.RequestJSON: does not model a context that ends between attempts, nor the parsing of Retry-After.
- Graph cursors are records; encoding, and the refusal of a cursor without hash, event or time, is not modelled, because stored rows have all three.
- Position ranges of the graph endpoint (start, end) and expandRange: GraphBrowser.MergeKeeps covers merging any of their pages.
- GraphBrowser.TransactionGraphBrowser.Expand: does not model stale or aborted requests and Dataset replacement during one, which drop the page; nor does LoadMore.
- Layout, labels and node groups of the graph; CSV and PDF rendering; React components.
- RateLimiting.RateLimiter.Request: does not model a non-positive budget, which disables the limiter before it is called.
- RateLimiting.AnswersAreThePolicys: does not cover a cleaner period other than the window (keyedRateLimiter always sets them equal) or a clock that goes back.
- Conversation.ConversationTables.PersistGroup: does not model content on which splitting never ends.
- The agent's session and cache, login, claim images, logging, updater and price feed.
