/** The Investigation table and the Run Manager's memory as values.
    Each Db function is one SQL statement or transaction. Each Memory function is one section of code that
    holds the manager's mutex. `fault` says that the statement inside the section returns an error; a statement
    that errs leaves the database as it was. */
module RunModel {
  import opened Wrappers

  datatype InvestigationStatus = Pending | Analyzing | Completed

  /** The risk and metric columns that a publication overwrites together. */
  datatype Summary = Summary(riskScore: Option<int>, relatedNodes: nat, totalFlow: nat, transferCount: nat)

  datatype Investigation = Investigation(
    owner: nat,
    title: string,
    address: Option<string>,
    status: InvestigationStatus,
    targetLocked: bool,
    activeRun: Option<string>,
    currentResult: Option<string>,
    summary: Option<Summary>)

  datatype Dataset = Dataset(investigation: string, run: string)

  datatype Db = Db(rows: map<string, Investigation>, datasets: map<string, Dataset>)

  function StableStatus(row: Investigation): InvestigationStatus {
    if row.currentResult.None? then Pending else Completed
  }

  /** `active_analysis_run_id IS NULL OR active_analysis_run_id = ''` */
  predicate NoActiveRun(row: Investigation) {
    row.activeRun.None? || row.activeRun == Some("")
  }

  predicate OwnedRow(db: Db, owner: nat, id: string) {
    id in db.rows && db.rows[id].owner == owner
  }

  function NewInvestigation(owner: nat, title: string, address: Option<string>): Investigation {
    Investigation(owner, title, address, Pending, false, None, None, None)
  }

  /** The conditional update inside Start; true when it affected the row. */
  function StartUpdate(db: Db, owner: nat, id: string, run: string): (Db, bool) {
    if OwnedRow(db, owner, id) && NoActiveRun(db.rows[id]) then
      (db.(rows := db.rows[id := db.rows[id].(status := Analyzing, activeRun := Some(run))]), true)
    else
      (db, false)
  }

  predicate RestoreMatches(db: Db, owner: nat, id: string, run: string) {
    OwnedRow(db, owner, id) && db.rows[id].activeRun == Some(run)
  }

  /** restoreStableStatus. */
  function Restore(db: Db, owner: nat, id: string, run: string): Db {
    if RestoreMatches(db, owner, id, run) then
      db.(rows := db.rows[id := db.rows[id].(status := StableStatus(db.rows[id]), activeRun := None)])
    else
      db
  }

  function RestoreUnless(fault: bool, db: Db, owner: nat, id: string, run: string): Db {
    if fault then db else Restore(db, owner, id, run)
  }

  predicate Publishable(db: Db, owner: nat, id: string, run: string) {
    OwnedRow(db, owner, id) && db.rows[id].status == Analyzing && db.rows[id].activeRun == Some(run)
  }

  /** The publication transaction: all of it, or None and no effect. The Dataset table's primary key and its
      unique index on the run make a second Dataset for one run an error. */
  function PublishTransaction(db: Db, owner: nat, id: string, run: string, dataset: string, summary: Summary): Option<Db> {
    if dataset in db.datasets || (exists d :: d in db.datasets && db.datasets[d].run == run) || !Publishable(db, owner, id, run) then
      None
    else
      Some(Db(
        db.rows[id := db.rows[id].(status := Completed, activeRun := None, targetLocked := true,
                                   currentResult := Some(dataset), summary := Some(summary))],
        db.datasets[dataset := Dataset(id, run)]))
  }

  datatype EditOutcome = Edited | TargetImmutable | RowNotFound

  predicate TargetEditable(row: Investigation) {
    row.status == Pending && !row.targetLocked && NoActiveRun(row)
  }

  function WithChanges(row: Investigation, title: Option<string>, address: Option<Option<string>>): Investigation {
    var titled := if title.Some? then row.(title := title.value) else row;
    if address.Some? then titled.(address := address.value) else titled
  }

  /** UpdateInvestigation. A change of address is what callers flag as a target update. */
  function Edit(db: Db, owner: nat, id: string, title: Option<string>, address: Option<Option<string>>): (Db, EditOutcome) {
    if !OwnedRow(db, owner, id) then (db, RowNotFound)
    else if title.None? && address.None? then (db, Edited)
    else if address.Some? && !TargetEditable(db.rows[id]) then (db, TargetImmutable)
    else (db.(rows := db.rows[id := WithChanges(db.rows[id], title, address)]), Edited)
  }

  /** DeleteInvestigation of the model package; Datasets go with their Investigation. */
  function DeleteRow(db: Db, owner: nat, id: string): (Db, bool) {
    if OwnedRow(db, owner, id) then
      (Db(db.rows - {id}, map d | d in db.datasets && db.datasets[d].investigation != id :: db.datasets[d]), true)
    else
      (db, false)
  }

  function Reconciled(row: Investigation): Investigation {
    if row.status == Analyzing then row.(status := StableStatus(row), activeRun := None) else row
  }

  /** reconcileLostAnalysisRuns. */
  function Reconcile(db: Db): Db {
    db.(rows := map id | id in db.rows :: Reconciled(db.rows[id]))
  }

  // ----- memory -----

  datatype RunStatus = Queued | Running | RunCompleted | Failed | Cancelled

  /** A managedRun. `ended` is ctx.Err() != nil: cancelled, or past its deadline. `publishing` is the claim. */
  datatype Run = Run(
    owner: nat,
    investigation: string,
    status: RunStatus,
    phase: string,
    collected: nat,
    resultId: Option<string>,
    errorCode: Option<string>,
    ended: bool,
    publishing: bool)

  datatype Memory = Memory(runs: map<string, Run>, active: map<string, string>)

  predicate Live(status: RunStatus) {
    status == Queued || status == Running
  }

  predicate Visible(memory: Memory, owner: nat, investigation: string, run: string) {
    run in memory.runs && memory.runs[run].owner == owner && memory.runs[run].investigation == investigation
  }

  function NewRun(owner: nat, investigation: string): Run {
    Run(owner, investigation, Queued, "queued", 0, None, None, false, false)
  }

  /** A terminal transition: the run's record is replaced, its context ended, its Investigation released. */
  function Terminate(memory: Memory, run: string, last: Run): Memory
    requires run in memory.runs
  {
    Memory(memory.runs[run := last.(ended := true)], memory.active - {memory.runs[run].investigation})
  }

  datatype StartOutcome = Accepted | InvalidScope | AlreadyActive | NotFound | StartError

  /** Start up to the launch of the worker. `lookupFault` is an error of the count that tells the two refusals apart. */
  function StartSection(memory: Memory, db: Db, owner: nat, id: string, run: string, scopeValid: bool, fault: bool, lookupFault: bool)
    : (Memory, Db, StartOutcome)
  {
    if !scopeValid then (memory, db, InvalidScope)
    else if id in memory.active then (memory, db, AlreadyActive)
    else if fault then (memory, db, StartError)
    else
      var (updated, affected) := StartUpdate(db, owner, id, run);
      if !affected then
        (memory, db, if lookupFault then StartError else if OwnedRow(db, owner, id) then AlreadyActive else NotFound)
      else
        (Memory(memory.runs[run := NewRun(owner, id)], memory.active[id := run]), updated, Accepted)
  }

  function RecoverSection(memory: Memory, db: Db, owner: nat, id: string, run: string, fault: bool): Db {
    if Visible(memory, owner, id, run) then db else RestoreUnless(fault, db, owner, id, run)
  }

  /** `Waiting`: the run's claim is held, so the section gave the mutex up without effect and the caller waits. */
  datatype CancelOutcome = Waiting | RunNotFound | AlreadyTerminal | CancelDone | CancelError

  function CancelSection(memory: Memory, db: Db, owner: nat, id: string, run: string, fault: bool): (Memory, Db, CancelOutcome) {
    if run in memory.runs && memory.runs[run].publishing then (memory, db, Waiting)
    else if !Visible(memory, owner, id, run) then (memory, db, RunNotFound)
    else if !Live(memory.runs[run].status) then (memory, db, AlreadyTerminal)
    else
      (CancelLocked(memory, run), RestoreUnless(fault, db, memory.runs[run].owner, memory.runs[run].investigation, run),
       if fault then CancelError else CancelDone)
  }

  /** cancelLocked forgets the run whether or not the row was restored. */
  function CancelLocked(memory: Memory, run: string): Memory
    requires run in memory.runs
  {
    Terminate(memory, run, memory.runs[run].(status := Cancelled, phase := "cancelled"))
  }

  datatype DeleteOutcome = DeleteWaiting | Deleted | DeleteNotFound | DeleteError

  function DeleteTail(memory: Memory, db: Db, owner: nat, id: string, fault: bool): (Memory, Db, DeleteOutcome) {
    var (rest, affected) := DeleteRow(db, owner, id);
    if fault then (memory, db, DeleteError) else (memory, rest, if affected then Deleted else DeleteNotFound)
  }

  /** DeleteInvestigation of the Run Manager: it cancels the owner's own active run first, and stops there when
      the row could not be restored. */
  function DeleteSection(memory: Memory, db: Db, owner: nat, id: string, restoreFault: bool, fault: bool): (Memory, Db, DeleteOutcome) {
    if id !in memory.active then DeleteTail(memory, db, owner, id, fault)
    else
      var run := memory.active[id];
      if run in memory.runs && memory.runs[run].publishing then (memory, db, DeleteWaiting)
      else if run in memory.runs && memory.runs[run].owner == owner then
        var cancelled := CancelLocked(memory, run);
        var restored := RestoreUnless(restoreFault, db, owner, memory.runs[run].investigation, run);
        if restoreFault then (cancelled, restored, DeleteError) else DeleteTail(cancelled, restored, owner, id, fault)
      else DeleteTail(memory, db, owner, id, fault)
  }

  function ProgressSection(memory: Memory, run: string, status: RunStatus, phase: string, collected: nat): Memory {
    if run in memory.runs && Live(memory.runs[run].status) then
      var r := memory.runs[run];
      memory.(runs := memory.runs[run := r.(status := status, phase := phase,
                                            collected := if collected > r.collected then collected else r.collected)])
    else
      memory
  }

  function FailSection(memory: Memory, db: Db, owner: nat, id: string, run: string, code: string, fault: bool): (Memory, Db) {
    if run in memory.runs && Live(memory.runs[run].status) then
      (Terminate(memory, run, memory.runs[run].(status := Failed, phase := "failed", errorCode := Some(code))),
       RestoreUnless(fault, db, owner, id, run))
    else
      (memory, db)
  }

  /** The first locked section of publish: the claim is taken, or the worker gives up silently. */
  function ClaimSection(memory: Memory, run: string): (Memory, bool) {
    if run in memory.runs && !memory.runs[run].publishing && Live(memory.runs[run].status) && !memory.runs[run].ended then
      (memory.(runs := memory.runs[run := memory.runs[run].(publishing := true)]), true)
    else
      (memory, false)
  }

  /** The second locked section of publish. `published` is the committed Dataset, None when publication failed. */
  function FinishSection(memory: Memory, db: Db, owner: nat, id: string, run: string, published: Option<string>, collected: nat, fault: bool): (Memory, Db)
    requires run in memory.runs
  {
    var r := memory.runs[run];
    if published.None? then
      (Terminate(memory, run, r.(status := Failed, phase := "failed", errorCode := Some("publication_failed"), publishing := false)),
       RestoreUnless(fault, db, owner, id, run))
    else
      (Terminate(memory, run, r.(status := RunCompleted, phase := "completed", collected := collected,
                                 resultId := published, publishing := false)), db)
  }
}
