/** What each call on the Run Manager answers and changes, told by columns, rows and records alone. */
module RunOutcomes {
  import opened Wrappers
  import opened RunModel
  import opened RunSafety
  import opened RunTheorems

  /** Nothing but the one row differs, and nothing of the Datasets. */
  ghost predicate OnlyRow(db: Db, db': Db, id: string) {
    && (forall other :: other != id ==> (other in db'.rows <==> other in db.rows))
    && (forall other :: other != id && other in db.rows ==> db'.rows[other] == db.rows[other])
    && db'.datasets == db.datasets
  }

  ghost predicate OnlyRun(memory: Memory, memory': Memory, run: string) {
    && (forall other :: other != run ==> (other in memory'.runs <==> other in memory.runs))
    && (forall other :: other != run && other in memory.runs ==> memory'.runs[other] == memory.runs[other])
  }

  /** The Investigation is gone, its Datasets with it, and everything else is as it was. */
  ghost predicate Removed(db: Db, db': Db, id: string) {
    && id !in db'.rows && (forall other :: other != id ==> (other in db'.rows <==> other in db.rows))
    && (forall other :: other != id && other in db.rows ==> db'.rows[other] == db.rows[other])
    && (forall d :: d in db'.datasets <==> d in db.datasets && db.datasets[d].investigation != id)
    && (forall d :: d in db'.datasets ==> db'.datasets[d] == db.datasets[d])
  }

  predicate ClaimHeld(memory: Memory, id: string) {
    id in memory.active && memory.active[id] in memory.runs && memory.runs[memory.active[id]].publishing
  }

  /** Deleting an Investigation of one's own, with no claim held on it and no statement failing, removes it and its
      Datasets and ends its run; for anyone else's, or none, nothing changes. The answer says which. */
  lemma DeleteRemoves(s: System, owner: nat, id: string)
    requires Reachable(s) && !ClaimHeld(s.memory, id)
    ensures var s' := Apply(s, Delete(owner, id, false, false)); var outcome := DeleteSection(s.memory, s.db, owner, id, false, false).2;
      && (outcome == Deleted <==> id in s.db.rows && s.db.rows[id].owner == owner)
      && (outcome == Deleted ==> Removed(s.db, s'.db, id) && id !in s'.memory.active)
      && (outcome != Deleted ==> outcome == DeleteNotFound && s' == s)
  {
    ReachableInv(s);
    if id in s.memory.active {
      assert ActiveSound(s, id) && RunSound(s, s.memory.active[id]);
    }
    hide Inv, RunSound, ActiveSound, RowSound, DatasetSound, OriginSound;
  }

  /** While the claim is held a deletion waits and changes nothing. */
  lemma DeleteWaits(memory: Memory, db: Db, owner: nat, id: string, restoreFault: bool, fault: bool)
    ensures ClaimHeld(memory, id) <==> DeleteSection(memory, db, owner, id, restoreFault, fault).2 == DeleteWaiting
    ensures ClaimHeld(memory, id) ==> DeleteSection(memory, db, owner, id, restoreFault, fault) == (memory, db, DeleteWaiting)
  {
  }

  /** A deletion in which a statement fails removes nothing. When it is the one that restores the row of the owner's own
      active run, or the deletion's own, the answer is an error, and the run has ended all the same. */
  lemma DeleteErrs(memory: Memory, db: Db, owner: nat, id: string, restoreFault: bool, fault: bool)
    requires !ClaimHeld(memory, id)
    ensures var (memory', db', outcome) := DeleteSection(memory, db, owner, id, restoreFault, fault);
      var ownRun := id in memory.active && memory.active[id] in memory.runs && memory.runs[memory.active[id]].owner == owner;
      && (outcome == DeleteError <==> fault || (ownRun && restoreFault))
      && (outcome == DeleteError ==> db'.rows.Keys == db.rows.Keys && db'.datasets == db.datasets)
      && (!ownRun ==> memory' == memory)
      && (ownRun ==>
            var run := memory.active[id];
            && OnlyRun(memory, memory', run) && run in memory'.runs && memory'.active == memory.active - {memory.runs[run].investigation}
            && memory'.runs[run] == memory.runs[run].(status := Cancelled, phase := "cancelled", ended := true))
  {
  }

  /** A run in memory is left alone; any other is taken out of the row that names it. */
  lemma RecoverRestores(memory: Memory, db: Db, owner: nat, id: string, run: string, fault: bool)
    ensures RecoverSection(memory, db, owner, id, run, fault) ==
      if fault || (run in memory.runs && memory.runs[run].owner == owner && memory.runs[run].investigation == id) then db
      else Restore(db, owner, id, run)
  {
  }

  /** Start's answers when no statement fails: one run an Investigation, on a row of the caller's own. */
  lemma StartAnswers(s: System, owner: nat, id: string, run: string)
    requires Reachable(s)
    ensures var outcome := StartSection(s.memory, s.db, owner, id, run, true, false, false).2;
      var owned := id in s.db.rows && s.db.rows[id].owner == owner;
      && (outcome == Accepted <==> owned && id !in s.memory.active && s.db.rows[id].activeRun == None)
      && (outcome == AlreadyActive <==> id in s.memory.active || (owned && s.db.rows[id].activeRun.Some?))
      && (outcome == NotFound <==> id !in s.memory.active && !owned)
  {
    ReachableInv(s);
    if id in s.db.rows { assert RowSound(s, id); }
    hide Inv, RowSound;
  }

  /** A refused or failed Start changes nothing; an accepted one queues a fresh record and marks the row. */
  lemma StartChanges(memory: Memory, db: Db, owner: nat, id: string, run: string, scopeValid: bool, fault: bool, lookupFault: bool)
    ensures var (memory', db', outcome) := StartSection(memory, db, owner, id, run, scopeValid, fault, lookupFault);
      var ready := id in db.rows && db.rows[id].owner == owner && db.rows[id].activeRun in {None, Some("")};
      && (outcome == InvalidScope <==> !scopeValid)
      && (scopeValid && id in memory.active ==> outcome == AlreadyActive)
      && (outcome == StartError <==> scopeValid && id !in memory.active && (fault || (lookupFault && !ready)))
      && (outcome != Accepted ==> memory' == memory && db' == db)
      && (outcome == Accepted ==>
            && OnlyRow(db, db', id) && id in db.rows && id in db'.rows
            && db'.rows[id] == db.rows[id].(status := Analyzing, activeRun := Some(run))
            && OnlyRun(memory, memory', run) && run in memory'.runs
            && memory'.runs[run] == Run(owner, id, Queued, "queued", 0, None, None, false, false)
            && memory'.active == memory.active[id := run])
  {
  }

  /** Cancel's answers, each with its condition; only a live run of the caller's own is cancelled, and whatever the
      restoring statement does, its record ends and its Investigation is released. */
  lemma CancelAnswers(memory: Memory, db: Db, owner: nat, id: string, run: string, fault: bool)
    ensures var (memory', db', outcome) := CancelSection(memory, db, owner, id, run, fault);
      var claimed := run in memory.runs && memory.runs[run].publishing;
      var own := run in memory.runs && memory.runs[run].owner == owner && memory.runs[run].investigation == id;
      var live := run in memory.runs && memory.runs[run].status in {Queued, Running};
      && (outcome == Waiting <==> claimed)
      && (outcome == RunNotFound <==> !claimed && !own)
      && (outcome == AlreadyTerminal <==> !claimed && own && !live)
      && (outcome == CancelDone <==> !claimed && own && live && !fault)
      && (outcome == CancelError <==> !claimed && own && live && fault)
      && (outcome !in {CancelDone, CancelError} ==> memory' == memory && db' == db)
      && (outcome in {CancelDone, CancelError} ==>
            && OnlyRun(memory, memory', run) && run in memory'.runs && memory'.active == memory.active - {id}
            && memory'.runs[run] == memory.runs[run].(status := Cancelled, phase := "cancelled", ended := true))
      && (outcome == CancelError ==> db' == db) && (outcome == CancelDone ==> db' == Restore(db, owner, id, run))
  {
  }

  predicate Editable(row: Investigation) {
    row.status == Pending && !row.targetLocked && row.activeRun in {None, Some("")}
  }

  /** An edit's answers and effect: the named columns of the one row, and no others. */
  lemma EditAnswers(db: Db, owner: nat, id: string, title: Option<string>, address: Option<Option<string>>)
    ensures var (db', outcome) := RunModel.Edit(db, owner, id, title, address);
      var owned := id in db.rows && db.rows[id].owner == owner;
      && (outcome == RowNotFound <==> !owned)
      && (outcome == TargetImmutable <==> owned && address.Some? && !Editable(db.rows[id]))
      && (outcome != Edited ==> db' == db)
      && (outcome == Edited ==>
            && OnlyRow(db, db', id) && id in db'.rows
            && db'.rows[id].title == (if title.Some? then title.value else db.rows[id].title)
            && db'.rows[id].address == (if address.Some? then address.value else db.rows[id].address)
            && db'.rows[id] == db.rows[id].(title := db'.rows[id].title, address := db'.rows[id].address))
  {
  }

  /** Progress moves a live record only, and its count takes the larger value. */
  lemma ProgressMoves(memory: Memory, run: string, status: RunStatus, phase: string, collected: nat)
    ensures var memory' := ProgressSection(memory, run, status, phase, collected);
      && memory'.active == memory.active && OnlyRun(memory, memory', run)
      && (run in memory'.runs <==> run in memory.runs)
      && (run in memory.runs ==>
            var r, r' := memory.runs[run], memory'.runs[run];
            if r.status !in {Queued, Running} then r' == r
            else
              && r' == r.(status := status, phase := phase, collected := r'.collected)
              && r'.collected >= r.collected && r'.collected >= collected && r'.collected in {r.collected, collected})
  {
  }

  /** Failing ends a live record with its code and releases the Investigation; anything else is left alone. */
  lemma FailEnds(memory: Memory, db: Db, owner: nat, id: string, run: string, code: string, fault: bool)
    ensures var (memory', db') := FailSection(memory, db, owner, id, run, code, fault);
      if run in memory.runs && memory.runs[run].status in {Queued, Running} then
        && OnlyRun(memory, memory', run) && run in memory'.runs && memory'.active == memory.active - {memory.runs[run].investigation}
        && memory'.runs[run] == memory.runs[run].(status := Failed, phase := "failed", errorCode := Some(code), ended := true)
        && db' == (if fault then db else Restore(db, owner, id, run))
      else memory' == memory && db' == db
  {
  }

  /** The claim is granted exactly to a live run that nobody claims and whose context goes on. */
  lemma ClaimGranted(memory: Memory, run: string)
    ensures var (memory', claimed) := ClaimSection(memory, run);
      && (claimed <==> run in memory.runs && !memory.runs[run].publishing && memory.runs[run].status in {Queued, Running} && !memory.runs[run].ended)
      && (!claimed ==> memory' == memory)
      && (claimed ==>
            && OnlyRun(memory, memory', run) && run in memory'.runs && memory'.active == memory.active
            && memory'.runs[run] == memory.runs[run].(publishing := true))
  {
  }

  /** The second section of publish records the result or the failure, gives the claim back and releases the
      Investigation. */
  lemma FinishRecords(memory: Memory, db: Db, owner: nat, id: string, run: string, published: Option<string>, collected: nat, fault: bool)
    requires run in memory.runs
    ensures var (memory', db') := FinishSection(memory, db, owner, id, run, published, collected, fault); var r := memory.runs[run];
      && OnlyRun(memory, memory', run) && run in memory'.runs && memory'.active == memory.active - {r.investigation}
      && (published.Some? ==>
            && db' == db
            && memory'.runs[run] == r.(status := RunCompleted, phase := "completed", collected := collected, resultId := published,
                                       ended := true, publishing := false))
      && (published.None? ==>
            memory'.runs[run] == r.(status := Failed, phase := "failed", errorCode := Some("publication_failed"),
                                    ended := true, publishing := false))
      && (published.None? ==> db' == if fault then db else Restore(db, owner, id, run))
  {
  }

  /** A restoring statement rewrites the one row that names the run, to what it was before the run. */
  lemma RestoreRewrites(db: Db, owner: nat, id: string, run: string)
    ensures var db' := Restore(db, owner, id, run);
      && OnlyRow(db, db', id)
      && (if id in db.rows && db.rows[id].owner == owner && db.rows[id].activeRun == Some(run) then
            && id in db'.rows
            && db'.rows[id] == db.rows[id].(status := if db.rows[id].currentResult == None then Pending else Completed, activeRun := None)
          else db' == db)
  {
  }

  /** A publication goes through exactly on the caller's analyzing row that names the run, with a new Dataset and none
      yet for the run; it stores the Dataset, and writes result and summary to the row together. */
  lemma PublicationWrites(db: Db, owner: nat, id: string, run: string, dataset: string, summary: Summary)
    ensures var tx := PublishTransaction(db, owner, id, run, dataset, summary);
      && (tx.Some? <==>
            && dataset !in db.datasets && (forall d :: d in db.datasets ==> db.datasets[d].run != run)
            && id in db.rows && db.rows[id].owner == owner && db.rows[id].status == Analyzing && db.rows[id].activeRun == Some(run))
      && (tx.Some? ==>
            && tx.value.datasets == db.datasets[dataset := Dataset(id, run)] && tx.value.rows == db.rows[id := tx.value.rows[id]]
            && tx.value.rows[id] == db.rows[id].(status := Completed, activeRun := None, targetLocked := true,
                                                 currentResult := Some(dataset), summary := Some(summary)))
  {
  }
}
