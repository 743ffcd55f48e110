/** What the Run Manager promises about whole runs of the system: any number of investigations, runs, workers,
    failed statements and restarts, in any order. */
module RunTheorems {
  import opened Wrappers
  import opened RunModel
  import opened RunSafety

  predicate Runs(s: System, steps: seq<Step>)
    decreases |steps|
  {
    steps == [] || (Enabled(s, steps[0]) && Runs(Apply(s, steps[0]), steps[1..]))
  }

  function After(s: System, steps: seq<Step>): System
    requires Runs(s, steps)
    decreases |steps|
  {
    if steps == [] then s else After(Apply(s, steps[0]), steps[1..])
  }

  lemma {:induction false} InvAfter(s: System, steps: seq<Step>)
    requires Inv(s) && Runs(s, steps)
    ensures Inv(After(s, steps))
    decreases |steps|
  {
    if steps != [] {
      InvStep(s, steps[0]);
      InvAfter(Apply(s, steps[0]), steps[1..]);
    }
  }

  ghost predicate Reachable(s: System) {
    exists steps :: Runs(INITIAL, steps) && After(INITIAL, steps) == s
  }

  lemma {:induction false} AfterSnoc(s: System, steps: seq<Step>, last: Step)
    requires Runs(s, steps) && Enabled(After(s, steps), last)
    ensures Runs(s, steps + [last]) && After(s, steps + [last]) == Apply(After(s, steps), last)
    decreases |steps|
  {
    if steps == [] {
      assert steps + [last] == [last] && [last][1..] == [];
    } else {
      AfterSnoc(Apply(s, steps[0]), steps[1..], last);
      assert (steps + [last])[1..] == steps[1..] + [last];
    }
  }

  lemma ReachableStep(s: System, step: Step)
    requires Reachable(s) && Enabled(s, step)
    ensures Reachable(Apply(s, step))
  {
    var steps :| Runs(INITIAL, steps) && After(INITIAL, steps) == s;
    AfterSnoc(INITIAL, steps, step);
  }

  lemma InitialReachable()
    ensures Reachable(INITIAL)
  {
    assert Runs(INITIAL, []) && After(INITIAL, []) == INITIAL;
  }

  lemma ReachableInv(s: System)
    requires Reachable(s)
    ensures Inv(s)
  {
    var steps :| Runs(INITIAL, steps) && After(INITIAL, steps) == s;
    InvAfter(INITIAL, steps);
  }

  // ----- runs -----

  /** Whatever the manager maps an Investigation to is a record of a queued or running run of that Investigation. */
  lemma ActiveNamesALiveRun(s: System, id: string)
    requires Reachable(s) && id in s.memory.active
    ensures var run := s.memory.active[id];
      run in s.memory.runs && Live(s.memory.runs[run].status) && s.memory.runs[run].investigation == id
  {
    ReachableInv(s);
    assert ActiveSound(s, id);
  }

  /** A run is queued or running iff the manager maps its Investigation to it, so there is at most one. While it
      is, its row is there, and names it and is analyzing, except in publish's window after its commit. */
  lemma LiveRunIsTheActiveRun(s: System, run: string)
    requires Reachable(s) && run in s.memory.runs
    ensures var r := s.memory.runs[run]; var id := r.investigation;
      && (Live(r.status) <==> (id in s.memory.active && s.memory.active[id] == run))
      && (Live(r.status) ==> forall other :: other in s.memory.runs && s.memory.runs[other].investigation == id && Live(s.memory.runs[other].status) ==> other == run)
      && (Live(r.status) ==> OwnedRow(s.db, r.owner, id))
      && (Live(r.status) && !InWindow(s, run) ==> s.db.rows[id].activeRun == Some(run) && s.db.rows[id].status == Analyzing)
      && (Live(r.status) && InWindow(s, run) ==> run in s.commits)
    ensures forall id :: id in s.memory.active ==> s.memory.active[id] in s.memory.runs
  {
    ReachableInv(s);
    forall id | id in s.memory.active ensures s.memory.active[id] in s.memory.runs { ActiveNamesALiveRun(s, id); }
    assert RunSound(s, run);
    var id := s.memory.runs[run].investigation;
    forall other | other in s.memory.runs && s.memory.runs[other].investigation == id && Live(s.memory.runs[other].status) && Live(s.memory.runs[run].status)
      ensures other == run
    {
      assert RunSound(s, other);
    }
    if id in s.db.rows { assert RowSound(s, id); }
  }

  /** A Dataset has been committed for a run iff the run is completed or inside the window between its commit and
      its terminal write; so a failed or cancelled run never committed one. */
  lemma CommittedIffCompletedOrInWindow(s: System, run: string)
    requires Reachable(s) && run in s.memory.runs
    ensures run in s.commits <==> s.memory.runs[run].status == RunCompleted || InWindow(s, run)
    ensures s.memory.runs[run].status == RunCompleted ==> s.memory.runs[run].resultId == Some(s.commits[run])
    ensures s.memory.runs[run].status in {Failed, Cancelled} ==> run !in s.commits
    ensures forall d :: d in s.db.datasets && s.db.datasets[d].run == run ==> run in s.commits && s.commits[run] == d
  {
    ReachableInv(s);
    assert RunSound(s, run);
    forall d | d in s.db.datasets && s.db.datasets[d].run == run ensures run in s.commits && s.commits[run] == d {
      assert DatasetSound(s, d);
    }
  }

  lemma TerminalWorkerStep(s: System, step: Step, run: string)
    requires Inv(s) && Enabled(s, step) && (step.Begin? || step.Progress? || step.Fail? || step.Claim? || step.Finish? || step.Deadline?)
    requires run in s.memory.runs && !Live(s.memory.runs[run].status)
    ensures run in Apply(s, step).memory.runs
    ensures Apply(s, step).memory.runs[run].(ended := true) == s.memory.runs[run].(ended := true)
  {
    assert RunSound(s, run);
    if step.Finish? { assert RunSound(s, step.run); }
    hide Inv, ActiveSound, RowSound, DatasetSound, OriginSound, Restore;
  }

  lemma TerminalCallStep(s: System, step: Step, run: string)
    requires Inv(s) && Enabled(s, step) && (step.Start? || step.Cancel? || step.Delete?)
    requires run in s.memory.runs && !Live(s.memory.runs[run].status)
    ensures run in Apply(s, step).memory.runs
    ensures Apply(s, step).memory.runs[run].(ended := true) == s.memory.runs[run].(ended := true)
  {
    assert RunSound(s, run);
    if step.Delete? && step.id in s.memory.active { assert ActiveSound(s, step.id); }
    hide Inv, RunSound, RowSound, DatasetSound, OriginSound, Restore, DeleteRow;
  }

  lemma TerminalStep(s: System, step: Step, run: string)
    requires Inv(s) && Enabled(s, step) && !step.Restart?
    requires run in s.memory.runs && !Live(s.memory.runs[run].status)
    ensures run in Apply(s, step).memory.runs
    ensures Apply(s, step).memory.runs[run].(ended := true) == s.memory.runs[run].(ended := true)
  {
    if step.Start? || step.Cancel? || step.Delete? {
      TerminalCallStep(s, step, run);
    } else if step.Begin? || step.Progress? || step.Fail? || step.Claim? || step.Finish? || step.Deadline? {
      TerminalWorkerStep(s, step, run);
    } else {
      hide Inv;
    }
  }

  /** A run leaves {queued, running} at most once: until the process restarts, a terminal run keeps its status,
      result and error for ever. */
  lemma {:induction false} TerminalForever(s: System, steps: seq<Step>, run: string)
    requires Inv(s) && Runs(s, steps) && (forall i :: 0 <= i < |steps| ==> !steps[i].Restart?)
    requires run in s.memory.runs && !Live(s.memory.runs[run].status)
    ensures run in After(s, steps).memory.runs
    ensures After(s, steps).memory.runs[run].(ended := true) == s.memory.runs[run].(ended := true)
    decreases |steps|
  {
    if steps != [] {
      var s1 := Apply(s, steps[0]);
      TerminalStep(s, steps[0], run);
      InvStep(s, steps[0]);
      assert forall i :: 0 <= i < |steps[1..]| ==> steps[1..][i] == steps[i + 1];
      TerminalForever(s1, steps[1..], run);
    }
  }

  /** An accepted run that failed, was cancelled, or was lost with its process, uncommitted. */
  predicate Abandoned(s: System, run: string) {
    run in s.origins && run !in s.commits && (run in s.memory.runs ==> s.memory.runs[run].status in {Failed, Cancelled})
  }

  /** Only a commit of the run itself adds it to the committed. */
  lemma CommitsOwn(s: System, step: Step, run: string)
    requires Enabled(s, step) && run !in s.commits && run in Apply(s, step).commits
    ensures WorkerAt(s, run, Claimed)
  {
    hide Restore, DeleteRow;
  }

  /** An accepted run's id is never accepted again. */
  lemma NoNewRecord(s: System, step: Step, run: string)
    requires Enabled(s, step) && run in s.origins
    ensures run in Apply(s, step).origins && (run in Apply(s, step).memory.runs ==> run in s.memory.runs && !step.Restart?)
  {
    hide Restore, DeleteRow, PublishTransaction;
  }

  lemma AbandonedStep(s: System, step: Step, run: string)
    requires Inv(s) && Enabled(s, step) && Abandoned(s, run)
    ensures Abandoned(Apply(s, step), run)
  {
    NoNewRecord(s, step, run);
    if run in s.memory.runs { assert RunSound(s, run); }
    hide Apply, Inv;
    if run in Apply(s, step).commits { CommitsOwn(s, step, run); }
    if run in Apply(s, step).memory.runs { TerminalStep(s, step, run); }
  }

  /** Exactly one of publication and cancellation wins: whatever happens later, restarts included, an abandoned
      run never gets a Dataset. */
  lemma {:induction false} AbandonedNeverPublishes(s: System, steps: seq<Step>, run: string)
    requires Inv(s) && Runs(s, steps) && Abandoned(s, run)
    ensures run !in After(s, steps).commits
    ensures forall d :: d in After(s, steps).db.datasets ==> After(s, steps).db.datasets[d].run != run
    decreases |steps|
  {
    if steps == [] {
      forall d | d in s.db.datasets ensures s.db.datasets[d].run != run { assert DatasetSound(s, d); }
    } else {
      AbandonedStep(s, steps[0], run);
      InvStep(s, steps[0]);
      AbandonedNeverPublishes(Apply(s, steps[0]), steps[1..], run);
    }
  }

  // ----- the row -----

  /** Every reachable row: analyzing iff an active run is set, locked iff a current result exists, otherwise
      completed or pending by that result. A current result is a stored Dataset of the same Investigation. */
  lemma ReachableRow(s: System, id: string)
    requires Reachable(s) && id in s.db.rows
    ensures var row := s.db.rows[id];
      && (row.status == Analyzing <==> row.activeRun.Some?)
      && (row.targetLocked <==> row.currentResult.Some?)
      && (row.activeRun.None? ==> row.status == if row.currentResult.Some? then Completed else Pending)
      && (row.currentResult.Some? ==> row.currentResult.value in s.db.datasets && s.db.datasets[row.currentResult.value].investigation == id)
  {
    ReachableInv(s);
    assert RowSound(s, id);
  }

  /** RecoverLost never changes the row of a queued or running run, whoever calls it with whatever arguments. */
  lemma RecoverSparesLiveRuns(s: System, run: string, owner: nat, id: string, named: string, fault: bool)
    requires Reachable(s) && run in s.memory.runs && Live(s.memory.runs[run].status)
    ensures var at := s.memory.runs[run].investigation;
      at in s.db.rows && at in Apply(s, Recover(owner, id, named, fault)).db.rows &&
      Apply(s, Recover(owner, id, named, fault)).db.rows[at] == s.db.rows[at]
  {
    ReachableInv(s);
    assert RunSound(s, run);
    assert RowSound(s, s.memory.runs[run].investigation);
  }

  /** The ways a live run ends without a Dataset, its row restored; the last is a deletion whose own statement errs
      after the run was cancelled. */
  predicate EndsUnpublished(s: System, step: Step, run: string)
    requires run in s.memory.runs
  {
    || (step.Fail? && step.run == run && !step.fault)
    || (step.Finish? && step.run == run && !step.fault && run in s.workers && s.workers[run] == Committed(None))
    || (step == Cancel(s.memory.runs[run].owner, s.memory.runs[run].investigation, run, false) && !s.memory.runs[run].publishing)
    || (step == Delete(s.memory.runs[run].owner, s.memory.runs[run].investigation, false, true) && !s.memory.runs[run].publishing)
  }

  /** Cancellation and failure undo Start: the row is the row Start found, but for a title edited meanwhile. */
  lemma EndingUndoesStart(s: System, step: Step, run: string)
    requires Reachable(s) && Enabled(s, step) && run in s.memory.runs && Live(s.memory.runs[run].status)
    requires EndsUnpublished(s, step, run)
    ensures run in s.origins && s.memory.runs[run].investigation in s.db.rows
    ensures var id := s.memory.runs[run].investigation; var s' := Apply(s, step);
      && id in s'.db.rows && s'.db.rows[id] == s.origins[run].before.(title := s.db.rows[id].title)
      && !Live(s'.memory.runs[run].status) && id !in s'.memory.active
  {
    ReachableInv(s);
    assert RunSound(s, run);
    assert RowSound(s, s.memory.runs[run].investigation);
    assert OriginSound(s, run);
  }

  /** While a row names a run, its address stays the one Start found, so it is the run's target for the whole of that
      time iff the caller's snapshot matched the row at Start's update. */
  lemma TargetHeldWhileNamed(s: System, id: string, run: string)
    requires Reachable(s) && id in s.db.rows && s.db.rows[id].activeRun == Some(run)
    ensures run in s.origins && s.db.rows[id] == s.origins[run].before.(status := Analyzing, activeRun := Some(run), title := s.db.rows[id].title)
    ensures s.origins[run].target == s.db.rows[id].address <==> s.origins[run].target == s.origins[run].before.address
  {
    ReachableInv(s);
    assert RowSound(s, id);
  }

  /** The published result describes the row's own address iff Start's snapshot matched the row it updated. */
  lemma PublishedTargetIffSnapshotMatched(s: System, id: string)
    requires Reachable(s) && id in s.db.rows && s.db.rows[id].currentResult.Some?
    ensures var d := s.db.rows[id].currentResult.value;
      && d in s.db.datasets && s.db.datasets[d].run in s.origins
      && var origin := s.origins[s.db.datasets[d].run];
         (origin.target == s.db.rows[id].address <==> origin.target == origin.before.address)
  {
    ReachableInv(s);
    assert RowSound(s, id);
  }

  /** Start does not recheck the address: an edit between the caller's read and the conditional update publishes
      a Dataset about another address than the row's. */
  lemma StaleSnapshotIsPublished() returns (s: System)
    ensures Reachable(s) && "i" in s.db.rows && s.db.rows["i"].currentResult == Some("d") && "d" in s.db.datasets
    ensures s.db.datasets["d"].run == "r" && "r" in s.origins && s.origins["r"].target == Some("A") && s.db.rows["i"].address == Some("B")
  {
    InitialReachable();
    var stored := NewInvestigation(1, "t", Some("A"));
    ReachableStep(INITIAL, Add("i", 1, "t", Some("A")));
    s := INITIAL.(db := Db(map["i" := stored], map[]));
    var moved := stored.(address := Some("B"));
    ReachableStep(s, Edit(1, "i", None, Some(Some("B"))));
    s := s.(db := Db(map["i" := moved], map[]));
    s := AcceptedRunPublishes(s, moved);
  }

  lemma AcceptedRunPublishes(s0: System, row: Investigation) returns (s: System)
    requires Reachable(s0) && s0 == INITIAL.(db := Db(map["i" := row], map[])) && row.owner == 1 && row.activeRun.None?
    ensures Reachable(s) && "i" in s.db.rows && s.db.rows["i"].currentResult == Some("d") && "d" in s.db.datasets
    ensures s.db.datasets["d"].run == "r" && "r" in s.origins && s.origins["r"].target == Some("A") && s.db.rows["i"].address == row.address
  {
    hide Reachable;
    var start := Start(1, "i", Some("A"), "r", true, false, false);
    ReachableStep(s0, start);
    s := Apply(s0, start);
    ReachableStep(s, Begin("r"));
    s := Apply(s, Begin("r"));
    assert WorkerAt(s, "r", Working) && s.db.rows == map["i" := row.(status := Analyzing, activeRun := Some("r"))];
    s := WorkingRunPublishes(s);
  }

  lemma WorkingRunPublishes(s0: System) returns (s: System)
    requires Reachable(s0) && WorkerAt(s0, "r", Working) && s0.db.datasets == map[]
    requires Live(s0.memory.runs["r"].status) && !s0.memory.runs["r"].ended && !s0.memory.runs["r"].publishing
    requires s0.origins["r"].owner == 1 && s0.origins["r"].investigation == "i" && s0.origins["r"].target == Some("A")
    requires Publishable(s0.db, 1, "i", "r")
    ensures Reachable(s) && "i" in s.db.rows && s.db.rows["i"].currentResult == Some("d") && "d" in s.db.datasets
    ensures s.db.datasets["d"].run == "r" && s.origins == s0.origins && s.db.rows["i"].address == s0.db.rows["i"].address
  {
    hide Reachable;
    ReachableStep(s0, Claim("r"));
    s := Apply(s0, Claim("r"));
    assert WorkerAt(s, "r", Claimed) && s.db == s0.db && s.origins == s0.origins;
    var commit := Commit("r", "d", Summary(None, 0, 0, 0), false);
    ReachableStep(s, commit);
    s := Apply(s, commit);
  }

  /** The ways a step can change a row that was there. */
  predicate RowChange(row: Investigation, row': Investigation, step: Step) {
    || row' == row
    || row' == row.(status := StableStatus(row), activeRun := None)
    || (step.Start? && NoActiveRun(row) && row' == row.(status := Analyzing, activeRun := Some(step.run)))
    || (step.Commit? && row.activeRun == Some(step.run) && row.status == Analyzing &&
        row' == row.(status := Completed, activeRun := None, targetLocked := true, currentResult := Some(step.dataset), summary := Some(step.summary)))
    || (step.Edit? && (step.newAddress.Some? ==> TargetEditable(row)) && row' == WithChanges(row, step.newTitle, step.newAddress))
  }

  lemma StartChange(s: System, step: Step, id: string)
    requires Enabled(s, step) && step.Start? && id in Apply(s, step).db.rows
    ensures id in s.db.rows && RowChange(s.db.rows[id], Apply(s, step).db.rows[id], step)
  {
  }

  lemma CommitChange(s: System, step: Step, id: string)
    requires Enabled(s, step) && step.Commit? && id in Apply(s, step).db.rows
    ensures id in s.db.rows && RowChange(s.db.rows[id], Apply(s, step).db.rows[id], step)
  {
  }

  lemma EndingChange(s: System, step: Step, id: string)
    requires Enabled(s, step) && (step.Fail? || step.Finish?) && id in Apply(s, step).db.rows
    ensures id in s.db.rows && RowChange(s.db.rows[id], Apply(s, step).db.rows[id], step)
  {
  }

  lemma CallChange(s: System, step: Step, id: string)
    requires Enabled(s, step) && (step.Cancel? || step.Recover?) && id in Apply(s, step).db.rows
    ensures id in s.db.rows && RowChange(s.db.rows[id], Apply(s, step).db.rows[id], step)
  {
  }

  lemma DeleteChange(s: System, step: Step, id: string)
    requires Enabled(s, step) && step.Delete? && id in Apply(s, step).db.rows
    ensures id in s.db.rows && RowChange(s.db.rows[id], Apply(s, step).db.rows[id], step)
  {
  }

  lemma OtherChange(s: System, step: Step, id: string)
    requires Enabled(s, step) && (step.Begin? || step.Progress? || step.Claim? || step.Deadline? || step.Add? || step.Edit? || step.Restart?) && id in Apply(s, step).db.rows && !(step.Add? && step.id == id)
    ensures id in s.db.rows && RowChange(s.db.rows[id], Apply(s, step).db.rows[id], step)
  {
  }

  lemma StepRow(s: System, step: Step, id: string)
    requires Enabled(s, step) && id in Apply(s, step).db.rows && !(step.Add? && step.id == id)
    ensures id in s.db.rows && RowChange(s.db.rows[id], Apply(s, step).db.rows[id], step)
  {
    hide Enabled, RowChange, Apply;
    match step
    case Start(_, _, _, _, _, _, _) => StartChange(s, step, id);
    case Commit(_, _, _, _) => CommitChange(s, step, id);
    case Fail(_, _, _) => EndingChange(s, step, id);
    case Finish(_, _, _) => EndingChange(s, step, id);
    case Cancel(_, _, _, _) => CallChange(s, step, id);
    case Delete(_, _, _, _) => DeleteChange(s, step, id);
    case Recover(_, _, _, _) => CallChange(s, step, id);
    case _ => OtherChange(s, step, id);
  }

  predicate NeverReadded(steps: seq<Step>, id: string) {
    forall i :: 0 <= i < |steps| ==> !(steps[i].Add? && steps[i].id == id)
  }

  lemma LockedStep(s: System, step: Step, id: string)
    requires Enabled(s, step) && !(step.Add? && step.id == id)
    requires id in s.db.rows ==> s.db.rows[id].targetLocked
    ensures id in Apply(s, step).db.rows ==>
      id in s.db.rows && Apply(s, step).db.rows[id].targetLocked && Apply(s, step).db.rows[id].address == s.db.rows[id].address
  {
    hide Enabled, Apply;
    if id in Apply(s, step).db.rows { StepRow(s, step, id); }
  }

  /** Once a result is published its Investigation's target is fixed for as long as the row exists. */
  lemma {:induction false} PublishedTargetNeverChanges(s: System, steps: seq<Step>, id: string)
    requires Inv(s) && Runs(s, steps) && NeverReadded(steps, id)
    requires id in s.db.rows ==> s.db.rows[id].targetLocked
    ensures id in After(s, steps).db.rows ==>
      id in s.db.rows && After(s, steps).db.rows[id].targetLocked && After(s, steps).db.rows[id].address == s.db.rows[id].address
    decreases |steps|
  {
    if steps != [] {
      LockedStep(s, steps[0], id);
      InvStep(s, steps[0]);
      assert forall i :: 0 <= i < |steps[1..]| ==> steps[1..][i] == steps[i + 1];
      PublishedTargetNeverChanges(Apply(s, steps[0]), steps[1..], id);
    }
  }

  // ----- where the row can be left behind -----

  /** The row names a run that memory knows to be over. */
  predicate Stuck(s: System, id: string, run: string) {
    id in s.db.rows && s.db.rows[id].activeRun == Some(run) && run in s.memory.runs && !Live(s.memory.runs[run].status)
  }

  /** A reachable row that is analyzing names a live run, or a finished one, or one whose process is gone; and
      RecoverLost frees it exactly in the last case. */
  lemma RecoverFreesExactlyLostRuns(s: System, id: string)
    requires Reachable(s) && id in s.db.rows && s.db.rows[id].activeRun.Some?
    ensures var row := s.db.rows[id]; var run := row.activeRun.value;
      var s' := Apply(s, Recover(row.owner, id, run, false));
      && (run in s.memory.runs ==> Stuck(s, id, run) || (id in s.memory.active && s.memory.active[id] == run))
      && id in s'.db.rows && (s'.db.rows[id].activeRun.None? <==> run !in s.memory.runs)
  {
    ReachableInv(s);
    var run := s.db.rows[id].activeRun.value;
    assert RowSound(s, id);
    assert OriginSound(s, run);
    if run in s.memory.runs { assert RunSound(s, run); }
  }

  /** The section's restoring statement fails. */
  predicate RestoreFails(step: Step) {
    match step
    case Fail(_, _, fault) => fault
    case Finish(_, _, fault) => fault
    case Cancel(_, _, _, fault) => fault
    case Delete(_, _, restoreFault, _) => restoreFault
    case _ => false
  }

  lemma RestoredByDelete(s: System, step: Step, id: string, run: string)
    requires Inv(s) && Enabled(s, step) && !RestoreFails(step) && step.Delete?
    requires run in s.memory.runs && Live(s.memory.runs[run].status) && run in Apply(s, step).memory.runs
    requires !Live(Apply(s, step).memory.runs[run].status)
    ensures id in Apply(s, step).db.rows ==> Apply(s, step).db.rows[id].activeRun != Some(run)
  {
    assert RunSound(s, run);
    if id in s.db.rows { assert RowSound(s, id); }
    if step.id in s.memory.active { assert ActiveSound(s, step.id); }
    hide Inv, RowSound, DatasetSound, OriginSound;
  }

  /** Ending a live run with its row restored leaves no row naming it. */
  lemma RestoredNotStuck(s: System, step: Step, id: string, run: string)
    requires Inv(s) && Enabled(s, step) && !RestoreFails(step)
    requires step.Fail? || step.Finish? || step.Cancel? || step.Delete?
    requires run in s.memory.runs && Live(s.memory.runs[run].status) && run in Apply(s, step).memory.runs
    requires !Live(Apply(s, step).memory.runs[run].status)
    ensures id in Apply(s, step).db.rows ==> Apply(s, step).db.rows[id].activeRun != Some(run)
  {
    if step.Delete? {
      RestoredByDelete(s, step, id, run);
    } else if step.Cancel? {
      RestoredByCancel(s, step, id, run);
    } else {
      RestoredByWorker(s, step, id, run);
    }
  }

  lemma RestoredByCancel(s: System, step: Step, id: string, run: string)
    requires Inv(s) && Enabled(s, step) && !RestoreFails(step) && step.Cancel?
    requires run in s.memory.runs && Live(s.memory.runs[run].status) && run in Apply(s, step).memory.runs
    requires !Live(Apply(s, step).memory.runs[run].status)
    ensures id in Apply(s, step).db.rows ==> Apply(s, step).db.rows[id].activeRun != Some(run)
  {
    assert RunSound(s, run);
    if id in s.db.rows { assert RowSound(s, id); }
    hide Inv, RowSound, DatasetSound, OriginSound, ActiveSound;
  }

  lemma RestoredByWorker(s: System, step: Step, id: string, run: string)
    requires Inv(s) && Enabled(s, step) && !RestoreFails(step) && (step.Fail? || step.Finish?)
    requires run in s.memory.runs && Live(s.memory.runs[run].status) && run in Apply(s, step).memory.runs
    requires !Live(Apply(s, step).memory.runs[run].status)
    ensures id in Apply(s, step).db.rows ==> Apply(s, step).db.rows[id].activeRun != Some(run)
  {
    assert RunSound(s, run);
    if id in s.db.rows { assert RowSound(s, id); }
    hide Inv, RowSound, DatasetSound, OriginSound, ActiveSound;
  }

  lemma AddedRow(s: System, step: Step)
    requires Enabled(s, step) && step.Add?
    ensures step.id in Apply(s, step).db.rows && Apply(s, step).db.rows[step.id].activeRun == None
  {
  }

  /** Only Start makes a row name a run. */
  lemma NamingStep(s: System, step: Step, id: string, run: string)
    requires Enabled(s, step) && id in Apply(s, step).db.rows && Apply(s, step).db.rows[id].activeRun == Some(run)
    requires step.Start? ==> step.run != run
    ensures id in s.db.rows && s.db.rows[id].activeRun == Some(run)
  {
    hide Enabled, Apply;
    if step.Add? && step.id == id { AddedRow(s, step); } else { StepRow(s, step, id); }
  }

  /** Only a section that restores a row, or completes a publication, ends a live run. */
  lemma EndingStep(s: System, step: Step, run: string)
    requires Enabled(s, step) && run in Apply(s, step).memory.runs && !Live(Apply(s, step).memory.runs[run].status)
    ensures run in s.memory.runs && (step.Start? ==> step.run != run || Apply(s, step) == s)
    ensures Live(s.memory.runs[run].status) ==> step.Fail? || step.Finish? || step.Cancel? || step.Delete?
  {
    hide Restore, DeleteRow, PublishTransaction, Reconcile;
  }

  /** A row gets stuck only when a restoring statement fails. */
  lemma StuckOnlyByFailedRestore(s: System, step: Step, id: string, run: string)
    requires Inv(s) && Enabled(s, step) && !Stuck(s, id, run) && Stuck(Apply(s, step), id, run)
    ensures RestoreFails(step)
  {
    EndingStep(s, step, run);
    if Apply(s, step) != s { NamingStep(s, step, id, run); }
    if !RestoreFails(step) { RestoredNotStuck(s, step, id, run); }
  }

  lemma FailedRestoreSticks(s: System, step: Step, run: string)
    requires Inv(s) && Enabled(s, step) && RestoreFails(step) && run in s.memory.runs && Live(s.memory.runs[run].status)
    requires run in Apply(s, step).memory.runs && !Live(Apply(s, step).memory.runs[run].status)
    ensures Stuck(Apply(s, step), s.memory.runs[run].investigation, run) <==> !InWindow(s, run)
  {
    assert RunSound(s, run);
    if step.Delete? && step.id in s.memory.active { assert ActiveSound(s, step.id); }
    hide RowSound, DatasetSound, OriginSound;
  }

  /** A step that ends a live run leaves its row stuck iff the restoring statement it needed failed; a run whose
      Dataset is committed needs none. */
  lemma EndingSticksIff(s: System, step: Step, run: string)
    requires Reachable(s) && Enabled(s, step) && run in s.memory.runs && Live(s.memory.runs[run].status)
    requires run in Apply(s, step).memory.runs && !Live(Apply(s, step).memory.runs[run].status)
    ensures Stuck(Apply(s, step), s.memory.runs[run].investigation, run) <==> RestoreFails(step) && !InWindow(s, run)
  {
    ReachableInv(s);
    hide Inv;
    EndingStep(s, step, run);
    if RestoreFails(step) {
      FailedRestoreSticks(s, step, run);
    } else {
      RestoredNotStuck(s, step, s.memory.runs[run].investigation, run);
    }
  }

  /** It happens: the statement that should restore a cancelled run's row errs. */
  lemma StuckReachable() returns (s: System)
    ensures Reachable(s) && Stuck(s, "i", "r")
  {
    s := StartedRun();
    hide Reachable;
    ReachableStep(s, Cancel(1, "i", "r", true));
    s := Apply(s, Cancel(1, "i", "r", true));
  }

  lemma StuckDelete(s: System, step: Step, id: string, run: string)
    requires Inv(s) && Enabled(s, step) && Stuck(s, id, run) && step.Delete?
    ensures id in Apply(s, step).db.rows ==> Apply(s, step).db.rows[id].activeRun == Some(run)
  {
    assert RunSound(s, run);
    assert RowSound(s, id);
    if step.id in s.memory.active { assert ActiveSound(s, step.id) && RunSound(s, s.memory.active[step.id]); }
  }

  lemma StuckWorkerRow(s: System, step: Step, id: string, run: string)
    requires Inv(s) && Enabled(s, step) && Stuck(s, id, run) && (step.Fail? || step.Finish? || step.Commit?)
    ensures id in Apply(s, step).db.rows ==> Apply(s, step).db.rows[id].activeRun == Some(run)
  {
    assert RunSound(s, run) && RunSound(s, step.run);
    hide Inv, RowSound, DatasetSound, OriginSound, ActiveSound;
  }

  lemma StuckCallRow(s: System, step: Step, id: string, run: string)
    requires Inv(s) && Enabled(s, step) && Stuck(s, id, run) && (step.Start? || step.Cancel? || step.Recover?)
    ensures id in Apply(s, step).db.rows ==> Apply(s, step).db.rows[id].activeRun == Some(run)
    ensures step.Start? && step.id == id ==> Apply(s, step) == s
  {
    assert RowSound(s, id) && RunSound(s, run) && OriginSound(s, run);
    hide Inv, RowSound, DatasetSound, ActiveSound;
  }

  lemma StuckRow(s: System, step: Step, id: string, run: string)
    requires Inv(s) && Enabled(s, step) && Stuck(s, id, run) && !step.Restart? && !step.Delete?
    ensures id in Apply(s, step).db.rows ==> Apply(s, step).db.rows[id].activeRun == Some(run)
    ensures step.Start? && step.id == id ==> Apply(s, step) == s
  {
    if step.Start? || step.Cancel? || step.Recover? {
      StuckCallRow(s, step, id, run);
    } else if step.Fail? || step.Finish? || step.Commit? {
      StuckWorkerRow(s, step, id, run);
    } else {
      hide Inv;
    }
  }

  /** Nothing but a restart frees a stuck row: Start is refused, RecoverLost and a second Cancel do nothing, and
      every step leaves it naming the same finished run or removes it. */
  lemma StuckStep(s: System, step: Step, id: string, run: string)
    requires Inv(s) && Enabled(s, step) && Stuck(s, id, run) && !step.Restart?
    ensures id in Apply(s, step).db.rows ==> Stuck(Apply(s, step), id, run)
    ensures step.Start? && step.id == id ==> Apply(s, step) == s
  {
    TerminalStep(s, step, run);
    if step.Delete? { StuckDelete(s, step, id, run); } else { StuckRow(s, step, id, run); }
  }

  lemma {:induction false} StuckUntilRestart(s: System, steps: seq<Step>, id: string, run: string)
    requires Inv(s) && Runs(s, steps) && Stuck(s, id, run) && NeverReadded(steps, id)
    requires forall i :: 0 <= i < |steps| ==> !steps[i].Restart?
    ensures id in After(s, steps).db.rows ==> Stuck(After(s, steps), id, run)
    decreases |steps|
  {
    if steps != [] {
      StuckStep(s, steps[0], id, run);
      InvStep(s, steps[0]);
      var s1 := Apply(s, steps[0]);
      assert forall i :: 0 <= i < |steps[1..]| ==> steps[1..][i] == steps[i + 1];
      if id in s1.db.rows {
        StuckUntilRestart(s1, steps[1..], id, run);
      } else {
        AbsentStays(s1, steps[1..], id);
      }
    }
  }

  lemma {:induction false} AbsentStays(s: System, steps: seq<Step>, id: string)
    requires Inv(s) && Runs(s, steps) && id !in s.db.rows && NeverReadded(steps, id)
    ensures id !in After(s, steps).db.rows
    decreases |steps|
  {
    if id in After(s, steps).db.rows {
      PublishedTargetNeverChanges(s, steps, id);
    }
  }

  /** Start-up reconciliation that succeeds leaves no row analyzing and changes nothing else. */
  lemma RestartFreesEveryRow(s: System, id: string)
    requires Reachable(s) && id in s.db.rows
    ensures var row := Apply(s, Restart(false)).db.rows[id];
      && row.activeRun.None? && row.status == StableStatus(s.db.rows[id])
      && row == s.db.rows[id].(status := row.status, activeRun := None)
  {
    ReachableInv(s);
    assert RowSound(s, id);
  }

  /** The step that strands a run: its worker returns and leaves it queued or running. That is exactly a first check in
      execute, or a claim, of a live run whose context has ended. */
  lemma StrandedExactly(s: System, step: Step, run: string)
    requires Reachable(s) && Enabled(s, step) && run in s.workers && !s.workers[run].Exited?
    requires run in Apply(s, step).memory.runs && WorkerAt(Apply(s, step), run, Exited)
    ensures run in s.memory.runs
    ensures Live(Apply(s, step).memory.runs[run].status) <==>
            (step.Begin? || step.Claim?) && Live(s.memory.runs[run].status) && s.memory.runs[run].ended
  {
    ReachableInv(s);
    assert RunSound(s, run);
    hide Inv, RowSound, DatasetSound, OriginSound, ActiveSound, Restore, DeleteRow, PublishTransaction;
  }

  /** It happens: the deadline of an accepted run passes before its worker begins. */
  lemma StrandedReachable() returns (s: System)
    ensures Reachable(s) && WorkerAt(s, "r", Exited) && Live(s.memory.runs["r"].status)
  {
    s := StartedRun();
    hide Reachable;
    ReachableStep(s, Deadline("r"));
    s := Apply(s, Deadline("r"));
    ReachableStep(s, Begin("r"));
    s := Apply(s, Begin("r"));
  }

  /** One Investigation, and one run accepted on it. */
  lemma StartedRun() returns (s: System)
    ensures Reachable(s) && WorkerAt(s, "r", Launched) && s.memory.runs["r"] == NewRun(1, "i") && s.memory.active == map["i" := "r"]
    ensures "i" in s.db.rows && s.db.rows["i"].owner == 1 && s.db.rows["i"].activeRun == Some("r") && s.commits == map[]
  {
    InitialReachable();
    hide Reachable;
    ReachableStep(INITIAL, Add("i", 1, "t", Some("A")));
    s := Apply(INITIAL, Add("i", 1, "t", Some("A")));
    var start := Start(1, "i", Some("A"), "r", true, false, false);
    ReachableStep(s, start);
    s := Apply(s, start);
  }

  /** A run whose worker is gone is stranded only because its context ended, and stays live until its owner
      cancels it, the Investigation is deleted, or the process restarts. */
  lemma StrandedRun(s: System, step: Step, run: string)
    requires Reachable(s) && Enabled(s, step)
    requires WorkerAt(s, run, Exited) && Live(s.memory.runs[run].status)
    ensures s.memory.runs[run].ended
    ensures var r := s.memory.runs[run]; var s' := Apply(s, step);
      (run in s'.memory.runs && Live(s'.memory.runs[run].status)) <==>
      !step.Restart? && !(step.Cancel? && step.owner == r.owner && step.id == r.investigation && step.run == run) && !(step.Delete? && step.owner == r.owner && step.id == r.investigation)
  {
    ReachableInv(s);
    assert RunSound(s, run);
    assert !s.memory.runs[run].publishing;
    hide Apply, Inv, RunSound;
    if step.Delete? {
      StrandedDelete(s, step, run);
    } else if step.Cancel? {
      StrandedCancel(s, step, run);
    } else if step.Restart? {
      RestartForgets(s, step);
    } else {
      StrandedStays(s, step, run);
    }
  }

  lemma RestartForgets(s: System, step: Step)
    requires step.Restart?
    ensures Apply(s, step).memory.runs == map[]
  {
  }

  lemma StrandedStays(s: System, step: Step, run: string)
    requires Inv(s) && Enabled(s, step) && !step.Delete? && !step.Cancel? && !step.Restart?
    requires WorkerAt(s, run, Exited) && Live(s.memory.runs[run].status)
    ensures run in Apply(s, step).memory.runs && Live(Apply(s, step).memory.runs[run].status)
  {
    assert RunSound(s, run);
    if step.Finish? { assert RunSound(s, step.run); }
    hide Inv, RunSound, RowSound, DatasetSound, OriginSound, ActiveSound, Restore, PublishTransaction, Reconcile;
  }

  lemma StrandedCancel(s: System, step: Step, run: string)
    requires Inv(s) && step.Cancel? && run in s.memory.runs && Live(s.memory.runs[run].status) && !s.memory.runs[run].publishing
    ensures var r := s.memory.runs[run]; var s' := Apply(s, step);
      run in s'.memory.runs && (Live(s'.memory.runs[run].status) <==> !(step.owner == r.owner && step.id == r.investigation && step.run == run))
  {
    hide Inv, Restore;
  }

  lemma StrandedDelete(s: System, step: Step, run: string)
    requires Inv(s) && step.Delete? && run in s.memory.runs && Live(s.memory.runs[run].status) && !s.memory.runs[run].publishing
    ensures var r := s.memory.runs[run]; var s' := Apply(s, step);
      run in s'.memory.runs && (Live(s'.memory.runs[run].status) <==> !(step.owner == r.owner && step.id == r.investigation))
  {
    assert RunSound(s, run);
    if step.id in s.memory.active { assert ActiveSound(s, step.id); }
    hide Inv, RowSound, DatasetSound, OriginSound, Restore, DeleteRow;
  }
}
