/** Every interleaving of the Run Manager's sections, the workers, edits made without the mutex, deadlines and
    process restarts, as one step system over memory and database. */
module RunSafety {
  import opened Wrappers
  import opened RunModel

  /** Where a run's goroutine is. `Committed` is publish's window between its transaction and its second section. */
  datatype Worker = Launched | Working | Claimed | Committed(published: Option<string>) | Exited

  /** What Start saw: the caller's snapshot of the target, and the row as the conditional update found it. */
  datatype Origin = Origin(owner: nat, investigation: string, target: Option<string>, before: Investigation)

  /** `origins` and `commits` are history: they record every run ever accepted and every Dataset ever committed. */
  datatype System = System(
    memory: Memory,
    db: Db,
    workers: map<string, Worker>,
    origins: map<string, Origin>,
    commits: map<string, string>)

  datatype Step =
    | Start(owner: nat, id: string, target: Option<string>, run: string, scopeValid: bool, fault: bool, lookupFault: bool)
    | Begin(run: string)
    | Progress(run: string, phase: string, collected: nat)
    | Fail(run: string, code: string, fault: bool)
    | Claim(run: string)
    | Commit(run: string, dataset: string, summary: Summary, rejected: bool)
    | Finish(run: string, collected: nat, fault: bool)
    | Deadline(run: string)
    | Cancel(owner: nat, id: string, run: string, fault: bool)
    | Delete(owner: nat, id: string, restoreFault: bool, fault: bool)
    | Recover(owner: nat, id: string, run: string, fault: bool)
    | Add(id: string, owner: nat, title: string, address: Option<string>)
    | Edit(owner: nat, id: string, newTitle: Option<string>, newAddress: Option<Option<string>>)
    | Restart(fault: bool)

  predicate WorkerAt(s: System, run: string, w: Worker) {
    run in s.workers && s.workers[run] == w && run in s.memory.runs && run in s.origins
  }

  /** Random ids are fresh. A worker moves only from its own position; a run with no target address never
      gets as far as its claim, because execute dereferences the address first. */
  predicate Enabled(s: System, step: Step) {
    match step
    case Start(_, _, _, run, _, _, _) => run != "" && run !in s.origins
    case Begin(run) => WorkerAt(s, run, Launched)
    case Progress(run, _, _) => WorkerAt(s, run, Working)
    case Fail(run, _, _) => WorkerAt(s, run, Working)
    case Claim(run) => WorkerAt(s, run, Working) && s.origins[run].target.Some?
    case Commit(run, _, _, _) => WorkerAt(s, run, Claimed)
    case Finish(run, _, _) => run in s.workers && s.workers[run].Committed? && run in s.memory.runs && run in s.origins
    case Deadline(run) => run in s.memory.runs
    case Add(id, _, _, _) => id !in s.db.rows
    case _ => true
  }

  function Apply(s: System, step: Step): System
    requires Enabled(s, step)
  {
    match step
    case Start(owner, id, target, run, scopeValid, fault, lookupFault) =>
      var (memory, db, outcome) := StartSection(s.memory, s.db, owner, id, run, scopeValid, fault, lookupFault);
      if outcome == Accepted && id in s.db.rows then
        s.(memory := memory, db := db, workers := s.workers[run := Launched],
           origins := s.origins[run := Origin(owner, id, target, s.db.rows[id])])
      else s.(memory := memory, db := db)
    case Begin(run) =>
      if s.memory.runs[run].ended then s.(workers := s.workers[run := Exited])
      else s.(memory := ProgressSection(s.memory, run, Running, "capturing_cutoff", 0), workers := s.workers[run := Working])
    case Progress(run, phase, collected) =>
      s.(memory := ProgressSection(s.memory, run, Running, phase, collected))
    case Fail(run, code, fault) =>
      var (memory, db) := FailSection(s.memory, s.db, s.origins[run].owner, s.origins[run].investigation, run, code, fault);
      s.(memory := memory, db := db, workers := s.workers[run := Exited])
    case Claim(run) =>
      var (memory, claimed) := ClaimSection(s.memory, run);
      s.(memory := memory, workers := s.workers[run := if claimed then Claimed else Exited])
    case Commit(run, dataset, summary, rejected) =>
      var tx := PublishTransaction(s.db, s.origins[run].owner, s.origins[run].investigation, run, dataset, summary);
      if rejected || tx.None? then s.(workers := s.workers[run := Committed(None)])
      else s.(db := tx.value, workers := s.workers[run := Committed(Some(dataset))], commits := s.commits[run := dataset])
    case Finish(run, collected, fault) =>
      var (memory, db) := FinishSection(s.memory, s.db, s.origins[run].owner, s.origins[run].investigation, run,
                                        s.workers[run].published, collected, fault);
      s.(memory := memory, db := db, workers := s.workers[run := Exited])
    case Deadline(run) =>
      s.(memory := s.memory.(runs := s.memory.runs[run := s.memory.runs[run].(ended := true)]))
    case Cancel(owner, id, run, fault) =>
      var (memory, db, _) := CancelSection(s.memory, s.db, owner, id, run, fault);
      s.(memory := memory, db := db)
    case Delete(owner, id, restoreFault, fault) =>
      var (memory, db, _) := DeleteSection(s.memory, s.db, owner, id, restoreFault, fault);
      s.(memory := memory, db := db)
    case Recover(owner, id, run, fault) =>
      s.(db := RecoverSection(s.memory, s.db, owner, id, run, fault))
    case Add(id, owner, title, address) =>
      s.(db := s.db.(rows := s.db.rows[id := NewInvestigation(owner, title, address)]))
    case Edit(owner, id, title, address) =>
      s.(db := RunModel.Edit(s.db, owner, id, title, address).0)
    case Restart(fault) =>
      s.(memory := Memory(map[], map[]), workers := map[], db := if fault then s.db else Reconcile(s.db))
  }

  const INITIAL := System(Memory(map[], map[]), Db(map[], map[]), map[], map[], map[])

  // ----- the invariant -----

  /** analyzing iff an active run is set, locked iff a current result exists, otherwise the stable status. */
  predicate RowConsistent(row: Investigation) {
    && (row.status == Analyzing <==> row.activeRun.Some?)
    && (row.targetLocked <==> row.currentResult.Some?)
    && (row.status != Analyzing ==> row.status == StableStatus(row))
  }

  predicate InWindow(s: System, run: string) {
    run in s.workers && s.workers[run].Committed? && s.workers[run].published.Some?
  }

  predicate Holding(s: System, run: string) {
    run in s.workers && (s.workers[run].Claimed? || s.workers[run].Committed?)
  }

  /** The row an accepted run leaves while it is named: the row Start found, with its title possibly edited since. */
  function Analysed(before: Investigation, run: string, title: string): Investigation {
    before.(status := Analyzing, activeRun := Some(run), title := title)
  }

  predicate ActiveSound(s: System, id: string)
    requires id in s.memory.active
  {
    var run := s.memory.active[id];
    run in s.memory.runs && s.memory.runs[run].investigation == id && Live(s.memory.runs[run].status)
  }

  predicate RunSound(s: System, run: string)
    requires run in s.memory.runs
  {
    var r := s.memory.runs[run];
    && run in s.workers && run in s.origins
    && s.origins[run].owner == r.owner && s.origins[run].investigation == r.investigation
    && (r.publishing <==> Holding(s, run))
    && (Live(r.status) <==> (r.investigation in s.memory.active && s.memory.active[r.investigation] == run))
    && (r.publishing ==> Live(r.status))
    && (run in s.commits <==> r.status == RunCompleted || InWindow(s, run))
    && (run in s.commits ==> r.status == RunCompleted ==> r.resultId == Some(s.commits[run]))
    && (InWindow(s, run) ==> s.workers[run].published == Some(s.commits[run]))
    && (Live(r.status) ==> OwnedRow(s.db, r.owner, r.investigation))
    && (Live(r.status) && !InWindow(s, run) ==> s.db.rows[r.investigation].activeRun == Some(run))
    && (InWindow(s, run) ==> s.db.rows[r.investigation].activeRun == None && s.db.rows[r.investigation].currentResult == Some(s.commits[run]))
    && (Live(r.status) && s.workers[run].Exited? ==> r.ended)
  }

  predicate RowSound(s: System, id: string)
    requires id in s.db.rows
  {
    var row := s.db.rows[id];
    && RowConsistent(row)
    && (row.activeRun.Some? ==>
         var run := row.activeRun.value;
         && run != "" && run in s.origins && run !in s.commits
         && s.origins[run].investigation == id
         && row == Analysed(s.origins[run].before, run, row.title))
    && (row.currentResult.Some? ==>
         && row.currentResult.value in s.db.datasets
         && s.db.datasets[row.currentResult.value].investigation == id
         && s.db.datasets[row.currentResult.value].run in s.origins
         && s.origins[s.db.datasets[row.currentResult.value].run].before.address == row.address)
  }

  predicate DatasetSound(s: System, dataset: string)
    requires dataset in s.db.datasets
  {
    var d := s.db.datasets[dataset];
    && d.run in s.commits && s.commits[d.run] == dataset
    && d.run in s.origins && s.origins[d.run].investigation == d.investigation && d.investigation in s.db.rows
  }

  predicate OriginSound(s: System, run: string)
    requires run in s.origins
  {
    var o := s.origins[run];
    o.before.owner == o.owner && RowConsistent(o.before) && o.before.activeRun.None?
  }

  ghost predicate Inv(s: System) {
    && (forall id {:trigger ActiveSound(s, id)} :: id in s.memory.active ==> ActiveSound(s, id))
    && (forall run {:trigger RunSound(s, run)} :: run in s.memory.runs ==> RunSound(s, run))
    && (forall id {:trigger RowSound(s, id)} :: id in s.db.rows ==> RowSound(s, id))
    && (forall d {:trigger DatasetSound(s, d)} :: d in s.db.datasets ==> DatasetSound(s, d))
    && (forall run {:trigger OriginSound(s, run)} :: run in s.origins ==> OriginSound(s, run))
    && s.commits.Keys <= s.origins.Keys
    && s.workers.Keys == s.memory.runs.Keys
  }

  // ----- every step keeps the invariant -----

  /** A run untouched by a step stays sound when its row is still its own and still names it. */
  lemma RunStill(s: System, s': System, run: string)
    requires run in s.memory.runs && RunSound(s, run)
    requires run in s'.memory.runs && s'.memory.runs[run] == s.memory.runs[run]
    requires run in s'.workers && s'.workers[run] == s.workers[run]
    requires run in s'.origins && s'.origins[run] == s.origins[run]
    requires run in s.commits <==> run in s'.commits
    requires run in s.commits ==> s'.commits[run] == s.commits[run]
    requires var id := s.memory.runs[run].investigation;
      && ((id in s.memory.active && s.memory.active[id] == run) <==> (id in s'.memory.active && s'.memory.active[id] == run))
      && (Live(s.memory.runs[run].status) ==>
            id in s'.db.rows && id in s.db.rows &&
            s'.db.rows[id].owner == s.db.rows[id].owner && s'.db.rows[id].activeRun == s.db.rows[id].activeRun &&
            s'.db.rows[id].currentResult == s.db.rows[id].currentResult)
    ensures RunSound(s', run)
  {
  }

  /** A row untouched by a step stays sound when the step commits nothing for the run it names. */
  lemma RowStill(s: System, s': System, id: string)
    requires id in s.db.rows && RowSound(s, id)
    requires id in s'.db.rows && s'.db.rows[id] == s.db.rows[id]
    requires forall run :: run in s.origins ==> run in s'.origins && s'.origins[run] == s.origins[run]
    requires forall d :: d in s.db.datasets && s.db.datasets[d].investigation == id ==> d in s'.db.datasets && s'.db.datasets[d] == s.db.datasets[d]
    requires s.db.rows[id].activeRun.Some? ==> s.db.rows[id].activeRun.value !in s'.commits
    ensures RowSound(s', id)
  {
  }

  predicate Startable(s: System, owner: nat, id: string, run: string) {
    run != "" && run !in s.origins && id !in s.memory.active && OwnedRow(s.db, owner, id) && NoActiveRun(s.db.rows[id])
  }

  function AfterStart(s: System, owner: nat, id: string, target: Option<string>, run: string): System
    requires Startable(s, owner, id, run)
  {
    s.(memory := Memory(s.memory.runs[run := NewRun(owner, id)], s.memory.active[id := run]),
       db := s.db.(rows := s.db.rows[id := s.db.rows[id].(status := Analyzing, activeRun := Some(run))]),
       workers := s.workers[run := Launched], origins := s.origins[run := Origin(owner, id, target, s.db.rows[id])])
  }

  lemma StartApplied(s: System, step: Step)
    requires Enabled(s, step) && step.Start?
    ensures Apply(s, step) == s ||
      (Startable(s, step.owner, step.id, step.run) && Apply(s, step) == AfterStart(s, step.owner, step.id, step.target, step.run))
  {
  }

  lemma NotYetRecorded(s: System, run: string)
    requires Inv(s) && run !in s.origins
    ensures run !in s.memory.runs
  {
    forall r | r in s.memory.runs ensures r in s.origins { assert RunSound(s, r); }
  }

  lemma StartRun(s: System, owner: nat, id: string, target: Option<string>, run: string, other: string)
    requires Inv(s) && Startable(s, owner, id, run) && (other in s.memory.runs || other == run)
    ensures RunSound(AfterStart(s, owner, id, target, run), other)
  {
    NotYetRecorded(s, run);
    if other == run {
      assert RowSound(s, id);
    } else {
      assert RunSound(s, other);
      hide Inv, RowSound, DatasetSound, OriginSound, ActiveSound;
      RunStill(s, AfterStart(s, owner, id, target, run), other);
    }
  }

  lemma StartRow(s: System, owner: nat, id: string, target: Option<string>, run: string, at: string)
    requires Inv(s) && Startable(s, owner, id, run) && at in s.db.rows
    ensures RowSound(AfterStart(s, owner, id, target, run), at)
  {
    assert RowSound(s, at);
    hide RunSound, ActiveSound, DatasetSound, OriginSound;
    if at != id { RowStill(s, AfterStart(s, owner, id, target, run), at); }
  }

  lemma StartRecords(s: System, owner: nat, id: string, target: Option<string>, run: string)
    requires Inv(s) && Startable(s, owner, id, run)
    ensures var s' := AfterStart(s, owner, id, target, run);
      && (forall i {:trigger ActiveSound(s', i)} :: i in s'.memory.active ==> ActiveSound(s', i))
      && (forall r {:trigger OriginSound(s', r)} :: r in s'.origins ==> OriginSound(s', r))
      && (forall d {:trigger DatasetSound(s', d)} :: d in s'.db.datasets ==> DatasetSound(s', d))
  {
    var s' := AfterStart(s, owner, id, target, run);
    NotYetRecorded(s, run);
    assert RowSound(s, id);
    hide RunSound;
    forall i | i in s'.memory.active ensures ActiveSound(s', i) {
      if i != id { assert ActiveSound(s, i); }
    }
    forall r | r in s'.origins ensures OriginSound(s', r) {
      if r != run { assert OriginSound(s, r); }
    }
    forall d | d in s'.db.datasets ensures DatasetSound(s', d) { assert DatasetSound(s, d); }
  }

  lemma StartKeeps(s: System, step: Step)
    requires Inv(s) && Enabled(s, step) && step.Start?
    ensures Inv(Apply(s, step))
  {
    StartApplied(s, step);
    hide Apply, Enabled, RunSound, RowSound, ActiveSound, OriginSound, DatasetSound;
    if Apply(s, step) != s {
      var s' := AfterStart(s, step.owner, step.id, step.target, step.run);
      StartRecords(s, step.owner, step.id, step.target, step.run);
      forall run | run in s'.memory.runs ensures RunSound(s', run) { StartRun(s, step.owner, step.id, step.target, step.run, run); }
      forall id | id in s'.db.rows ensures RowSound(s', id) { StartRow(s, step.owner, step.id, step.target, step.run, id); }
    }
  }

  /** What a step that leaves the database and the active runs alone keeps. */
  lemma RecordsStill(s: System, s': System)
    requires Inv(s) && s'.memory.active == s.memory.active && s'.db == s.db && s'.origins == s.origins && s'.commits == s.commits
    ensures forall id {:trigger RowSound(s', id)} :: id in s'.db.rows ==> RowSound(s', id)
    ensures forall d {:trigger DatasetSound(s', d)} :: d in s'.db.datasets ==> DatasetSound(s', d)
    ensures forall r {:trigger OriginSound(s', r)} :: r in s'.origins ==> OriginSound(s', r)
  {
    hide RunSound, ActiveSound;
    forall d | d in s'.db.datasets ensures DatasetSound(s', d) { assert DatasetSound(s, d); }
    forall r | r in s'.origins ensures OriginSound(s', r) { assert OriginSound(s, r); }
    hide DatasetSound, OriginSound;
    forall id | id in s'.db.rows ensures RowSound(s', id) {
      assert RowSound(s, id);
      RowStill(s, s', id);
    }
  }

  /** A step that rewrites one run's record or moves its worker, and neither ends it nor touches the database. */
  lemma OneRunKeeps(s: System, s': System, run: string)
    requires Inv(s) && run in s.memory.runs && run in s'.memory.runs && run in s'.workers
    requires s'.memory.runs == s.memory.runs[run := s'.memory.runs[run]] && s'.workers == s.workers[run := s'.workers[run]]
    requires s'.memory.active == s.memory.active && s'.db == s.db && s'.origins == s.origins && s'.commits == s.commits
    requires s'.memory.runs[run].investigation == s.memory.runs[run].investigation && RunSound(s', run)
    requires Live(s.memory.runs[run].status) ==> Live(s'.memory.runs[run].status)
    ensures Inv(s')
  {
    forall id | id in s'.memory.active ensures ActiveSound(s', id) { assert ActiveSound(s, id); }
    hide RowSound, DatasetSound, OriginSound, ActiveSound;
    RecordsStill(s, s');
    forall other | other in s'.memory.runs ensures RunSound(s', other) {
      if other != run {
        assert RunSound(s, other);
        RunStill(s, s', other);
      }
    }
  }

  /** A step that ends a live run, releases its Investigation, and rewrites at most that row. */
  lemma EndingKeeps(s: System, s': System, run: string)
    requires Inv(s) && run in s.memory.runs && Live(s.memory.runs[run].status) && run in s'.memory.runs && run in s'.workers
    requires s'.memory.runs == s.memory.runs[run := s'.memory.runs[run]] && s'.workers == s.workers[run := s'.workers[run]]
    requires s'.db.datasets == s.db.datasets && s'.origins == s.origins && s'.commits == s.commits
    requires var id := s.memory.runs[run].investigation;
      && s'.memory.active == s.memory.active - {id} && s'.memory.runs[run].investigation == id
      && id in s.db.rows && id in s'.db.rows && s'.db.rows == s.db.rows[id := s'.db.rows[id]] && RowSound(s', id)
    requires RunSound(s', run)
    ensures Inv(s')
  {
    var at := s.memory.runs[run].investigation;
    assert RunSound(s, run);
    forall id | id in s'.memory.active ensures ActiveSound(s', id) { assert ActiveSound(s, id); }
    forall id | id in s'.db.rows ensures RowSound(s', id) {
      if id != at {
        assert RowSound(s, id);
        RowStill(s, s', id);
      }
    }
    forall d | d in s'.db.datasets ensures DatasetSound(s', d) { assert DatasetSound(s, d); }
    forall other | other in s'.origins ensures OriginSound(s', other) { assert OriginSound(s, other); }
    hide RowSound, DatasetSound, OriginSound, ActiveSound;
    forall other | other in s'.memory.runs ensures RunSound(s', other) {
      if other != run {
        assert RunSound(s, other);
        OtherRunStill(s, s', run, other);
      }
    }
  }

  lemma OtherRunStill(s: System, s': System, run: string, other: string)
    requires run in s.memory.runs && RunSound(s, run) && Live(s.memory.runs[run].status)
    requires other in s.memory.runs && other != run && RunSound(s, other)
    requires var id := s.memory.runs[run].investigation;
      && s'.memory.active == s.memory.active - {id} && id in s'.db.rows && s'.db.rows == s.db.rows[id := s'.db.rows[id]]
    requires other in s'.memory.runs && s'.memory.runs[other] == s.memory.runs[other]
    requires other in s'.workers && s'.workers[other] == s.workers[other]
    requires s'.origins == s.origins && s'.commits == s.commits
    ensures RunSound(s', other)
  {
    RunStill(s, s', other);
  }

  lemma BeginKeeps(s: System, step: Step)
    requires Inv(s) && Enabled(s, step) && step.Begin?
    ensures Inv(Apply(s, step))
  {
    assert RunSound(s, step.run);
    hide RowSound, ActiveSound, DatasetSound, OriginSound, Inv;
    OneRunKeeps(s, Apply(s, step), step.run);
  }

  lemma ProgressKeeps(s: System, step: Step)
    requires Inv(s) && Enabled(s, step) && step.Progress?
    ensures Inv(Apply(s, step))
  {
    assert RunSound(s, step.run);
    hide RowSound, ActiveSound, DatasetSound, OriginSound, Inv;
    OneRunKeeps(s, Apply(s, step), step.run);
  }

  lemma ClaimKeeps(s: System, step: Step)
    requires Inv(s) && Enabled(s, step) && step.Claim?
    ensures Inv(Apply(s, step))
  {
    assert RunSound(s, step.run);
    hide RowSound, ActiveSound, DatasetSound, OriginSound, Inv;
    OneRunKeeps(s, Apply(s, step), step.run);
  }

  lemma DeadlineKeeps(s: System, step: Step)
    requires Inv(s) && Enabled(s, step) && step.Deadline?
    ensures Inv(Apply(s, step))
  {
    assert RunSound(s, step.run);
    hide RowSound, ActiveSound, DatasetSound, OriginSound, Inv;
    OneRunKeeps(s, Apply(s, step), step.run);
  }

  lemma FailKeeps(s: System, step: Step)
    requires Inv(s) && Enabled(s, step) && step.Fail?
    ensures Inv(Apply(s, step))
  {
    var s', r := Apply(s, step), s.memory.runs[step.run];
    assert RunSound(s, step.run);
    if Live(r.status) {
      assert RowSound(s, r.investigation);
      EndingKeeps(s, s', step.run);
    } else {
      OneRunKeeps(s, s', step.run);
    }
  }

  lemma CommitRefusedKeeps(s: System, run: string)
    requires Inv(s) && WorkerAt(s, run, Claimed)
    ensures Inv(s.(workers := s.workers[run := Committed(None)]))
  {
    assert RunSound(s, run);
    OneRunKeeps(s, s.(workers := s.workers[run := Committed(None)]), run);
  }

  function AfterCommit(s: System, run: string, at: string, dataset: string, row: Investigation): System {
    s.(db := Db(s.db.rows[at := row], s.db.datasets[dataset := Dataset(at, run)]),
       workers := s.workers[run := Committed(Some(dataset))], commits := s.commits[run := dataset])
  }

  predicate Acceptable(s: System, run: string, at: string, dataset: string, row: Investigation) {
    && WorkerAt(s, run, Claimed) && s.origins[run].investigation == at && dataset !in s.db.datasets
    && at in s.db.rows && row.owner == s.db.rows[at].owner && row.address == s.db.rows[at].address
    && row.status == Completed && row.activeRun == None && row.targetLocked && row.currentResult == Some(dataset)
  }

  lemma CommitAcceptedRuns(s: System, run: string, at: string, dataset: string, row: Investigation, other: string)
    requires Inv(s) && Acceptable(s, run, at, dataset, row) && other in s.memory.runs
    ensures RunSound(AfterCommit(s, run, at, dataset, row), other)
  {
    assert RunSound(s, run);
    if other != run {
      assert RunSound(s, other);
      RunStill(s, AfterCommit(s, run, at, dataset, row), other);
    }
  }

  lemma CommitAcceptedRow(s: System, run: string, at: string, dataset: string, row: Investigation, id: string)
    requires Inv(s) && Acceptable(s, run, at, dataset, row) && id in s.db.rows
    ensures RowSound(AfterCommit(s, run, at, dataset, row), id)
  {
    assert RunSound(s, run) && RowSound(s, at) && RowSound(s, id);
    hide Inv, RunSound, DatasetSound, OriginSound, ActiveSound;
    if id != at { RowStill(s, AfterCommit(s, run, at, dataset, row), id); }
  }

  lemma CommitAcceptedRecords(s: System, run: string, at: string, dataset: string, row: Investigation)
    requires Inv(s) && Acceptable(s, run, at, dataset, row)
    ensures var s' := AfterCommit(s, run, at, dataset, row);
      && (forall i {:trigger ActiveSound(s', i)} :: i in s'.memory.active ==> ActiveSound(s', i))
      && (forall r {:trigger OriginSound(s', r)} :: r in s'.origins ==> OriginSound(s', r))
      && (forall d {:trigger DatasetSound(s', d)} :: d in s'.db.datasets ==> DatasetSound(s', d))
  {
    var s' := AfterCommit(s, run, at, dataset, row);
    assert run !in s.commits by { assert RunSound(s, run); }
    hide RunSound, RowSound;
    forall id | id in s'.memory.active ensures ActiveSound(s', id) { assert ActiveSound(s, id); }
    forall d | d in s'.db.datasets ensures DatasetSound(s', d) {
      if d != dataset { assert DatasetSound(s, d); }
    }
    forall other | other in s'.origins ensures OriginSound(s', other) { assert OriginSound(s, other); }
  }

  lemma CommitAcceptedKeeps(s: System, run: string, at: string, dataset: string, row: Investigation)
    requires Inv(s) && Acceptable(s, run, at, dataset, row)
    ensures Inv(AfterCommit(s, run, at, dataset, row))
  {
    hide RunSound, RowSound, DatasetSound, OriginSound, ActiveSound;
    var s' := AfterCommit(s, run, at, dataset, row);
    CommitAcceptedRecords(s, run, at, dataset, row);
    forall other | other in s'.memory.runs ensures RunSound(s', other) { CommitAcceptedRuns(s, run, at, dataset, row, other); }
    forall id | id in s'.db.rows ensures RowSound(s', id) { CommitAcceptedRow(s, run, at, dataset, row, id); }
  }

  lemma CommitKeeps(s: System, step: Step)
    requires Inv(s) && Enabled(s, step) && step.Commit?
    ensures Inv(Apply(s, step))
  {
    var run, at := step.run, s.origins[step.run].investigation;
    var tx := PublishTransaction(s.db, s.origins[run].owner, at, run, step.dataset, step.summary);
    if step.rejected || tx.None? {
      CommitRefusedKeeps(s, run);
    } else {
      CommitAcceptedKeeps(s, run, at, step.dataset, tx.value.rows[at]);
    }
  }

  lemma FinishKeeps(s: System, step: Step)
    requires Inv(s) && Enabled(s, step) && step.Finish?
    ensures Inv(Apply(s, step))
  {
    var s', r := Apply(s, step), s.memory.runs[step.run];
    assert RunSound(s, step.run);
    assert RowSound(s, r.investigation);
    EndingKeeps(s, s', step.run);
  }

  lemma CancelKeeps(s: System, step: Step)
    requires Inv(s) && Enabled(s, step) && step.Cancel?
    ensures Inv(Apply(s, step))
  {
    var s' := Apply(s, step);
    if s' != s {
      var r := s.memory.runs[step.run];
      assert RunSound(s, step.run);
      assert RowSound(s, r.investigation);
      EndingKeeps(s, s', step.run);
    }
  }

  lemma DeleteTailKeeps(s: System, owner: nat, id: string)
    requires Inv(s) && id !in s.memory.active
    ensures Inv(s.(db := DeleteRow(s.db, owner, id).0))
  {
    var s' := s.(db := DeleteRow(s.db, owner, id).0);
    forall id | id in s'.memory.active ensures ActiveSound(s', id) { assert ActiveSound(s, id); }
    forall run | run in s'.memory.runs ensures RunSound(s', run) {
      assert RunSound(s, run);
      RunStill(s, s', run);
    }
    forall id | id in s'.db.rows ensures RowSound(s', id) {
      assert RowSound(s, id);
      RowStill(s, s', id);
    }
    forall d | d in s'.db.datasets ensures DatasetSound(s', d) { assert DatasetSound(s, d); }
    forall run | run in s'.origins ensures OriginSound(s', run) { assert OriginSound(s, run); }
  }

  /** Deleting is cancelling the owner's active run, then deleting the row. Another owner's row is out of reach. */
  lemma DeleteKeeps(s: System, step: Step)
    requires Inv(s) && Enabled(s, step) && step.Delete?
    ensures Inv(Apply(s, step))
  {
    if step.id !in s.memory.active {
      DeleteTailKeeps(s, step.owner, step.id);
    } else {
      var run := s.memory.active[step.id];
      assert ActiveSound(s, step.id) && RunSound(s, run);
      if !s.memory.runs[run].publishing && s.memory.runs[run].owner == step.owner {
        var cancel := Cancel(step.owner, step.id, run, step.restoreFault);
        CancelKeeps(s, cancel);
        if !step.restoreFault { DeleteTailKeeps(Apply(s, cancel), step.owner, step.id); }
      }
    }
  }

  /** A step that rewrites one row soundly, in no column that a live run of that row is about. */
  lemma OneRowKeeps(s: System, s': System, at: string, row: Investigation)
    requires Inv(s) && at in s.db.rows && s' == s.(db := s.db.(rows := s.db.rows[at := row])) && RowSound(s', at)
    requires row.owner == s.db.rows[at].owner && row.currentResult == s.db.rows[at].currentResult
    requires row.activeRun == s.db.rows[at].activeRun ||
      forall run :: run in s.memory.runs && s.memory.runs[run].investigation == at ==> !Live(s.memory.runs[run].status)
    ensures Inv(s')
  {
    forall id | id in s'.memory.active ensures ActiveSound(s', id) { assert ActiveSound(s, id); }
    forall d | d in s'.db.datasets ensures DatasetSound(s', d) { assert DatasetSound(s, d); }
    forall run | run in s'.origins ensures OriginSound(s', run) { assert OriginSound(s, run); }
    hide DatasetSound, OriginSound, ActiveSound;
    forall run | run in s'.memory.runs ensures RunSound(s', run) {
      assert RunSound(s, run);
      RunStill(s, s', run);
    }
    hide RunSound;
    forall id | id in s'.db.rows ensures RowSound(s', id) {
      assert RowSound(s, id);
      if id != at { RowStill(s, s', id); }
    }
  }

  lemma RecoverKeeps(s: System, step: Step)
    requires Inv(s) && Enabled(s, step) && step.Recover?
    ensures Inv(Apply(s, step))
  {
    if Apply(s, step) != s {
      forall run | run in s.memory.runs && s.memory.runs[run].investigation == step.id ensures !Live(s.memory.runs[run].status) {
        assert RunSound(s, run);
      }
      assert RowSound(s, step.id);
      hide RunSound, DatasetSound, OriginSound, ActiveSound, Inv;
      OneRowKeeps(s, Apply(s, step), step.id, Apply(s, step).db.rows[step.id]);
    }
  }

  lemma AddKeeps(s: System, step: Step)
    requires Inv(s) && Enabled(s, step) && step.Add?
    ensures Inv(Apply(s, step))
  {
    var s' := Apply(s, step);
    forall id | id in s'.memory.active ensures ActiveSound(s', id) {
      assert ActiveSound(s, id) && RunSound(s, s.memory.active[id]);
    }
    forall run | run in s'.memory.runs ensures RunSound(s', run) {
      assert RunSound(s, run);
      RunStill(s, s', run);
    }
    forall id | id in s'.db.rows ensures RowSound(s', id) {
      if id != step.id {
        assert RowSound(s, id);
        RowStill(s, s', id);
      }
    }
    forall d | d in s'.db.datasets ensures DatasetSound(s', d) { assert DatasetSound(s, d); }
    forall run | run in s'.origins ensures OriginSound(s', run) { assert OriginSound(s, run); }
  }

  lemma EditKeeps(s: System, step: Step)
    requires Inv(s) && Enabled(s, step) && step.Edit?
    ensures Inv(Apply(s, step))
  {
    if Apply(s, step) != s {
      assert RowSound(s, step.id);
      hide RunSound, DatasetSound, OriginSound, ActiveSound, Inv;
      OneRowKeeps(s, Apply(s, step), step.id, Apply(s, step).db.rows[step.id]);
    }
  }

  lemma RestartKeeps(s: System, step: Step)
    requires Inv(s) && Enabled(s, step) && step.Restart?
    ensures Inv(Apply(s, step))
  {
    var s' := Apply(s, step);
    forall id | id in s'.db.rows ensures RowSound(s', id) { assert RowSound(s, id); }
    forall d | d in s'.db.datasets ensures DatasetSound(s', d) { assert DatasetSound(s, d); }
    forall run | run in s'.origins ensures OriginSound(s', run) { assert OriginSound(s, run); }
  }

  lemma InvStep(s: System, step: Step)
    requires Inv(s) && Enabled(s, step)
    ensures Inv(Apply(s, step))
  {
    match step
    case Start(_, _, _, _, _, _, _) => StartKeeps(s, step);
    case Begin(_) => BeginKeeps(s, step);
    case Progress(_, _, _) => ProgressKeeps(s, step);
    case Fail(_, _, _) => FailKeeps(s, step);
    case Claim(_) => ClaimKeeps(s, step);
    case Commit(_, _, _, _) => CommitKeeps(s, step);
    case Finish(_, _, _) => FinishKeeps(s, step);
    case Deadline(_) => DeadlineKeeps(s, step);
    case Cancel(_, _, _, _) => CancelKeeps(s, step);
    case Delete(_, _, _, _) => DeleteKeeps(s, step);
    case Recover(_, _, _, _) => RecoverKeeps(s, step);
    case Add(_, _, _, _) => AddKeeps(s, step);
    case Edit(_, _, _, _) => EditKeeps(s, step);
    case Restart(_) => RestartKeeps(s, step);
  }
}
