/** The Run Manager as the program has it: run records shared by reference, two maps updated in place, one database
    handle. Each method is one locked section; what it does to memory and to the database is the section function
    of RunModel, whose behaviour over whole runs RunTheorems states. */
module RunManagement {
  import opened Wrappers
  import opened RunModel

  class Database {
    var rows: map<string, Investigation>
    var datasets: map<string, Dataset>

    function State(): Db
      reads this
    {
      Db(rows, datasets)
    }

    constructor ()
      ensures State() == Db(map[], map[])
    {
      rows, datasets := map[], map[];
    }

    method MarkAnalyzing(owner: nat, id: string, run: string, fault: bool) returns (affected: bool)
      modifies this
      ensures if fault then State() == old(State()) else (State(), affected) == StartUpdate(old(State()), owner, id, run)
    {
      affected := false;
      if !fault && id in rows && rows[id].owner == owner && NoActiveRun(rows[id]) {
        rows := rows[id := rows[id].(status := Analyzing, activeRun := Some(run))];
        affected := true;
      }
    }

    method RestoreStableStatus(owner: nat, id: string, run: string, fault: bool)
      modifies this
      ensures State() == RestoreUnless(fault, old(State()), owner, id, run)
    {
      if !fault && id in rows && rows[id].owner == owner && rows[id].activeRun == Some(run) {
        rows := rows[id := rows[id].(status := StableStatus(rows[id]), activeRun := None)];
      }
    }

    method Publish(owner: nat, id: string, run: string, dataset: string, summary: Summary, fault: bool) returns (published: bool)
      modifies this
      ensures var tx := PublishTransaction(old(State()), owner, id, run, dataset, summary);
        published == (!fault && tx.Some?) && State() == if published then tx.value else old(State())
    {
      if fault || dataset in datasets || (exists d :: d in datasets && datasets[d].run == run) {
        return false;
      }
      if !(id in rows && rows[id].owner == owner && rows[id].status == Analyzing && rows[id].activeRun == Some(run)) {
        return false;
      }
      datasets := datasets[dataset := Dataset(id, run)];
      rows := rows[id := rows[id].(status := Completed, activeRun := None, targetLocked := true,
                                   currentResult := Some(dataset), summary := Some(summary))];
      published := true;
    }

    method UpdateInvestigation(owner: nat, id: string, title: Option<string>, address: Option<Option<string>>)
      returns (outcome: EditOutcome)
      modifies this
      ensures (State(), outcome) == Edit(old(State()), owner, id, title, address)
    {
      if id !in rows || rows[id].owner != owner {
        return RowNotFound;
      }
      if address.Some? && !(rows[id].status == Pending && !rows[id].targetLocked && NoActiveRun(rows[id])) {
        return TargetImmutable;
      }
      var row := rows[id];
      if title.Some? {
        row := row.(title := title.value);
      }
      if address.Some? {
        row := row.(address := address.value);
      }
      outcome := Edited;
      if title.Some? || address.Some? {
        rows := rows[id := row];
      }
    }

    method DeleteInvestigation(owner: nat, id: string, fault: bool) returns (affected: bool)
      modifies this
      ensures if fault then State() == old(State()) else (State(), affected) == DeleteRow(old(State()), owner, id)
      ensures !fault ==> (affected <==> id in old(rows) && old(rows)[id].owner == owner)
      ensures !fault && affected ==> rows == old(rows) - {id} && forall d :: d in datasets <==> d in old(datasets) && old(datasets)[d].investigation != id
      ensures !fault && affected ==> forall d :: d in datasets ==> datasets[d] == old(datasets)[d]
      ensures !fault && !affected ==> rows == old(rows) && datasets == old(datasets)
    {
      affected := false;
      if !fault && id in rows && rows[id].owner == owner {
        rows := rows - {id};
        datasets := map d | d in datasets && datasets[d].investigation != id :: datasets[d];
        affected := true;
      }
    }

    method ReconcileLostAnalysisRuns(fault: bool)
      modifies this
      ensures State() == if fault then old(State()) else Reconcile(old(State()))
    {
      if !fault {
        rows := map id | id in rows :: Reconciled(rows[id]);
      }
    }
  }

  class ManagedRun {
    const owner: nat
    const investigation: string
    var status: RunStatus
    var phase: string
    var collected: nat
    var resultId: Option<string>
    var errorCode: Option<string>
    var ended: bool
    var publishing: bool

    function Snapshot(): Run
      reads this
    {
      Run(owner, investigation, status, phase, collected, resultId, errorCode, ended, publishing)
    }

    constructor (owner: nat, investigation: string)
      ensures Snapshot() == NewRun(owner, investigation)
    {
      this.owner, this.investigation := owner, investigation;
      status, phase, collected := Queued, "queued", 0;
      resultId, errorCode, ended, publishing := None, None, false, false;
    }

    /** cancel() and the terminal fields that every ending writes. */
    method End(status: RunStatus, phase: string)
      modifies this`ended, this`status, this`phase
      ensures Snapshot() == old(Snapshot()).(ended := true, status := status, phase := phase)
    {
      ended := true;
      this.status := status;
      this.phase := phase;
    }

    method Advance(status: RunStatus, phase: string, collected: nat)
      modifies this`status, this`phase, this`collected
      ensures Snapshot() == old(Snapshot()).(status := status, phase := phase,
                                             collected := if collected > old(this.collected) then collected else old(this.collected))
    {
      this.status := status;
      this.phase := phase;
      if collected > this.collected {
        this.collected := collected;
      }
    }
  }

  class RunManager {
    var runs: map<string, ManagedRun>
    var active: map<string, string>
    const db: Database

    /** Every run has a record of its own. */
    ghost predicate Valid()
      reads this
    {
      forall r, s :: r in runs && s in runs && r != s ==> runs[r] != runs[s]
    }

    function Mem(): Memory
      reads this, runs.Values
    {
      Memory(map r | r in runs :: runs[r].Snapshot(), active)
    }

    /** Writing one run's record changes that entry of the manager's memory and no other. */
    twostate lemma OneRunWritten(run: string)
      requires Valid() && runs == old(runs) && run in runs
      requires forall r :: r in runs && r != run ==> unchanged(runs[r])
      ensures Mem().runs == old(Mem().runs)[run := runs[run].Snapshot()]
    {
    }

    twostate lemma OneRunAdded(run: string)
      requires run !in old(runs) && run in runs && runs == old(runs)[run := runs[run]]
      requires forall r :: r in old(runs) ==> unchanged(old(runs)[r])
      ensures Mem().runs == old(Mem().runs)[run := runs[run].Snapshot()]
    {
    }

    constructor (db: Database)
      ensures Valid() && this.db == db && Mem() == Memory(map[], map[])
    {
      this.db := db;
      runs, active := map[], map[];
    }

    method Start(owner: nat, id: string, run: string, scopeValid: bool, fault: bool, lookupFault: bool)
      returns (outcome: StartOutcome)
      requires Valid() && run !in runs
      modifies this, db
      ensures Valid()
      ensures (Mem(), db.State(), outcome) == StartSection(old(Mem()), old(db.State()), owner, id, run, scopeValid, fault, lookupFault)
    {
      if !scopeValid {
        return InvalidScope;
      }
      if id in active {
        return AlreadyActive;
      }
      var affected := db.MarkAnalyzing(owner, id, run, fault);
      if fault {
        return StartError;
      }
      if !affected {
        outcome := if lookupFault then StartError else if OwnedRow(db.State(), owner, id) then AlreadyActive else NotFound;
        return;
      }
      var managed := new ManagedRun(owner, id);
      runs := runs[run := managed];
      active := active[id := run];
      outcome := Accepted;
      OneRunAdded(run);
    }

    method RecoverLost(owner: nat, id: string, run: string, fault: bool)
      requires Valid()
      modifies db
      ensures Valid() && Mem() == old(Mem())
      ensures db.State() == RecoverSection(old(Mem()), old(db.State()), owner, id, run, fault)
    {
      if run in runs && runs[run].owner == owner && runs[run].investigation == id {
        return;
      }
      db.RestoreStableStatus(owner, id, run, fault);
    }

    method CancelLocked(run: string, fault: bool)
      requires Valid() && run in runs
      modifies this`active, runs.Values, db
      ensures Valid() && runs == old(runs)
      ensures Mem() == RunModel.CancelLocked(old(Mem()), run)
      ensures db.State() == RestoreUnless(fault, old(db.State()), runs[run].owner, runs[run].investigation, run)
    {
      var managed := runs[run];
      db.RestoreStableStatus(managed.owner, managed.investigation, run, fault);
      managed.End(Cancelled, "cancelled");
      active := active - {managed.investigation};
      OneRunWritten(run);
    }

    method Cancel(owner: nat, id: string, run: string, fault: bool) returns (outcome: CancelOutcome)
      requires Valid()
      modifies this`active, runs.Values, db
      ensures Valid() && runs == old(runs)
      ensures (Mem(), db.State(), outcome) == CancelSection(old(Mem()), old(db.State()), owner, id, run, fault)
    {
      if run in runs && runs[run].publishing {
        return Waiting;
      }
      if run !in runs || runs[run].owner != owner || runs[run].investigation != id {
        return RunNotFound;
      }
      if runs[run].status != Queued && runs[run].status != Running {
        return AlreadyTerminal;
      }
      CancelLocked(run, fault);
      outcome := if fault then CancelError else CancelDone;
    }

    method DeleteInvestigation(owner: nat, id: string, restoreFault: bool, fault: bool) returns (outcome: DeleteOutcome)
      requires Valid()
      modifies this`active, runs.Values, db
      ensures Valid() && runs == old(runs)
      ensures (Mem(), db.State(), outcome) == DeleteSection(old(Mem()), old(db.State()), owner, id, restoreFault, fault)
      ensures outcome == Deleted ==> id in old(db.rows) && id !in db.rows && db.rows.Keys == old(db.rows.Keys) - {id}
      ensures outcome == Deleted ==> forall d :: d in db.datasets <==> d in old(db.datasets) && old(db.datasets)[d].investigation != id
      ensures outcome == DeleteNotFound ==> db.rows.Keys == old(db.rows.Keys) && !(id in old(db.rows) && old(db.rows)[id].owner == owner)
      ensures outcome in {DeleteWaiting, DeleteNotFound} ==> db.datasets == old(db.datasets)
    {
      if id in active {
        var run := active[id];
        if run in runs && runs[run].publishing {
          return DeleteWaiting;
        }
        if run in runs && runs[run].owner == owner {
          CancelLocked(run, restoreFault);
          if restoreFault {
            return DeleteError;
          }
        }
      }
      var affected := db.DeleteInvestigation(owner, id, fault);
      outcome := if fault then DeleteError else if affected then Deleted else DeleteNotFound;
    }

    method Progress(run: string, status: RunStatus, phase: string, collected: nat)
      requires Valid()
      modifies runs.Values
      ensures Valid() && Mem() == ProgressSection(old(Mem()), run, status, phase, collected)
    {
      if run in runs && (runs[run].status == Queued || runs[run].status == Running) {
        runs[run].Advance(status, phase, collected);
        OneRunWritten(run);
      }
    }

    method Fail(owner: nat, id: string, run: string, code: string, fault: bool)
      requires Valid()
      modifies this`active, runs.Values, db
      ensures Valid() && runs == old(runs)
      ensures (Mem(), db.State()) == FailSection(old(Mem()), old(db.State()), owner, id, run, code, fault)
    {
      if run !in runs || (runs[run].status != Queued && runs[run].status != Running) {
        return;
      }
      var managed := runs[run];
      db.RestoreStableStatus(owner, id, run, fault);
      managed.End(Failed, "failed");
      managed.errorCode := Some(code);
      active := active - {managed.investigation};
      OneRunWritten(run);
    }

    method PublishClaim(run: string) returns (claimed: bool)
      requires Valid()
      modifies runs.Values
      ensures Valid() && (Mem(), claimed) == ClaimSection(old(Mem()), run)
    {
      if run !in runs || runs[run].publishing || (runs[run].status != Queued && runs[run].status != Running) || runs[run].ended {
        return false;
      }
      runs[run].publishing := true;
      claimed := true;
      OneRunWritten(run);
    }

    method PublishFinish(owner: nat, id: string, run: string, published: Option<string>, collected: nat, fault: bool)
      requires Valid() && run in runs
      modifies this`active, runs.Values, db
      ensures Valid() && runs == old(runs)
      ensures (Mem(), db.State()) == FinishSection(old(Mem()), old(db.State()), owner, id, run, published, collected, fault)
    {
      var managed := runs[run];
      if published.None? {
        db.RestoreStableStatus(owner, id, run, fault);
        managed.End(Failed, "failed");
        managed.errorCode := Some("publication_failed");
        active := active - {managed.investigation};
      } else {
        managed.End(RunCompleted, "completed");
        managed.collected := collected;
        managed.resultId := published;
        active := active - {managed.investigation};
      }
      managed.publishing := false;
      OneRunWritten(run);
    }
  }
}
