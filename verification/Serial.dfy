/** Requests run one at a time: each policy's audit log is the exact chain of its status. */
module Serial {
  import opened Wrappers
  import opened Calendar
  import opened Lifecycle
  import opened Policy
  import opened Database
  import opened Requests
  import Uuid

  function Step(db: Db, job: Job): Db {
    match Perform(db, job)
    case Success(after) => after
    case Failure(_) => db
  }

  /** The store after the jobs, in order, from an empty store. */
  function Run(jobs: seq<Job>): Db {
    if jobs == [] then EMPTY else Step(Run(jobs[..|jobs| - 1]), jobs[|jobs| - 1])
  }

  /** Row i starts where the one before it ended, from draft on, and follows a table edge. */
  ghost predicate Linked(log: seq<AuditRow>, i: nat)
    requires i < |log|
  {
    log[i].from == (if i == 0 then Draft else log[i - 1].to) && Edge(log[i].from, log[i].to)
  }

  ghost predicate Chain(log: seq<AuditRow>) {
    forall i: nat :: i < |log| ==> Linked(log, i)
  }

  function EndOf(log: seq<AuditRow>): Status {
    if log == [] then Draft else log[|log| - 1].to
  }

  /** The log tells exactly how the status came about; only a cancelled draft has no rows. */
  ghost predicate ExactLog(log: seq<AuditRow>, status: Status) {
    Chain(log) && (EndOf(log) == status || (log == [] && status == Terminated))
  }

  ghost predicate ExactFor(db: Db, id: Uuid.Id)
    requires id in db.policies
  {
    db.policies[id].id == id && ExactLog(LogOf(db.audit, id), db.policies[id].status)
  }

  ghost predicate Exact(db: Db) {
    && (forall i :: 0 <= i < |db.audit| ==> db.audit[i].policy in db.policies)
    && (forall id :: id in db.policies ==> ExactFor(db, id))
  }

  lemma {:induction false} NoRowsNoLog(audit: seq<AuditRow>, id: Uuid.Id)
    requires forall i :: 0 <= i < |audit| ==> audit[i].policy != id
    ensures LogOf(audit, id) == []
  {
    if audit != [] {
      NoRowsNoLog(audit[..|audit| - 1], id);
    }
  }

  lemma ChainGrows(log: seq<AuditRow>, row: AuditRow)
    requires Chain(log)
    ensures Chain(log + [row]) <==> row.from == EndOf(log) && Edge(row.from, row.to)
  {
    var longer := log + [row];
    forall i: nat | i < |log|
      ensures Linked(longer, i)
    {
      assert Linked(log, i);
    }
    assert Linked(longer, |log|) <==> row.from == EndOf(log) && Edge(row.from, row.to);
  }

  lemma NothingLeadsToDraft(log: seq<AuditRow>)
    requires Chain(log)
    ensures log != [] ==> EndOf(log) != Draft
  {
    if log != [] {
      assert Linked(log, |log| - 1);
    }
  }

  lemma {:induction false} ExactRun(jobs: seq<Job>)
    ensures Exact(Run(jobs))
  {
    if jobs != [] {
      ExactRun(jobs[..|jobs| - 1]);
      ExactStep(Run(jobs[..|jobs| - 1]), jobs[|jobs| - 1]);
    }
  }

  lemma ExactStep(db: Db, job: Job)
    requires Exact(db)
    ensures Exact(Step(db, job))
  {
    if Perform(db, job).Success? {
      var after := Step(db, job);
      if job.CreateJob? {
        NoRowsNoLog(db.audit, job.id);
        forall id | id in after.policies
          ensures ExactFor(after, id)
        {
          assert id != job.id ==> ExactFor(db, id);
        }
      } else {
        assert ExactFor(db, job.id);
        var plan := Decide(job.command, job.actor, job.now, db.policies[job.id]).value;
        if plan.StatusChange? {
          ExactTransition(db, plan);
        } else {
          ExactRowWrite(db, job, plan.row);
        }
      }
    }
  }

  lemma ExactRowWrite(db: Db, job: Job, row: Policy)
    requires Exact(db) && job.ChangeJob? && job.id in db.policies && Perform(db, job).Success?
    requires Decide(job.command, job.actor, job.now, db.policies[job.id]) == Success(WholeRow(row))
    ensures Exact(Step(db, job))
  {
    var after := Step(db, job);
    assert ExactFor(db, job.id);
    forall id | id in after.policies
      ensures ExactFor(after, id)
    {
      assert ExactFor(db, id);
      var log := LogOf(db.audit, id);
      NothingLeadsToDraft(log);
    }
  }

  lemma ExactTransition(db: Db, plan: Plan)
    requires Exact(db) && plan.StatusChange? && plan.row.id in db.policies
    requires plan.from == db.policies[plan.row.id].status && Edge(plan.from, plan.row.status)
    ensures Exact(ExecuteAll(db, Statements(plan)))
  {
    StatusChangeEffect(db, plan);
    var after := ExecuteAll(db, Statements(plan));
    var row := after.audit[|db.audit|];
    assert after.audit == db.audit + [row];
    forall id | id in after.policies
      ensures ExactFor(after, id)
    {
      assert ExactFor(db, id);
      var log := LogOf(db.audit, id);
      LogOfAppend(db.audit, row, id);
      ChainGrows(log, row);
      if id != plan.row.id {
        assert LogOf(after.audit, id) == log;
      } else {
        assert LogOf(after.audit, id) == log + [row];
        assert Chain(log + [row]);
      }
    }
  }

  /** A successful request touches one row, stamps it with its own time, and adds at most one
      audit row, for that policy and of that time. */
  lemma WriteShape(db: Db, job: Job) returns (added: seq<AuditRow>)
    requires Exact(db) && Perform(db, job).Success?
    ensures var after := Step(db, job);
            && job.id in after.policies
            && after == Db(db.policies[job.id := after.policies[job.id]], db.audit + added)
            && after.policies[job.id].updatedAt == Stored(job.now)
            && |added| <= 1
            && (forall i :: 0 <= i < |added| ==>
                  added[i].policy == job.id && added[i].occurredAt == Stored(job.now) && added[i].to != Amended)
  {
    var after := Step(db, job);
    if job.CreateJob? {
      added := [];
    } else {
      assert ExactFor(db, job.id);
      var plan := Decide(job.command, job.actor, job.now, db.policies[job.id]).value;
      if plan.StatusChange? {
        StatusChangeEffect(db, plan);
        added := [AuditOf(plan).(occurredAt := Stored(job.now))];
      } else {
        added := [];
      }
    }
  }
}
