/** What the audit log proves about a status in every interleaving: a complete path of table
    edges from draft, found in commit order among the policy's own rows. */
module Causality {
  import opened Wrappers
  import opened Calendar
  import opened Lifecycle
  import opened Policy
  import opened Database
  import opened Requests
  import opened Protocol
  import opened Safety
  import Events
  import Uuid

  /** Step k of a path is an audit row of the policy that starts where step k - 1 ended. */
  ghost predicate PathStep(audit: seq<AuditRow>, id: Uuid.Id, steps: seq<nat>, k: nat)
    requires k < |steps|
  {
    && steps[k] < |audit|
    && audit[steps[k]].policy == id
    && Edge(audit[steps[k]].from, audit[steps[k]].to)
    && (k == 0 ==> audit[steps[k]].from == Draft)
    && (k > 0 ==> steps[k - 1] < steps[k] && audit[steps[k]].from == audit[steps[k - 1]].to)
  }

  /** Positions in the log, in commit order, that lead from draft to the target. */
  ghost predicate IsPath(audit: seq<AuditRow>, id: Uuid.Id, steps: seq<nat>, target: Status) {
    && steps != []
    && (forall k: nat :: k < |steps| ==> PathStep(audit, id, steps, k))
    && PathStep(audit, id, steps, |steps| - 1)
    && audit[steps[|steps| - 1]].to == target
  }

  ghost predicate HasPath(audit: seq<AuditRow>, id: Uuid.Id, target: Status) {
    exists steps :: IsPath(audit, id, steps, target)
  }

  ghost predicate Justified(audit: seq<AuditRow>, id: Uuid.Id, status: Status) {
    status == Draft || status == Terminated || HasPath(audit, id, status)
  }

  lemma PathSurvives(audit: seq<AuditRow>, longer: seq<AuditRow>, id: Uuid.Id, status: Status)
    requires Justified(audit, id, status) && audit <= longer
    ensures Justified(longer, id, status)
  {
    if HasPath(audit, id, status) {
      var steps :| IsPath(audit, id, steps, status);
      forall k: nat | k < |steps|
        ensures PathStep(longer, id, steps, k)
      {
        assert PathStep(audit, id, steps, k);
        assert k > 0 ==> PathStep(audit, id, steps, k - 1);
      }
      assert PathStep(audit, id, steps, |steps| - 1);
      assert IsPath(longer, id, steps, status);
    }
  }

  lemma PathGrows(audit: seq<AuditRow>, row: AuditRow)
    requires Justified(audit, row.policy, row.from) && Edge(row.from, row.to)
    ensures HasPath(audit + [row], row.policy, row.to)
  {
    var longer, here: nat := audit + [row], |audit|;
    if row.from == Draft {
      assert PathStep(longer, row.policy, [here], 0);
      assert IsPath(longer, row.policy, [here], row.to);
    } else {
      var steps :| IsPath(audit, row.policy, steps, row.from);
      var extended := steps + [here];
      forall k: nat | k < |extended|
        ensures PathStep(longer, row.policy, extended, k)
      {
        assert PathStep(audit, row.policy, steps, if k < |steps| then k else k - 1);
        assert 0 < k < |steps| ==> PathStep(audit, row.policy, steps, k - 1);
      }
      assert IsPath(longer, row.policy, extended, row.to);
    }
  }

  ghost predicate WasActive(audit: seq<AuditRow>, id: Uuid.Id) {
    exists i :: 0 <= i < |audit| && audit[i].policy == id && audit[i].to == Active
  }

  lemma PathToActive(audit: seq<AuditRow>, id: Uuid.Id)
    requires HasPath(audit, id, Active)
    ensures WasActive(audit, id)
  {
  }

  /** The status an unfinished request works from is justified by the log as it is now. */
  ghost predicate CopyJustified(s: State, phase: Phase) {
    match phase
    case Writing(_, plan) => Justified(s.db.audit, plan.row.id, plan.row.status)
    case InTransaction(_, plan, _) => plan.StatusChange? && Justified(s.db.audit, plan.row.id, plan.from)
    case Attesting(policy) => WasActive(s.db.audit, policy)
    case Recording(policy, key) => WasActive(s.db.audit, policy) && key in s.uploads
    case _ => true
  }

  ghost predicate RowJustified(db: Db, id: Uuid.Id)
    requires id in db.policies
  {
    Justified(db.audit, id, db.policies[id].status)
  }

  ghost predicate AuditRowOk(db: Db, i: nat)
    requires i < |db.audit|
  {
    db.audit[i].policy in db.policies && Edge(db.audit[i].from, db.audit[i].to)
  }

  ghost predicate StoreJustified(db: Db) {
    && (forall id :: id in db.policies ==> RowJustified(db, id))
    && (forall i: nat :: i < |db.audit| ==> AuditRowOk(db, i))
  }

  ghost predicate DocumentOk(s: State, d: Document) {
    WasActive(s.db.audit, d.policy) && d.key in s.uploads
  }

  ghost predicate AllJustified(s: State) {
    && StoreJustified(s.db)
    && (forall r :: r in s.requests ==> CopyJustified(s, s.requests[r]))
    && (forall i :: 0 <= i < |s.documents| ==> DocumentOk(s, s.documents[i]))
  }

  lemma ActiveSurvives(audit: seq<AuditRow>, longer: seq<AuditRow>, id: Uuid.Id)
    requires WasActive(audit, id) && audit <= longer
    ensures WasActive(longer, id)
  {
  }

  /** Everything justified stays so when the store moves on, provided the store itself does. */
  lemma StoreMoves(s: State, db: Db)
    requires AllJustified(s) && s.db.audit <= db.audit && StoreJustified(db)
    ensures AllJustified(s.(db := db))
  {
    var after := s.(db := db);
    forall r | r in s.requests
      ensures CopyJustified(after, s.requests[r])
    {
      CopySurvives(s, after, s.requests[r]);
    }
    forall i | 0 <= i < |s.documents|
      ensures DocumentOk(after, s.documents[i])
    {
      ActiveSurvives(s.db.audit, db.audit, s.documents[i].policy);
    }
  }

  lemma CopySurvives(s: State, after: State, phase: Phase)
    requires CopyJustified(s, phase) && s.db.audit <= after.db.audit && s.uploads <= after.uploads
    ensures CopyJustified(after, phase)
  {
    match phase
    case Writing(_, plan) => PathSurvives(s.db.audit, after.db.audit, plan.row.id, plan.row.status);
    case InTransaction(_, plan, _) => PathSurvives(s.db.audit, after.db.audit, plan.row.id, plan.from);
    case Attesting(policy) => ActiveSurvives(s.db.audit, after.db.audit, policy);
    case Recording(policy, key) => ActiveSurvives(s.db.audit, after.db.audit, policy);
    case _ =>
  }

  lemma CreateJustified(db: Db, job: Job)
    requires StoreJustified(db) && job.CreateJob? && Perform(db, job).Success?
    ensures StoreJustified(Perform(db, job).value) && Perform(db, job).value.audit == db.audit
  {
    var after := Perform(db, job).value;
    forall id | id in after.policies
      ensures RowJustified(after, id)
    {
      assert id != job.id ==> RowJustified(db, id);
    }
    forall i: nat | i < |after.audit|
      ensures AuditRowOk(after, i)
    {
      assert AuditRowOk(db, i);
    }
  }

  lemma UpdateJustified(db: Db, row: Policy)
    requires StoreJustified(db) && row.id in db.policies && Update(db, row).Success?
    requires Justified(db.audit, row.id, row.status)
    ensures StoreJustified(Update(db, row).value) && Update(db, row).value.audit == db.audit
  {
    var after := Update(db, row).value;
    forall id | id in after.policies
      ensures RowJustified(after, id)
    {
      assert id != row.id ==> RowJustified(db, id);
    }
    forall i: nat | i < |after.audit|
      ensures AuditRowOk(after, i)
    {
      assert AuditRowOk(db, i);
    }
  }

  lemma TransitionJustified(db: Db, plan: Plan)
    requires StoreJustified(db) && plan.StatusChange? && plan.row.id in db.policies
    requires Justified(db.audit, plan.row.id, plan.from) && Edge(plan.from, plan.row.status)
    ensures var after := ExecuteAll(db, Statements(plan));
            StoreJustified(after) && db.audit <= after.audit
  {
    StatusChangeEffect(db, plan);
    var after := ExecuteAll(db, Statements(plan));
    var row := after.audit[|db.audit|];
    assert after.audit == db.audit + [row];
    PathGrows(db.audit, row);
    forall id | id in after.policies
      ensures RowJustified(after, id)
    {
      if id != plan.row.id {
        assert RowJustified(db, id);
        PathSurvives(db.audit, after.audit, id, db.policies[id].status);
      }
    }
    forall i: nat | i < |after.audit|
      ensures AuditRowOk(after, i)
    {
      assert i < |db.audit| ==> AuditRowOk(db, i);
    }
  }

  lemma DropJustified(s: State, r: nat)
    requires AllJustified(s)
    ensures AllJustified(Without(s, r))
  {
  }

  lemma PutJustified(s: State, r: nat, phase: Phase)
    requires AllJustified(s) && CopyJustified(s, phase)
    ensures AllJustified(With(s, r, phase))
  {
  }

  lemma ReadJustified(s: State, a: Action)
    requires WellFormed(s) && AllJustified(s) && a.Read?
    ensures AllJustified(NextRead(s, a))
  {
    if a.id in s.db.policies && Decide(a.command, a.actor, a.now, s.db.policies[a.id]).Success? {
      var plan := Decide(a.command, a.actor, a.now, s.db.policies[a.id]).value;
      var job := ChangeJob(a.id, a.command, a.actor, a.now);
      assert RowJustified(s.db, a.id);
      PutJustified(s, a.r, if plan.WholeRow? then Writing(job, plan) else InTransaction(job, plan, []));
    }
  }

  lemma CreateStepJustified(s: State, a: Action)
    requires AllJustified(s) && a.Create?
    ensures AllJustified(NextCreate(s, a))
  {
    var job := CreateJob(a.id, a.input, a.actor, a.now);
    if Perform(s.db, job).Success? {
      var after := Perform(s.db, job).value;
      CreateJustified(s.db, job);
      StoreMoves(s, after);
      var event := Events.BuildTransitionEvent("created", Build(a.id, a.input, a.now), a.actor, "");
      PutJustified(s.(db := after), a.r, Announcing(event, CreationOf(a.id)));
    }
  }

  lemma WriteRowJustified(s: State, r: nat, outcome: Outcome)
    requires WellFormed(s) && AllJustified(s)
    ensures AllJustified(NextWriteRow(s, r, outcome))
  {
    if r in s.requests && s.requests[r].Writing? {
      var row := s.requests[r].plan.row;
      assert RequestOk(s.db, s.requests[r]) && CopyJustified(s, s.requests[r]);
      DropJustified(s, r);
      if Update(s.db, row).Success? {
        UpdateJustified(s.db, row);
        StoreMoves(Without(s, r), Update(s.db, row).value);
      }
    }
  }

  lemma CommitJustified(s: State, r: nat, outcome: Outcome)
    requires WellFormed(s) && AllJustified(s)
    ensures AllJustified(NextCommit(s, r, outcome))
  {
    if ReadyToCommit(s, r) {
      var plan := s.requests[r].plan;
      assert RequestOk(s.db, s.requests[r]) && CopyJustified(s, s.requests[r]);
      WholeTransaction(s.requests[r]);
      var after := ExecuteAll(s.db, Statements(plan));
      TransitionJustified(s.db, plan);
      DropJustified(s, r);
      StoreMoves(s, after);
      StoreMoves(Without(s, r), after);
      var event := Events.BuildTransitionEvent(Events.ServiceEventType(plan.row.status), plan.row, plan.actor, plan.reason);
      PutJustified(s.(db := after), r, Announcing(event, AuditAt(|s.db.audit|)));
    }
  }

  lemma UploadsMove(s: State, key: string)
    requires AllJustified(s)
    ensures AllJustified(s.(uploads := s.uploads + {key}))
  {
  }

  lemma DocumentStepJustified(s: State, a: Action)
    requires WellFormed(s) && AllJustified(s) && (a.BeginAttestation? || a.Upload? || a.Record?)
    ensures AllJustified(Next(s, a))
  {
    if a.BeginAttestation? {
      if a.id in s.db.policies && s.db.policies[a.id].status == Active {
        assert RowJustified(s.db, a.id);
        PathToActive(s.db.audit, a.id);
        PutJustified(s, a.r, Attesting(a.id));
      } else if a.id in s.db.policies {
        assert RowOk(s.db.policies[a.id]);
      }
    } else if a.r in s.requests {
      assert CopyJustified(s, s.requests[a.r]);
      if a.Upload? && s.requests[a.r].Attesting? {
        var t := s.(uploads := s.uploads + {a.key});
        UploadsMove(s, a.key);
        PutJustified(t, a.r, Recording(s.requests[a.r].policy, a.key));
      } else if a.Record? {
        DropJustified(s, a.r);
        if s.requests[a.r].Recording? && a.outcome != NotApplied {
          var p := s.requests[a.r];
          DocumentAdded(Without(s, a.r), Document(p.policy, "attestation", p.key, Stored(a.now)));
        }
      }
    }
  }

  lemma DocumentAdded(s: State, d: Document)
    requires AllJustified(s) && DocumentOk(s, d)
    ensures AllJustified(s.(documents := s.documents + [d]))
  {
  }

  lemma EventStepJustified(s: State, a: Action)
    requires AllJustified(s) && (a.Stop? || a.BuildMessage? || a.Send? || a.RunStatement?)
    ensures AllJustified(Next(s, a))
  {
    DropJustified(s, a.r);
    if a.r in s.requests && !a.Stop? {
      var t := Next(s, a);
      assert CopyJustified(s, s.requests[a.r]);
      if a.r in t.requests {
        assert CopyJustified(s, t.requests[a.r]);
        PutJustified(s, a.r, t.requests[a.r]);
        SameFacts(With(s, a.r, t.requests[a.r]), t);
      } else {
        SameFacts(Without(s, a.r), t);
      }
    }
  }

  lemma SameFacts(s: State, t: State)
    requires AllJustified(s) && t == s.(stream := t.stream, built := t.built)
    ensures AllJustified(t)
  {
  }

  lemma StepJustified(s: State, a: Action)
    requires WellFormed(s) && AllJustified(s)
    ensures AllJustified(Next(s, a))
  {
    if a.Create? {
      CreateStepJustified(s, a);
    } else if a.Read? {
      ReadJustified(s, a);
    } else if a.WriteRow? {
      WriteRowJustified(s, a.r, a.outcome);
    } else if a.Commit? {
      CommitJustified(s, a.r, a.outcome);
    } else if a.BeginAttestation? || a.Upload? || a.Record? {
      DocumentStepJustified(s, a);
    } else {
      EventStepJustified(s, a);
    }
  }

  lemma {:induction false} RunJustified(actions: seq<Action>)
    ensures AllJustified(Run(actions))
  {
    if actions != [] {
      var init := actions[..|actions| - 1];
      RunWellFormed(init);
      RunJustified(init);
      StepJustified(Run(init), actions[|actions| - 1]);
    }
  }

  /** In every interleaving, stale write-backs included, a stored status other than draft and
      terminated has a full path of table edges behind it in the policy's own audit rows. */
  lemma StatusHasCausalPath(actions: seq<Action>, id: Uuid.Id)
    requires id in Run(actions).db.policies
    ensures var s := Run(actions);
            var status := s.db.policies[id].status;
            status == Draft || status == Terminated || HasPath(s.db.audit, id, status)
  {
    RunJustified(actions);
    assert RowJustified(Run(actions).db, id);
  }

  /** In every interleaving, each audit row is a table edge of a stored policy. */
  lemma AuditRowsAreEdges(actions: seq<Action>, i: nat)
    requires i < |Run(actions).db.audit|
    ensures var db := Run(actions).db; db.audit[i].policy in db.policies && Edge(db.audit[i].from, db.audit[i].to)
  {
    RunJustified(actions);
    assert AuditRowOk(Run(actions).db, i);
  }

  /** At the moment a document is recorded its policy already had an audit row into active and
      its file had already been uploaded. */
  lemma DocumentsFollowActivation(actions: seq<Action>, a: Action)
    requires |Run(actions + [a]).documents| > |Run(actions).documents|
    ensures var before, after := Run(actions), Run(actions + [a]);
            var d := after.documents[|before.documents|];
            && after.documents == before.documents + [d]
            && WasActive(before.db.audit, d.policy) && d.key in before.uploads
  {
    RunJustified(actions);
    RunAppend(actions, a);
    NewDocument(Run(actions), a);
  }

  lemma NewDocument(s: State, a: Action)
    requires AllJustified(s) && |Next(s, a).documents| > |s.documents|
    ensures var after := Next(s, a);
            var d := after.documents[|s.documents|];
            && after.documents == s.documents + [d]
            && WasActive(s.db.audit, d.policy) && d.key in s.uploads
  {
    OnlyRecordAddsDocuments(s, a);
    assert CopyJustified(s, s.requests[a.r]);
  }

  lemma OnlyRecordAddsDocuments(s: State, a: Action)
    ensures Next(s, a).documents == s.documents || (a.Record? && a.r in s.requests && s.requests[a.r].Recording?)
  {
  }

  /** A policy has exactly one audit row for each transition transaction that took effect on
      it, whatever the commit reported: both writes or neither. */
  lemma {:induction false} OneRowPerTransition(actions: seq<Action>, id: Uuid.Id)
    ensures |LogOf(Run(actions).db.audit, id)| == TransitionWrites(actions, id)
  {
    if actions != [] {
      var init, a := actions[..|actions| - 1], actions[|actions| - 1];
      var s := Run(init);
      OneRowPerTransition(init, id);
      RunWellFormed(init);
      if a.Commit? && ReadyToCommit(s, a.r) {
        var t := s.requests[a.r];
        assert RequestOk(s.db, t);
        WholeTransaction(t);
        StatusChangeEffect(s.db, t.plan);
        LogOfAppend(s.db.audit, AuditOf(t.plan).(occurredAt := Stored(t.plan.row.updatedAt)), id);
      } else {
        OtherStepsKeepLog(s, a);
      }
    }
  }

  lemma OtherStepsKeepLog(s: State, a: Action)
    requires !a.Commit? || !ReadyToCommit(s, a.r)
    ensures Next(s, a).db.audit == s.db.audit
  {
  }
}
