/** What every interleaving keeps: row validity, unique numbers, fixed identities and
    reachable statuses, although whole rows are written back from stale copies. */
module Safety {
  import opened Wrappers
  import opened Calendar
  import opened Lifecycle
  import opened Policy
  import opened Database
  import opened Requests
  import opened Protocol
  import Events
  import Uuid

  // ---- rows and requests ------------------------------------------------------------------

  predicate ServiceStatus(s: Status) {
    s != Amended && s != Suspended
  }

  predicate RowOk(row: Policy) {
    && row.number != "" && row.holder != "" && row.product != ""
    && row.effective < row.expiry
    && ServiceStatus(row.status)
  }

  ghost predicate TableOk(policies: map<Uuid.Id, Policy>) {
    && (forall id :: id in policies ==> policies[id].id == id && RowOk(policies[id]))
    && (forall id, other :: id in policies && other in policies && policies[id].number == policies[other].number ==>
          id == other)
  }

  /** What an unfinished request still knows about its row, however old its copy is. */
  ghost predicate RequestOk(db: Db, phase: Phase) {
    match phase
    case Writing(job, plan) =>
      plan.WholeRow? && job.ChangeJob? && job.id == plan.row.id && plan.row.id in db.policies
      && plan.row.holder != "" && plan.row.product != "" && ServiceStatus(plan.row.status)
    case InTransaction(job, plan, executed) =>
      plan.StatusChange? && job.ChangeJob? && job.id == plan.row.id && plan.row.id in db.policies
      && Edge(plan.from, plan.row.status) && ServiceStatus(plan.row.status)
      && executed <= Statements(plan)
    case Attesting(policy) => policy in db.policies
    case Recording(policy, key) => policy in db.policies
    case _ => true
  }

  ghost predicate WellFormed(s: State) {
    && TableOk(s.db.policies)
    && forall r :: r in s.requests ==> RequestOk(s.db, s.requests[r])
  }

  lemma DecisionOk(db: Db, id: Uuid.Id, command: Command, actor: string, now: Nanos)
    requires TableOk(db.policies) && id in db.policies
    requires Decide(command, actor, now, db.policies[id]).Success?
    ensures var plan := Decide(command, actor, now, db.policies[id]).value;
            var job := ChangeJob(id, command, actor, now);
            && (plan.WholeRow? ==> RequestOk(db, Writing(job, plan)))
            && (plan.StatusChange? ==> RequestOk(db, InTransaction(job, plan, [])))
  {
  }

  lemma RequestMoves(s: State, r: nat, phase: Phase)
    requires WellFormed(s) && RequestOk(s.db, phase)
    ensures WellFormed(With(s, r, phase)) && WellFormed(Without(s, r))
  {
  }

  lemma StoreGrows(s: State, db: Db)
    requires WellFormed(s) && TableOk(db.policies) && Extends(s.db, db)
    ensures WellFormed(s.(db := db))
  {
  }

  lemma WholeTransaction(phase: Phase)
    requires phase.InTransaction? && phase.plan.StatusChange? && phase.executed <= Statements(phase.plan)
    requires !StatementLeft(phase)
    ensures phase.executed == Statements(phase.plan)
  {
  }

  lemma UpdateKeepsTable(db: Db, row: Policy)
    requires TableOk(db.policies) && row.id in db.policies && Update(db, row).Success?
    requires row.holder != "" && row.product != "" && ServiceStatus(row.status)
    ensures TableOk(Update(db, row).value.policies) && Extends(db, Update(db, row).value)
  {
  }

  lemma TransitionKeepsTable(db: Db, plan: Plan)
    requires TableOk(db.policies) && plan.StatusChange? && plan.row.id in db.policies && ServiceStatus(plan.row.status)
    ensures var after := ExecuteAll(db, Statements(plan)); TableOk(after.policies) && Extends(db, after)
  {
    StatusChangeEffect(db, plan);
  }

  lemma CreateKeepsTable(db: Db, job: Job)
    requires TableOk(db.policies) && job.CreateJob? && Perform(db, job).Success?
    ensures TableOk(Perform(db, job).value.policies) && Extends(db, Perform(db, job).value)
  {
  }

  lemma CreateKeeps(s: State, a: Action)
    requires WellFormed(s) && a.Create?
    ensures WellFormed(NextCreate(s, a)) && Extends(s.db, NextCreate(s, a).db)
  {
    var job := CreateJob(a.id, a.input, a.actor, a.now);
    if Perform(s.db, job).Success? {
      CreateKeepsTable(s.db, job);
      StoreGrows(s, Perform(s.db, job).value);
    }
  }

  lemma ReadKeeps(s: State, a: Action)
    requires WellFormed(s) && a.Read?
    ensures WellFormed(NextRead(s, a))
  {
    if a.id in s.db.policies && Decide(a.command, a.actor, a.now, s.db.policies[a.id]).Success? {
      DecisionOk(s.db, a.id, a.command, a.actor, a.now);
    }
  }

  lemma WriteRowKeeps(s: State, r: nat, outcome: Outcome)
    requires WellFormed(s)
    ensures WellFormed(NextWriteRow(s, r, outcome)) && Extends(s.db, NextWriteRow(s, r, outcome).db)
  {
    if r in s.requests && s.requests[r].Writing? {
      assert RequestOk(s.db, s.requests[r]);
      RequestMoves(s, r, s.requests[r]);
      if Update(s.db, s.requests[r].plan.row).Success? {
        UpdateKeepsTable(s.db, s.requests[r].plan.row);
        StoreGrows(Without(s, r), Update(s.db, s.requests[r].plan.row).value);
      }
    }
  }

  lemma CommitKeeps(s: State, r: nat, outcome: Outcome)
    requires WellFormed(s)
    ensures WellFormed(NextCommit(s, r, outcome)) && Extends(s.db, NextCommit(s, r, outcome).db)
  {
    if ReadyToCommit(s, r) {
      assert RequestOk(s.db, s.requests[r]);
      if outcome == NotApplied {
        RequestMoves(s, r, s.requests[r]);
      } else {
        WholeTransaction(s.requests[r]);
        TransitionKeepsTable(s.db, s.requests[r].plan);
        var t, u := s.(db := ExecuteAll(s.db, s.requests[r].executed)), NextCommit(s, r, outcome);
        StoreGrows(s, t.db);
        assert u == Without(t, r) || u == With(t, r, u.requests[r]);
      }
    }
  }

  lemma RunStatementKeeps(s: State, r: nat)
    requires WellFormed(s)
    ensures WellFormed(NextRunStatement(s, r))
  {
  }

  lemma BuildKeeps(s: State, r: nat, freshId: Uuid.Id)
    requires WellFormed(s)
    ensures WellFormed(NextBuildMessage(s, r, freshId))
  {
    if r in s.requests && s.requests[r].Announcing? {
      RequestMoves(s, r, Sending(Events.ToCloudEvent(s.requests[r].event, freshId), 0));
    }
  }

  lemma SendKeeps(s: State, r: nat, outcome: Outcome)
    requires WellFormed(s)
    ensures WellFormed(NextSend(s, r, outcome))
  {
  }

  /** Each step keeps the table valid, never removes a row, never changes an id, a policy
      number or a creation time, and only appends to the log. */
  lemma StepKeeps(s: State, a: Action)
    requires WellFormed(s)
    ensures WellFormed(Next(s, a)) && Extends(s.db, Next(s, a).db)
  {
    if a.Create? {
      CreateKeeps(s, a);
    } else if a.WriteRow? {
      WriteRowKeeps(s, a.r, a.outcome);
    } else if a.Commit? {
      CommitKeeps(s, a.r, a.outcome);
    } else {
      LocalStepKeeps(s, a);
    }
  }

  lemma LocalStepKeeps(s: State, a: Action)
    requires WellFormed(s) && !a.Create? && !a.WriteRow? && !a.Commit?
    ensures WellFormed(Next(s, a)) && Next(s, a).db == s.db
  {
    if a.Read? {
      ReadKeeps(s, a);
    } else if a.RunStatement? {
      RunStatementKeeps(s, a.r);
    } else if a.BuildMessage? {
      BuildKeeps(s, a.r, a.freshId);
    } else if a.Send? {
      SendKeeps(s, a.r, a.outcome);
    } else if a.r in s.requests {
      assert RequestOk(s.db, s.requests[a.r]);
      RequestMoves(s, a.r, s.requests[a.r]);
    }
  }

  lemma {:induction false} RunWellFormed(actions: seq<Action>)
    ensures WellFormed(Run(actions))
  {
    if actions != [] {
      RunWellFormed(actions[..|actions| - 1]);
      StepKeeps(Run(actions[..|actions| - 1]), actions[|actions| - 1]);
    }
  }

  /** From any moment of any run to any later one, rows keep their identity and the log is
      only appended to, although whole rows are written back from stale copies. */
  lemma {:induction false} IdentitiesFixed(actions: seq<Action>, more: seq<Action>)
    ensures Extends(Run(actions).db, Run(actions + more).db)
  {
    if more == [] {
      assert actions + more == actions;
    } else {
      var init := more[..|more| - 1];
      IdentitiesFixed(actions, init);
      RunWellFormed(actions + init);
      StepKeeps(Run(actions + init), more[|more| - 1]);
      assert (actions + more)[..|actions + more| - 1] == actions + init;
    }
  }

  /** In every interleaving the table is valid, policy numbers are unique, and no stored
      status is amended or suspended. */
  lemma TableAlwaysValid(actions: seq<Action>)
    ensures TableOk(Run(actions).db.policies)
  {
    RunWellFormed(actions);
  }
}
