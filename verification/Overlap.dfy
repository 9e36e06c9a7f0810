/** When interleaving is harmless: requests on one policy that do not overlap are equivalent
    to running them one at a time, and the exact audit chain holds if and only if no write
    comes from an outdated status. */
module Overlap {
  import opened Wrappers
  import opened Calendar
  import opened Lifecycle
  import opened Policy
  import opened Database
  import opened Requests
  import opened Protocol
  import opened Safety
  import Serial
  import History
  import Uuid

  /** A request between its read and its write. */
  predicate Live(phase: Phase) {
    phase.Writing? || phase.InTransaction?
  }

  predicate LiveOn(s: State, id: Uuid.Id) {
    exists r :: r in s.requests && Live(s.requests[r]) && s.requests[r].job.id == id
  }

  /** The step reads a row for change only while no other request is between read and write on it. */
  predicate Isolated(s: State, a: Action) {
    a.Read? ==> !LiveOn(s, a.id)
  }

  ghost predicate NonOverlapping(actions: seq<Action>) {
    forall k :: 0 <= k < |actions| ==> Isolated(Run(actions[..k]), actions[k])
  }

  /** The request would decide the same from the row as it is now. */
  ghost predicate Current(db: Db, phase: Phase)
    requires Live(phase)
  {
    var job := phase.job;
    && job.ChangeJob? && job.id in db.policies && !LacksReason(job.command)
    && Decide(job.command, job.actor, job.now, db.policies[job.id]) == Success(phase.plan)
  }

  ghost predicate AllCurrent(s: State) {
    && (forall r :: r in s.requests && Live(s.requests[r]) ==> Current(s.db, s.requests[r]))
    && (forall q, r | q in s.requests && r in s.requests && Live(s.requests[q]) && Live(s.requests[r]) ::
          s.requests[q].job.id == s.requests[r].job.id ==> q == r)
  }

  lemma WriteIsSerial(s: State, a: Action)
    requires WellFormed(s) && AllCurrent(s) && Applies(s, a) != []
    ensures |Applies(s, a)| == 1 && Perform(s.db, Applies(s, a)[0]) == Success(Next(s, a).db)
  {
    if !a.Create? {
      assert RequestOk(s.db, s.requests[a.r]) && Current(s.db, s.requests[a.r]);
      if a.Commit? {
        WholeTransaction(s.requests[a.r]);
      }
    }
  }

  lemma QuietStepKeepsStore(s: State, a: Action)
    requires Applies(s, a) == []
    ensures Next(s, a).db == s.db
  {
  }

  /** A write touches no row but its own request's. */
  lemma OtherRowsKept(s: State, a: Action, id: Uuid.Id)
    requires WellFormed(s) && id in s.db.policies
    requires Applies(s, a) != [] ==> Applies(s, a)[0].id != id
    ensures id in Next(s, a).db.policies && Next(s, a).db.policies[id] == s.db.policies[id]
  {
    if Applies(s, a) == [] {
      QuietStepKeepsStore(s, a);
    } else if !a.Create? {
      assert RequestOk(s.db, s.requests[a.r]);
      if a.Commit? {
        WholeTransaction(s.requests[a.r]);
        StatusChangeEffect(s.db, s.requests[a.r].plan);
      }
    }
  }

  /** A live request after a step was live before it, at the same point of the same plan, or
      has just read the row; the request that wrote is gone. */
  lemma LiveBefore(s: State, a: Action, r: nat)
    requires r in Next(s, a).requests && Live(Next(s, a).requests[r])
    ensures var now := Next(s, a).requests[r];
            || (r in s.requests && Live(s.requests[r]) && s.requests[r].job == now.job && s.requests[r].plan == now.plan
                && (a.r == r ==> Applies(s, a) == []))
            || (a.Read? && a.r == r && now.job.id == a.id && Current(s.db, now))
  {
    if a.Read? {
      LiveAfterRead(s, a, r);
    } else if a.Create? {
      LiveAfterCreate(s, a, r);
    } else if a.Commit? {
      LiveAfterCommit(s, a.r, a.outcome, r);
    }
  }

  lemma LiveAfterCreate(s: State, a: Action, r: nat)
    requires a.Create? && r in NextCreate(s, a).requests && Live(NextCreate(s, a).requests[r])
    ensures r in s.requests && s.requests[r] == NextCreate(s, a).requests[r]
    ensures a.r == r ==> Applies(s, a) == []
  {
  }

  lemma LiveAfterCommit(s: State, q: nat, outcome: Outcome, r: nat)
    requires r in NextCommit(s, q, outcome).requests && Live(NextCommit(s, q, outcome).requests[r])
    ensures r in s.requests && s.requests[r] == NextCommit(s, q, outcome).requests[r]
    ensures q == r ==> !ReadyToCommit(s, q)
  {
  }

  lemma LiveAfterRead(s: State, a: Action, r: nat)
    requires a.Read? && r in NextRead(s, a).requests && Live(NextRead(s, a).requests[r])
    ensures var now := NextRead(s, a).requests[r];
            || (r in s.requests && s.requests[r] == now)
            || (a.r == r && now.job.id == a.id && Current(s.db, now))
  {
  }

  lemma StepStaysCurrent(s: State, a: Action)
    requires WellFormed(s) && AllCurrent(s) && Isolated(s, a)
    ensures AllCurrent(Next(s, a))
  {
    var t := Next(s, a);
    forall r | r in t.requests && Live(t.requests[r])
      ensures Current(t.db, t.requests[r])
    {
      LiveBefore(s, a, r);
      StaysCurrent(s, a, r);
    }
    forall q, r | q in t.requests && r in t.requests && Live(t.requests[q]) && Live(t.requests[r])
                  && t.requests[q].job.id == t.requests[r].job.id
      ensures q == r
    {
      LiveBefore(s, a, q);
      LiveBefore(s, a, r);
    }
  }

  lemma StaysCurrent(s: State, a: Action, r: nat)
    requires WellFormed(s) && AllCurrent(s) && r in Next(s, a).requests && Live(Next(s, a).requests[r])
    ensures Current(Next(s, a).db, Next(s, a).requests[r])
  {
    var now := Next(s, a).requests[r];
    LiveBefore(s, a, r);
    if a.Read? {
      QuietStepKeepsStore(s, a);
    } else {
      assert Current(s.db, s.requests[r]);
      if Applies(s, a) != [] {
        WriteIsSerial(s, a);
        if a.Create? {
          assert Applies(s, a)[0].id !in s.db.policies;
        } else {
          assert s.requests[a.r].job.id != s.requests[r].job.id;
        }
      }
      OtherRowsKept(s, a, now.job.id);
    }
  }

  lemma PrefixNonOverlapping(actions: seq<Action>)
    requires NonOverlapping(actions) && actions != []
    ensures NonOverlapping(actions[..|actions| - 1])
    ensures Isolated(Run(actions[..|actions| - 1]), actions[|actions| - 1])
  {
    var init := actions[..|actions| - 1];
    forall k | 0 <= k < |init|
      ensures Isolated(Run(init[..k]), init[k])
    {
      assert init[..k] == actions[..k];
    }
  }

  /** An interleaved run in which requests on the same policy never overlap leaves exactly the
      store that the same requests leave when run one at a time in commit order. */
  lemma {:induction false} NonOverlappingIsSerial(actions: seq<Action>)
    requires NonOverlapping(actions)
    ensures Run(actions).db == Serial.Run(Committed(actions))
    ensures AllCurrent(Run(actions))
  {
    if actions != [] {
      var init, a := actions[..|actions| - 1], actions[|actions| - 1];
      PrefixNonOverlapping(actions);
      NonOverlappingIsSerial(init);
      RunWellFormed(init);
      StepStaysCurrent(Run(init), a);
      SerialStep(Run(init), a, Committed(init));
    }
  }

  lemma SerialStep(s: State, a: Action, jobs: seq<Job>)
    requires WellFormed(s) && AllCurrent(s) && s.db == Serial.Run(jobs)
    ensures Next(s, a).db == Serial.Run(jobs + Applies(s, a))
  {
    if Applies(s, a) == [] {
      QuietStepKeepsStore(s, a);
      assert jobs + Applies(s, a) == jobs;
    } else {
      WriteIsSerial(s, a);
      var longer := jobs + Applies(s, a);
      assert longer[..|longer| - 1] == jobs;
    }
  }

  /** Without overlap, each policy's audit log is the exact chain of its status. */
  lemma NonOverlappingIsExact(actions: seq<Action>, id: Uuid.Id)
    requires NonOverlapping(actions) && id in Run(actions).db.policies
    ensures var db := Run(actions).db;
            Serial.ExactLog(LogOf(db.audit, id), db.policies[id].status)
    ensures |LogOf(Run(actions).db.audit, id)| <= 3
  {
    NonOverlappingIsSerial(actions);
    Serial.ExactRun(Committed(actions));
    assert Serial.ExactFor(Run(actions).db, id);
    History.AtMostThreeRows(Committed(actions), id);
  }

  /** Without overlap and with a ticking clock, the history of a policy reads back as its
      transitions in commit order, each row starting where the one before it ended. */
  lemma NonOverlappingHistory(actions: seq<Action>, id: Uuid.Id, rows: seq<AuditRow>)
    requires NonOverlapping(actions) && History.Timely(Committed(actions)) && id in Run(actions).db.policies
    requires History.ByTime(rows, LogOf(Run(actions).db.audit, id))
    ensures rows == LogOf(Run(actions).db.audit, id) && Serial.Chain(rows)
    ensures rows != [] ==> rows[|rows| - 1].occurredAt <= Run(actions).db.policies[id].updatedAt
  {
    NonOverlappingIsSerial(actions);
    History.HistoryInCommitOrder(Committed(actions), id, rows);
  }

  // ---- the exact condition ----------------------------------------------------------------

  /** The write a step applies comes from the status in which the policy's log ends; a row may
      also be ended, or kept ended, while the log is still empty. */
  ghost predicate UpToDate(s: State, a: Action) {
    if Applies(s, a) == [] || a.Create? then true
    else
      var plan := s.requests[a.r].plan;
      var log := LogOf(s.db.audit, plan.row.id);
      if plan.StatusChange? then plan.from == Serial.EndOf(log)
      else plan.row.status == Serial.EndOf(log) || (plan.row.status == Terminated && log == [])
  }

  lemma ExactAfterRowWrite(db: Db, row: Policy)
    requires Serial.Exact(db) && row.id in db.policies && Update(db, row).Success?
    ensures var log := LogOf(db.audit, row.id);
            Serial.Exact(Update(db, row).value) <==>
            row.status == Serial.EndOf(log) || (row.status == Terminated && log == [])
  {
    var after := Update(db, row).value;
    var log := LogOf(db.audit, row.id);
    assert Serial.ExactFor(db, row.id);
    if row.status == Serial.EndOf(log) || (row.status == Terminated && log == []) {
      forall id | id in after.policies
        ensures Serial.ExactFor(after, id)
      {
        assert Serial.ExactFor(db, id);
      }
    } else {
      assert !Serial.ExactFor(after, row.id);
    }
  }

  lemma ExactAfterTransition(db: Db, plan: Plan)
    requires Serial.Exact(db) && plan.StatusChange? && plan.row.id in db.policies && Edge(plan.from, plan.row.status)
    ensures Serial.Exact(ExecuteAll(db, Statements(plan))) <==>
            plan.from == Serial.EndOf(LogOf(db.audit, plan.row.id))
  {
    var after := ExecuteAll(db, Statements(plan));
    StatusChangeEffect(db, plan);
    var row := after.audit[|db.audit|];
    assert after.audit == db.audit + [row];
    var log := LogOf(db.audit, plan.row.id);
    assert Serial.ExactFor(db, plan.row.id);
    LogOfAppend(db.audit, row, plan.row.id);
    Serial.ChainGrows(log, row);
    if plan.from == Serial.EndOf(log) {
      forall id | id in after.policies
        ensures Serial.ExactFor(after, id)
      {
        ExactRowAfterTransition(db, plan, id);
      }
    } else {
      assert !Serial.ExactFor(after, plan.row.id);
    }
  }

  lemma ExactRowAfterTransition(db: Db, plan: Plan, id: Uuid.Id)
    requires Serial.Exact(db) && plan.StatusChange? && plan.row.id in db.policies && Edge(plan.from, plan.row.status)
    requires plan.from == Serial.EndOf(LogOf(db.audit, plan.row.id)) && id in db.policies
    ensures id in ExecuteAll(db, Statements(plan)).policies && Serial.ExactFor(ExecuteAll(db, Statements(plan)), id)
  {
    var after := ExecuteAll(db, Statements(plan));
    StatusChangeEffect(db, plan);
    var row := after.audit[|db.audit|];
    assert after.audit == db.audit + [row];
    var log := LogOf(db.audit, id);
    assert Serial.ExactFor(db, id);
    LogOfAppend(db.audit, row, id);
    Serial.ChainGrows(log, row);
    if id != plan.row.id {
      assert LogOf(after.audit, id) == log;
    } else {
      assert LogOf(after.audit, id) == log + [row];
    }
  }

  lemma ExactStepIff(s: State, a: Action)
    requires WellFormed(s) && Serial.Exact(s.db)
    ensures Serial.Exact(Next(s, a).db) <==> UpToDate(s, a)
  {
    if Applies(s, a) == [] {
      QuietStepKeepsStore(s, a);
    } else if a.Create? {
      Serial.ExactStep(s.db, CreateJob(a.id, a.input, a.actor, a.now));
    } else {
      assert RequestOk(s.db, s.requests[a.r]);
      if a.Commit? {
        WholeTransaction(s.requests[a.r]);
        ExactAfterTransition(s.db, s.requests[a.r].plan);
      } else {
        ExactAfterRowWrite(s.db, s.requests[a.r].plan.row);
      }
    }
  }

  ghost predicate ExactAt(actions: seq<Action>, k: nat)
    requires k <= |actions|
  {
    Serial.Exact(Run(actions[..k]).db)
  }

  ghost predicate UpToDateAt(actions: seq<Action>, k: nat)
    requires k < |actions|
  {
    UpToDate(Run(actions[..k]), actions[k])
  }

  lemma SamePast(init: seq<Action>, a: Action, k: nat)
    requires k <= |init|
    ensures ExactAt(init + [a], k) == ExactAt(init, k)
    ensures k < |init| ==> UpToDateAt(init + [a], k) == UpToDateAt(init, k)
  {
    assert (init + [a])[..k] == init[..k];
  }

  lemma NowIff(init: seq<Action>, a: Action)
    requires ExactAt(init, |init|)
    ensures ExactAt(init + [a], |init| + 1) <==> UpToDateAt(init + [a], |init|)
  {
    var actions := init + [a];
    assert actions[..|init|] == init == init[..|init|] && actions[..|init| + 1] == actions;
    RunWellFormed(init);
    RunAppend(init, a);
    ExactStepIff(Run(init), a);
  }

  ghost predicate AlwaysExact(actions: seq<Action>) {
    forall k: nat :: k <= |actions| ==> ExactAt(actions, k)
  }

  ghost predicate AlwaysUpToDate(actions: seq<Action>) {
    forall k: nat :: k < |actions| ==> UpToDateAt(actions, k)
  }

  lemma AlwaysSplits(init: seq<Action>, a: Action)
    ensures AlwaysExact(init + [a]) <==> AlwaysExact(init) && ExactAt(init + [a], |init| + 1)
    ensures AlwaysUpToDate(init + [a]) <==> AlwaysUpToDate(init) && UpToDateAt(init + [a], |init|)
  {
    forall k: nat | k <= |init|
      ensures ExactAt(init + [a], k) == ExactAt(init, k)
      ensures k < |init| ==> UpToDateAt(init + [a], k) == UpToDateAt(init, k)
    {
      SamePast(init, a, k);
    }
  }

  /** In any interleaving, every policy's log is its exact chain at every moment if and only
      if every applied write comes from the status in which the policy's log then ends. */
  lemma {:induction false} ExactIffUpToDate(actions: seq<Action>)
    ensures AlwaysExact(actions) <==> AlwaysUpToDate(actions)
  {
    if actions == [] {
      assert ExactAt(actions, 0);
    } else {
      var init, a := actions[..|actions| - 1], actions[|actions| - 1];
      assert actions == init + [a];
      ExactIffUpToDate(init);
      AlwaysSplits(init, a);
      if AlwaysExact(init) {
        assert ExactAt(init, |init|);
        NowIff(init, a);
      }
    }
  }

  // ---- overlapping requests do break the chain --------------------------------------------

  /** A transaction that has read its row goes through, its success going unreported. */
  function Transact(s: State, r: nat): State {
    Next(Next(Next(s, RunStatement(r)), RunStatement(r)), Commit(r, ReplyLost))
  }

  lemma TransactEffect(s: State, r: nat)
    requires r in s.requests && s.requests[r].InTransaction? && s.requests[r].plan.StatusChange?
    requires s.requests[r].executed == [] && s.requests[r].plan.row.id in s.db.policies
    ensures var plan := s.requests[r].plan;
            && Transact(s, r) == Without(s, r).(db := ExecuteAll(s.db, Statements(plan)))
  {
  }

  /** Two requests have read the same draft row for submission and neither has written. */
  predicate BothRead(s: State, id: Uuid.Id, q: nat, r: nat, row1: AuditRow, row2: AuditRow) {
    && q != r && q in s.requests && r in s.requests && id in s.db.policies
    && s.requests[q].InTransaction? && s.requests[q].plan.StatusChange? && s.requests[q].executed == []
    && s.requests[r].InTransaction? && s.requests[r].plan.StatusChange? && s.requests[r].executed == []
    && s.requests[q].plan.row.id == s.requests[r].plan.row.id == id
    && AuditOf(s.requests[q].plan) == row1 && AuditOf(s.requests[r].plan) == row2
  }

  lemma BothReadDraft(s: State, id: Uuid.Id, q: nat, r: nat, t1: Nanos, t2: Nanos)
    requires WellFormed(s) && id in s.db.policies && s.db.policies[id].status == Draft
    requires q != r && q !in s.requests && r !in s.requests
    ensures var read := Next(Next(s, Read(q, id, SubmitDraft, "first", t1)), Read(r, id, SubmitDraft, "second", t2));
            && read.db == s.db
            && BothRead(read, id, q, r, AuditRow(id, Draft, Submitted, "first", "", t1),
                        AuditRow(id, Draft, Submitted, "second", "", t2))
  {
    var s1 := Next(s, Read(q, id, SubmitDraft, "first", t1));
    assert s1.db == s.db && r !in s1.requests;
  }

  lemma BothTransact(s: State, id: Uuid.Id, q: nat, r: nat, row1: AuditRow, row2: AuditRow)
    requires BothRead(s, id, q, r, row1, row2)
    ensures var db := Transact(Transact(s, q), r).db;
            && id in db.policies
            && db.audit == s.db.audit + [row1.(occurredAt := Stored(row1.occurredAt))]
                           + [row2.(occurredAt := Stored(row2.occurredAt))]
  {
    TransactEffect(s, q);
    StatusChangeEffect(s.db, s.requests[q].plan);
    var middle := Transact(s, q);
    assert middle.requests[r] == s.requests[r];
    TransactEffect(middle, r);
    StatusChangeEffect(middle.db, middle.requests[r].plan);
  }

  /** Whenever two submissions of the same draft both read it before either commits, both
      commit, and the log is left with two rows from draft to submitted. */
  lemma OverlapBreaksChain(s: State, id: Uuid.Id, q: nat, r: nat, t1: Nanos, t2: Nanos)
    requires WellFormed(s) && id in s.db.policies && s.db.policies[id].status == Draft
    requires LogOf(s.db.audit, id) == [] && q != r && q !in s.requests && r !in s.requests
    ensures var read := Next(Next(s, Read(q, id, SubmitDraft, "first", t1)), Read(r, id, SubmitDraft, "second", t2));
            var db := Transact(Transact(read, q), r).db;
            && id in db.policies && !Serial.ExactFor(db, id)
            && LogOf(db.audit, id) == [AuditRow(id, Draft, Submitted, "first", "", Stored(t1)),
                                       AuditRow(id, Draft, Submitted, "second", "", Stored(t2))]
  {
    var row1, row2 := AuditRow(id, Draft, Submitted, "first", "", t1), AuditRow(id, Draft, Submitted, "second", "", t2);
    var read := Next(Next(s, Read(q, id, SubmitDraft, "first", t1)), Read(r, id, SubmitDraft, "second", t2));
    BothReadDraft(s, id, q, r, t1, t2);
    BothTransact(read, id, q, r, row1, row2);
    var stored1, stored2 := row1.(occurredAt := Stored(t1)), row2.(occurredAt := Stored(t2));
    LogOfAppend(s.db.audit, stored1, id);
    LogOfAppend(s.db.audit + [stored1], stored2, id);
    var db := Transact(Transact(read, q), r).db;
    assert LogOf(db.audit, id) == [stored1, stored2];
    assert !Serial.Linked([stored1, stored2], 1);
    assert !Serial.Chain(LogOf(db.audit, id));
  }

  /** A creation, then two overlapping submissions of the new draft. */
  function TwoSubmissions(id: Uuid.Id): seq<Action> {
    [Create(0, id, NewPolicy("P-1", "Ada", "HOME", 0, DAY), "clerk", 0, ReplyLost)]
    + [Read(1, id, SubmitDraft, "first", SECOND)] + [Read(2, id, SubmitDraft, "second", 2 * SECOND)]
    + [RunStatement(1)] + [RunStatement(1)] + [Commit(1, ReplyLost)]
    + [RunStatement(2)] + [RunStatement(2)] + [Commit(2, ReplyLost)]
  }

  lemma RunTransact(actions: seq<Action>, r: nat)
    ensures Run(actions + [RunStatement(r)] + [RunStatement(r)] + [Commit(r, ReplyLost)]) == Transact(Run(actions), r)
  {
    RunAppend(actions, RunStatement(r));
    RunAppend(actions + [RunStatement(r)], RunStatement(r));
    RunAppend(actions + [RunStatement(r)] + [RunStatement(r)], Commit(r, ReplyLost));
  }

  lemma DraftCreated(id: Uuid.Id)
    ensures var s := Run([Create(0, id, NewPolicy("P-1", "Ada", "HOME", 0, DAY), "clerk", 0, ReplyLost)]);
            id in s.db.policies && s.db.policies[id].status == Draft && s.db.audit == [] && s.requests == map[]
  {
  }

  /** So the exact chain is not kept by every run of the service. */
  lemma SomeRunBreaksChain(id: Uuid.Id)
    ensures var db := Run(TwoSubmissions(id)).db;
            id in db.policies && !Serial.ExactFor(db, id) && |LogOf(db.audit, id)| == 2
  {
    var create := [Create(0, id, NewPolicy("P-1", "Ada", "HOME", 0, DAY), "clerk", 0, ReplyLost)];
    var read1, read2 := Read(1, id, SubmitDraft, "first", SECOND), Read(2, id, SubmitDraft, "second", 2 * SECOND);
    DraftCreated(id);
    RunWellFormed(create);
    RunAppend(create, read1);
    RunAppend(create + [read1], read2);
    RunTransact(create + [read1] + [read2], 1);
    RunTransact(create + [read1] + [read2] + [RunStatement(1)] + [RunStatement(1)] + [Commit(1, ReplyLost)], 2);
    OverlapBreaksChain(Run(create), id, 1, 2, SECOND, 2 * SECOND);
  }
}
