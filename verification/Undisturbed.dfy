/** What a request does when nothing comes between its steps: the interleaved protocol then does
    neither more nor less than the request as a whole. */
module Undisturbed {
  import opened Wrappers
  import opened Calendar
  import opened Lifecycle
  import opened Policy
  import opened Database
  import opened Requests
  import opened Protocol
  import opened Safety
  import Events
  import Replay
  import Serial
  import Uuid

  /** The steps of one request up to the end of its write. */
  function WriteSteps(job: Job, r: nat, outcome: Outcome): seq<Action> {
    match job
    case CreateJob(id, input, actor, now) => [Create(r, id, input, actor, now, outcome)]
    case ChangeJob(id, command, actor, now) =>
      if EventAndReason(command).None? then [Read(r, id, command, actor, now), WriteRow(r, outcome)]
      else [Read(r, id, command, actor, now), RunStatement(r), RunStatement(r), Commit(r, outcome)]
  }

  lemma AfterOne(s: State, a: Action)
    ensures After(s, [a]) == Next(s, a)
  {
    assert [a][..0] == [];
  }

  lemma AfterFour(s: State, a: Action, b: Action, c: Action, d: Action)
    ensures After(s, [a, b, c, d]) == Next(Next(Next(Next(s, a), b), c), d)
  {
    assert [a, b, c, d][..3] == [a, b, c];
    AfterThree(s, a, b, c);
  }

  lemma AfterMore(s: State, steps: seq<Action>, a: Action, b: Action)
    ensures After(s, steps + [a, b]) == Next(Next(After(s, steps), a), b)
  {
    assert (steps + [a, b])[..|steps| + 1] == steps + [a];
    assert (steps + [a])[..|steps|] == steps;
  }

  /** A request that has read its row and decided. */
  function Decided(job: Job, plan: Plan): Phase {
    if plan.WholeRow? then Writing(job, plan) else InTransaction(job, plan, [])
  }

  lemma ReadDecides(s: State, job: Job, r: nat)
    requires r !in s.requests && job.ChangeJob?
    ensures var t := NextRead(s, Read(r, job.id, job.command, job.actor, job.now));
            if LacksReason(job.command) || job.id !in s.db.policies
               || Decide(job.command, job.actor, job.now, s.db.policies[job.id]).Failure?
            then t == s
            else t == With(s, r, Decided(job, Decide(job.command, job.actor, job.now, s.db.policies[job.id]).value))
  {
  }

  lemma IdleSteps(s: State, r: nat, outcome: Outcome)
    requires r !in s.requests
    ensures NextRunStatement(s, r) == s && NextCommit(s, r, outcome) == s && NextWriteRow(s, r, outcome) == s
  {
  }

  lemma BothStatements(s: State, r: nat, job: Job, plan: Plan)
    requires plan.StatusChange?
    ensures NextRunStatement(NextRunStatement(With(s, r, InTransaction(job, plan, [])), r), r)
            == With(s, r, InTransaction(job, plan, Statements(plan)))
  {
    var all := Statements(plan);
    assert [] + [all[0]] == [all[0]] && [all[0]] + [all[1]] == all;
    var once := NextRunStatement(With(s, r, InTransaction(job, plan, [])), r);
    assert once == With(s, r, InTransaction(job, plan, [all[0]]));
    assert NextRunStatement(once, r).requests == s.requests[r := InTransaction(job, plan, all)];
  }

  /** How a transition's write ends. */
  function Committing(s: State, r: nat, plan: Plan, outcome: Outcome): State
    requires plan.StatusChange?
  {
    if outcome == NotApplied then Without(s, r)
    else if outcome == ReplyLost then Without(s, r).(db := ExecuteAll(s.db, Statements(plan)))
    else
      With(s.(db := ExecuteAll(s.db, Statements(plan))), r,
           Announcing(Events.BuildTransitionEvent(Events.ServiceEventType(plan.row.status), plan.row, plan.actor, plan.reason),
                      AuditAt(|s.db.audit|)))
  }

  lemma CommitEnds(s: State, r: nat, job: Job, plan: Plan, outcome: Outcome)
    requires plan.StatusChange? && r !in s.requests
    ensures NextCommit(With(s, r, InTransaction(job, plan, Statements(plan))), r, outcome) == Committing(s, r, plan, outcome)
  {
    var t := With(s, r, InTransaction(job, plan, Statements(plan)));
    assert Without(t, r).requests == s.requests == Without(s, r).requests;
    assert NextCommit(t, r, outcome).requests == Committing(s, r, plan, outcome).requests;
  }

  lemma PlanKind(command: Command, actor: string, now: Nanos, copy: Policy)
    requires Decide(command, actor, now, copy).Success?
    ensures Decide(command, actor, now, copy).value.StatusChange? <==> EventAndReason(command).Some?
  {
  }

  lemma TransitionSteps(s: State, job: Job, r: nat, outcome: Outcome)
    requires r !in s.requests && job.ChangeJob? && EventAndReason(job.command).Some? && Perform(s.db, job).Success?
    ensures var plan := Decide(job.command, job.actor, job.now, s.db.policies[job.id]).value;
            plan.StatusChange? && After(s, WriteSteps(job, r, outcome)) == Committing(s, r, plan, outcome)
            && Perform(s.db, job) == Success(ExecuteAll(s.db, Statements(plan)))
  {
    var copy := s.db.policies[job.id];
    var plan := Decide(job.command, job.actor, job.now, copy).value;
    PlanKind(job.command, job.actor, job.now, copy);
    AfterFour(s, Read(r, job.id, job.command, job.actor, job.now), RunStatement(r), RunStatement(r), Commit(r, outcome));
    ReadDecides(s, job, r);
    BothStatements(s, r, job, plan);
    CommitEnds(s, r, job, plan, outcome);
  }

  lemma RowSteps(s: State, job: Job, r: nat, outcome: Outcome)
    requires r !in s.requests && job.ChangeJob? && EventAndReason(job.command).None?
    requires job.id in s.db.policies && Decide(job.command, job.actor, job.now, s.db.policies[job.id]).Success?
    ensures var t := After(s, WriteSteps(job, r, outcome));
            t.db == (if outcome == NotApplied then s.db else Serial.Step(s.db, job))
            && t.requests == s.requests && t.stream == s.stream && t.built == s.built
  {
    var copy := s.db.policies[job.id];
    var plan := Decide(job.command, job.actor, job.now, copy).value;
    PlanKind(job.command, job.actor, job.now, copy);
    AfterTwo(s, Read(r, job.id, job.command, job.actor, job.now), WriteRow(r, outcome));
    ReadDecides(s, job, r);
    var read := With(s, r, Writing(job, plan));
    assert Without(read, r).requests == s.requests;
  }

  lemma RefusedSteps(s: State, job: Job, r: nat, outcome: Outcome)
    requires r !in s.requests && job.ChangeJob?
    requires LacksReason(job.command) || job.id !in s.db.policies
             || Decide(job.command, job.actor, job.now, s.db.policies[job.id]).Failure?
    ensures After(s, WriteSteps(job, r, outcome)) == s && Perform(s.db, job).Failure?
  {
    var read := Read(r, job.id, job.command, job.actor, job.now);
    ReadDecides(s, job, r);
    IdleSteps(s, r, outcome);
    if EventAndReason(job.command).None? {
      AfterTwo(s, read, WriteRow(r, outcome));
    } else {
      AfterFour(s, read, RunStatement(r), RunStatement(r), Commit(r, outcome));
    }
  }

  /** Without anything in between, the steps of a request leave the store that the whole request
      leaves, or the store as it was when the write was not applied. */
  lemma StepsAreWhole(s: State, job: Job, r: nat, outcome: Outcome)
    requires r !in s.requests
    ensures After(s, WriteSteps(job, r, outcome)).db == if outcome == NotApplied then s.db else Serial.Step(s.db, job)
  {
    if job.CreateJob? {
      AfterOne(s, Create(r, job.id, job.input, job.actor, job.now, outcome));
    } else if LacksReason(job.command) || job.id !in s.db.policies
              || Decide(job.command, job.actor, job.now, s.db.policies[job.id]).Failure? {
      RefusedSteps(s, job, r, outcome);
    } else if EventAndReason(job.command).None? {
      RowSteps(s, job, r, outcome);
    } else {
      PlanKind(job.command, job.actor, job.now, s.db.policies[job.id]);
      TransitionSteps(s, job, r, outcome);
    }
  }

  // ---- the announcement -----------------------------------------------------------------------

  /** What a request that takes effect announces: a creation the new policy, a transition the
      policy as it was read with the change made to it, an edit or a cancelled draft nothing. */
  function AnnouncementOf(db: Db, job: Job): Option<Events.PolicyEvent> {
    if Perform(db, job).Failure? then None
    else
      match job
      case CreateJob(id, input, actor, now) =>
        var p := Policy(id, input.number, input.holder, input.product, Draft, input.effective, input.expiry, now, now);
        Some(Events.PolicyEvent("created", Uuid.Text(id), p, actor, "", now))
      case ChangeJob(id, command, actor, now) =>
        match EventAndReason(command)
        case None => None
        case Some((event, reason)) =>
          var p := db.policies[id].(status := TargetOf(event), updatedAt := now);
          Some(Events.PolicyEvent(Events.ServiceEventType(p.status), Uuid.Text(id), p, actor, reason, now))
  }

  /** The event a request is about to announce, if any. */
  function Announced(s: State, r: nat): Option<Events.PolicyEvent> {
    if r in s.requests && s.requests[r].Announcing? then Some(s.requests[r].event) else None
  }

  /** Nothing has been built or sent yet, and the request holds the announcement, if any. */
  predicate About(s: State, t: State, r: nat, announcement: Option<Events.PolicyEvent>) {
    && t.stream == s.stream && t.built == s.built && Announced(t, r) == announcement
    && (r in t.requests ==> t.requests[r].Announcing?)
  }

  lemma CreationAnnounced(s: State, job: Job, r: nat)
    requires r !in s.requests && job.CreateJob?
    ensures About(s, After(s, WriteSteps(job, r, Acknowledged)), r, AnnouncementOf(s.db, job))
  {
    AfterOne(s, Create(r, job.id, job.input, job.actor, job.now, Acknowledged));
  }

  lemma TransitionAnnounced(s: State, job: Job, r: nat)
    requires WellFormed(s) && r !in s.requests && job.ChangeJob? && EventAndReason(job.command).Some? && Perform(s.db, job).Success?
    ensures About(s, After(s, WriteSteps(job, r, Acknowledged)), r, AnnouncementOf(s.db, job))
  {
    TransitionSteps(s, job, r, Acknowledged);
    EventFixesEdge(s.db.policies[job.id].status, EventAndReason(job.command).value.0);
  }

  lemma WriteAnnounced(s: State, job: Job, r: nat)
    requires WellFormed(s) && r !in s.requests
    ensures About(s, After(s, WriteSteps(job, r, Acknowledged)), r, AnnouncementOf(s.db, job))
  {
    if job.CreateJob? {
      CreationAnnounced(s, job, r);
    } else if LacksReason(job.command) || job.id !in s.db.policies
              || Decide(job.command, job.actor, job.now, s.db.policies[job.id]).Failure? {
      RefusedSteps(s, job, r, Acknowledged);
    } else if EventAndReason(job.command).None? {
      RowSteps(s, job, r, Acknowledged);
    } else {
      PlanKind(job.command, job.actor, job.now, s.db.policies[job.id]);
      TransitionAnnounced(s, job, r);
    }
  }

  /** The stream has grown by one message that tells the event, or not at all. */
  predicate Delivered(before: seq<Events.CloudEvent>, after: seq<Events.CloudEvent>,
                      announcement: Option<Events.PolicyEvent>, freshId: Uuid.Id)
  {
    if announcement.None? then after == before
    else
      && |after| == |before| + 1 && after[..|before|] == before
      && Events.Announces(after[|before|], announcement.value, freshId)
  }

  lemma MessageSent(s: State, t: State, r: nat, announcement: Option<Events.PolicyEvent>, freshId: Uuid.Id)
    requires About(s, t, r, announcement) && Uuid.Text(freshId) !in s.built
    ensures Delivered(s.stream, NextSend(NextBuildMessage(t, r, freshId), r, Acknowledged).stream, announcement, freshId)
  {
    if announcement.Some? {
      Events.EnvelopeAnnounces(announcement.value, freshId);
    }
  }

  /** A request left alone, its write and its one send acknowledged, delivers exactly one message
      that tells its announcement, and a request without one delivers none. */
  lemma AcknowledgedIsAnnounced(s: State, job: Job, r: nat, freshId: Uuid.Id)
    requires WellFormed(s) && r !in s.requests && Uuid.Text(freshId) !in s.built
    ensures var u := After(s, WriteSteps(job, r, Acknowledged) + [BuildMessage(r, freshId), Send(r, Acknowledged)]);
            Delivered(s.stream, u.stream, AnnouncementOf(s.db, job), freshId)
  {
    AfterMore(s, WriteSteps(job, r, Acknowledged), BuildMessage(r, freshId), Send(r, Acknowledged));
    WriteAnnounced(s, job, r);
    MessageSent(s, After(s, WriteSteps(job, r, Acknowledged)), r, AnnouncementOf(s.db, job), freshId);
  }

  /** The events that a rebuilding consumer counts on are those announced. */
  lemma EmitsAnnounced(s: State, job: Job)
    requires WellFormed(s)
    ensures Replay.Emits(s.db, job) ==
            match AnnouncementOf(s.db, job)
            case None => []
            case Some(e) => [Replay.Emission(job.id, e.eventType)]
  {
    if job.ChangeJob? && EventAndReason(job.command).Some? && Perform(s.db, job).Success? {
      var copy := s.db.policies[job.id];
      var plan := Decide(job.command, job.actor, job.now, copy).value;
      PlanKind(job.command, job.actor, job.now, copy);
      EventFixesEdge(copy.status, EventAndReason(job.command).value.0);
      StatusChangeEffect(s.db, plan);
    }
  }
}
