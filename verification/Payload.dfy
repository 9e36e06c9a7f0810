/** What a message says of its policy: in every interleaving the terms of one committed version
    of the row, read in the status from which the announced change starts. */
module Payload {
  import opened Wrappers
  import opened Calendar
  import opened Lifecycle
  import opened Policy
  import opened Database
  import opened Requests
  import opened Protocol
  import opened Safety
  import opened Delivery
  import Events
  import Timestamp
  import Uuid

  /** The two rows agree in identity and terms, to the precision of storage. */
  predicate SameTerms(stored: Policy, row: Policy) {
    && stored.id == row.id && stored.number == row.number
    && stored.holder == row.holder && stored.product == row.product
    && Stored(stored.effective) == Stored(row.effective) && Stored(stored.expiry) == Stored(row.expiry)
  }

  /** The message names the row's policy and carries its terms, the dates to the second. */
  predicate Carries(m: Events.CloudEvent, row: Policy) {
    && Uuid.Parse(m.data.policyId) == Some(row.id) && m.data.policyNumber == row.number
    && m.data.holder == row.holder && m.data.product == row.product
    && Timestamp.SecondText(m.data.effective, row.effective) && Timestamp.SecondText(m.data.expiry, row.expiry)
  }

  /** The row was so stored, in that status, after the first k steps. */
  ghost predicate VersionAt(actions: seq<Action>, k: nat, row: Policy, status: Status)
    requires k <= |actions|
  {
    var t := Run(actions[..k]).db.policies;
    row.id in t && SameTerms(t[row.id], row) && t[row.id].status == status
  }

  ghost predicate FromVersion(actions: seq<Action>, row: Policy, status: Status) {
    exists k: nat :: k <= |actions| && VersionAt(actions, k, row, status)
  }

  /** The message carries what was stored of the policy, in that status, after the first k steps. */
  ghost predicate ConveysAt(actions: seq<Action>, k: nat, id: Uuid.Id, m: Events.CloudEvent, status: Status)
    requires k <= |actions|
  {
    var t := Run(actions[..k]).db.policies;
    id in t && Carries(m, t[id]) && t[id].id == id && t[id].status == status
  }

  ghost predicate Conveys(actions: seq<Action>, m: Events.CloudEvent, status: Status) {
    exists k: nat, id :: k <= |actions| && ConveysAt(actions, k, id, m, status)
  }

  ghost predicate ConveysOf(actions: seq<Action>, id: Uuid.Id, m: Events.CloudEvent, status: Status) {
    exists k: nat :: k <= |actions| && ConveysAt(actions, k, id, m, status)
  }

  /** The status from which the announced change starts; a creation starts as a draft. */
  function StartOf(db: Db, cause: Cause): Status
    requires CauseExists(db, cause)
  {
    match cause
    case CreationOf(_) => Draft
    case AuditAt(index) => db.audit[index].from
  }

  ghost predicate PhaseFaithful(actions: seq<Action>, db: Db, phase: Phase) {
    match phase
    case InTransaction(_, plan, _) => plan.StatusChange? && FromVersion(actions, plan.row, plan.from)
    case Announcing(event, cause) => CauseExists(db, cause) && FromVersion(actions, event.policy, StartOf(db, cause))
    case _ => true
  }

  ghost predicate EntryFaithful(actions: seq<Action>, db: Db, b: Built) {
    CauseExists(db, b.cause) && Conveys(actions, b.message, StartOf(db, b.cause))
  }

  ghost predicate AllFaithful(actions: seq<Action>, s: State) {
    && (forall r :: r in s.requests ==> PhaseFaithful(actions, s.db, s.requests[r]))
    && (forall id :: id in s.built ==> EntryFaithful(actions, s.db, s.built[id]))
  }

  // ---- what was once a version stays one ------------------------------------------------------

  lemma VersionStays(actions: seq<Action>, a: Action, row: Policy, status: Status)
    requires FromVersion(actions, row, status)
    ensures FromVersion(actions + [a], row, status)
  {
    var k: nat :| k <= |actions| && VersionAt(actions, k, row, status);
    assert (actions + [a])[..k] == actions[..k];
    assert VersionAt(actions + [a], k, row, status);
  }

  lemma ConveysStays(actions: seq<Action>, a: Action, m: Events.CloudEvent, status: Status)
    requires Conveys(actions, m, status)
    ensures Conveys(actions + [a], m, status)
  {
    var k: nat, id :| k <= |actions| && ConveysAt(actions, k, id, m, status);
    assert (actions + [a])[..k] == actions[..k];
    assert ConveysAt(actions + [a], k, id, m, status);
  }

  lemma PhaseStays(actions: seq<Action>, a: Action, before: Db, after: Db, phase: Phase)
    requires PhaseFaithful(actions, before, phase) && Extends(before, after)
    ensures PhaseFaithful(actions + [a], after, phase)
  {
    if phase.InTransaction? {
      VersionStays(actions, a, phase.plan.row, phase.plan.from);
    } else if phase.Announcing? {
      VersionStays(actions, a, phase.event.policy, StartOf(before, phase.cause));
    }
  }

  lemma EntryStays(actions: seq<Action>, a: Action, before: Db, after: Db, b: Built)
    requires EntryFaithful(actions, before, b) && Extends(before, after)
    ensures EntryFaithful(actions + [a], after, b)
  {
    ConveysStays(actions, a, b.message, StartOf(before, b.cause));
  }

  // ---- where versions enter -------------------------------------------------------------------

  lemma VersionBefore(actions: seq<Action>, a: Action, row: Policy, status: Status)
    requires row.id in Run(actions).db.policies
    requires var p := Run(actions).db.policies[row.id]; SameTerms(p, row) && p.status == status
    ensures FromVersion(actions + [a], row, status)
  {
    assert (actions + [a])[..|actions|] == actions;
    assert VersionAt(actions + [a], |actions|, row, status);
  }

  lemma VersionAfter(actions: seq<Action>, a: Action, row: Policy, status: Status)
    requires row.id in Run(actions + [a]).db.policies
    requires var p := Run(actions + [a]).db.policies[row.id]; SameTerms(p, row) && p.status == status
    ensures FromVersion(actions + [a], row, status)
  {
    assert (actions + [a])[..|actions + [a]|] == actions + [a];
    assert VersionAt(actions + [a], |actions + [a]|, row, status);
  }

  lemma SameSecondText(text: string, t: Nanos, u: Nanos)
    requires Stored(t) == Stored(u) && text == Timestamp.FormatSeconds(t)
    ensures Timestamp.SecondText(text, u)
  {
    StoredKeepsSecond(t);
    StoredKeepsSecond(u);
    Timestamp.SecondsOnly(t, u);
    Timestamp.PrintsSecond(u);
  }

  lemma EnvelopeCarries(e: Events.PolicyEvent, freshId: Uuid.Id, stored: Policy)
    requires SameTerms(stored, e.policy)
    ensures Carries(Events.ToCloudEvent(e, freshId), stored)
  {
    var m := Events.ToCloudEvent(e, freshId);
    Uuid.RoundTrip(stored.id);
    SameSecondText(m.data.effective, e.policy.effective, stored.effective);
    SameSecondText(m.data.expiry, e.policy.expiry, stored.expiry);
  }

  lemma EnvelopeConveys(actions: seq<Action>, e: Events.PolicyEvent, freshId: Uuid.Id, status: Status)
    requires FromVersion(actions, e.policy, status)
    ensures Conveys(actions, Events.ToCloudEvent(e, freshId), status)
  {
    var k: nat :| k <= |actions| && VersionAt(actions, k, e.policy, status);
    var id := e.policy.id;
    EnvelopeCarries(e, freshId, Run(actions[..k]).db.policies[id]);
    assert ConveysAt(actions, k, id, Events.ToCloudEvent(e, freshId), status);
  }

  // ---- the new phase of a step ----------------------------------------------------------------

  lemma ReadFaithful(actions: seq<Action>, a: Action)
    requires a.Read? && WellFormed(Run(actions)) && AllFaithful(actions, Run(actions))
    ensures var t := NextRead(Run(actions), a);
            a.r in t.requests ==> PhaseFaithful(actions + [a], t.db, t.requests[a.r])
  {
    var s := Run(actions);
    if a.r in s.requests {
      PhaseStays(actions, a, s.db, s.db, s.requests[a.r]);
    } else if a.id in s.db.policies && Decide(a.command, a.actor, a.now, s.db.policies[a.id]).Success? {
      var copy := s.db.policies[a.id];
      var plan := Decide(a.command, a.actor, a.now, copy).value;
      if plan.StatusChange? {
        PlanKeepsTerms(a.command, a.actor, a.now, copy, plan);
        VersionBefore(actions, a, plan.row, plan.from);
      }
    }
  }

  lemma PlanKeepsTerms(command: Command, actor: string, now: Nanos, copy: Policy, plan: Plan)
    requires Decide(command, actor, now, copy) == Success(plan) && plan.StatusChange?
    ensures plan.from == copy.status && plan.row.id == copy.id && SameTerms(copy, plan.row)
  {
  }

  lemma CreateFaithful(actions: seq<Action>, a: Action)
    requires a.Create? && AllFaithful(actions, Run(actions)) && Extends(Run(actions).db, NextCreate(Run(actions), a).db)
    ensures var t := NextCreate(Run(actions), a);
            a.r in t.requests ==> PhaseFaithful(actions + [a], t.db, t.requests[a.r])
  {
    var s, t := Run(actions), NextCreate(Run(actions), a);
    RunAppend(actions, a);
    if a.r in s.requests {
      PhaseStays(actions, a, s.db, t.db, s.requests[a.r]);
    } else if a.r in t.requests {
      StoredKeepsSecond(a.input.effective);
      StoredKeepsSecond(a.input.expiry);
      VersionAfter(actions, a, Build(a.id, a.input, a.now), Draft);
    }
  }

  lemma CommittedStart(s: State, r: nat)
    requires WellFormed(s) && ReadyToCommit(s, r)
    ensures var plan, db := s.requests[r].plan, NextCommit(s, r, Acknowledged).db;
            |db.audit| == |s.db.audit| + 1 && StartOf(db, AuditAt(|s.db.audit|)) == plan.from
  {
    assert RequestOk(s.db, s.requests[r]);
    WholeTransaction(s.requests[r]);
    StatusChangeEffect(s.db, s.requests[r].plan);
  }

  lemma CommitAnnouncement(s: State, r: nat, outcome: Outcome)
    requires ReadyToCommit(s, r) && r in NextCommit(s, r, outcome).requests
    ensures var t := NextCommit(s, r, outcome);
            && t.db == NextCommit(s, r, Acknowledged).db && t.requests[r].Announcing?
            && t.requests[r].cause == AuditAt(|s.db.audit|) && t.requests[r].event.policy == s.requests[r].plan.row
  {
  }

  lemma CommitFaithful(actions: seq<Action>, a: Action)
    requires a.Commit? && WellFormed(Run(actions)) && AllFaithful(actions, Run(actions))
    requires Extends(Run(actions).db, NextCommit(Run(actions), a.r, a.outcome).db)
    ensures var t := NextCommit(Run(actions), a.r, a.outcome);
            a.r in t.requests ==> PhaseFaithful(actions + [a], t.db, t.requests[a.r])
  {
    var s, t := Run(actions), NextCommit(Run(actions), a.r, a.outcome);
    if a.r in t.requests {
      if ReadyToCommit(s, a.r) {
        assert PhaseFaithful(actions, s.db, s.requests[a.r]);
        CommittedStart(s, a.r);
        CommitAnnouncement(s, a.r, a.outcome);
        VersionStays(actions, a, t.requests[a.r].event.policy, s.requests[a.r].plan.from);
      } else {
        PhaseStays(actions, a, s.db, t.db, s.requests[a.r]);
      }
    }
  }

  lemma RunStatementFaithful(actions: seq<Action>, r: nat)
    requires AllFaithful(actions, Run(actions))
    ensures var t := NextRunStatement(Run(actions), r);
            r in t.requests ==> PhaseFaithful(actions + [RunStatement(r)], t.db, t.requests[r])
  {
    var s := Run(actions);
    if r in s.requests {
      PhaseStays(actions, RunStatement(r), s.db, s.db, s.requests[r]);
    }
  }

  lemma OwnPhaseFaithful(actions: seq<Action>, a: Action)
    requires WellFormed(Run(actions)) && AllFaithful(actions, Run(actions))
    requires Extends(Run(actions).db, Next(Run(actions), a).db)
    ensures var t := Next(Run(actions), a);
            a.r in t.requests ==> PhaseFaithful(actions + [a], t.db, t.requests[a.r])
  {
    var s := Run(actions);
    if a.Read? {
      ReadFaithful(actions, a);
    } else if a.Create? {
      CreateFaithful(actions, a);
    } else if a.Commit? {
      CommitFaithful(actions, a);
    } else if a.RunStatement? {
      RunStatementFaithful(actions, a.r);
    } else if a.r in s.requests && a.r in Next(s, a).requests {
      PhaseStays(actions, a, s.db, Next(s, a).db, s.requests[a.r]);
      PassivePhase(s, a);
    }
  }

  lemma PassivePhase(s: State, a: Action)
    requires !a.Read? && !a.Create? && !a.Commit? && !a.RunStatement? && a.r in Next(s, a).requests
    ensures var phase := Next(s, a).requests[a.r];
            (a.r in s.requests && phase == s.requests[a.r]) || (!phase.InTransaction? && !phase.Announcing?)
  {
  }

  lemma OthersKeepPhase(s: State, a: Action, r: nat)
    requires r != a.r && r in Next(s, a).requests
    ensures r in s.requests && Next(s, a).requests[r] == s.requests[r]
  {
  }

  lemma EntriesFaithful(actions: seq<Action>, a: Action, mid: string)
    requires AllFaithful(actions, Run(actions)) && Extends(Run(actions).db, Next(Run(actions), a).db)
    requires mid in Next(Run(actions), a).built
    ensures EntryFaithful(actions + [a], Next(Run(actions), a).db, Next(Run(actions), a).built[mid])
  {
    var s, t := Run(actions), Next(Run(actions), a);
    if mid in s.built && t.built[mid] == s.built[mid] {
      EntryStays(actions, a, s.db, t.db, s.built[mid]);
    } else {
      NewEntryShape(s, a, mid);
      var phase := s.requests[a.r];
      EnvelopeConveys(actions, phase.event, a.freshId, StartOf(s.db, phase.cause));
      EntryStays(actions, a, s.db, t.db, t.built[mid]);
    }
  }

  lemma NewEntryShape(s: State, a: Action, mid: string)
    requires mid in Next(s, a).built && (mid !in s.built || Next(s, a).built[mid] != s.built[mid])
    ensures a.BuildMessage? && a.r in s.requests && s.requests[a.r].Announcing?
    ensures var phase := s.requests[a.r];
            Next(s, a).built[mid] == Built(Events.ToCloudEvent(phase.event, a.freshId), phase.cause)
  {
  }

  lemma {:induction false} RunFaithful(actions: seq<Action>)
    ensures AllFaithful(actions, Run(actions))
  {
    if actions != [] {
      var init, a := actions[..|actions| - 1], actions[|actions| - 1];
      assert actions == init + [a];
      RunFaithful(init);
      RunWellFormed(init);
      StepFaithful(init, a);
    }
  }

  lemma StepFaithful(actions: seq<Action>, a: Action)
    requires WellFormed(Run(actions)) && AllFaithful(actions, Run(actions))
    ensures AllFaithful(actions + [a], Next(Run(actions), a))
  {
    var s, t := Run(actions), Next(Run(actions), a);
    StepKeeps(s, a);
    forall r | r in t.requests
      ensures PhaseFaithful(actions + [a], t.db, t.requests[r])
    {
      if r == a.r {
        OwnPhaseFaithful(actions, a);
      } else {
        OthersKeepPhase(s, a, r);
        PhaseStays(actions, a, s.db, t.db, s.requests[r]);
      }
    }
    forall mid | mid in t.built
      ensures EntryFaithful(actions + [a], t.db, t.built[mid])
    {
      EntriesFaithful(actions, a, mid);
    }
  }

  /** The policy a fact is about. */
  function SubjectOf(db: Db, cause: Cause): Uuid.Id
    requires CauseExists(db, cause)
  {
    match cause
    case CreationOf(id) => id
    case AuditAt(index) => db.audit[index].policy
  }

  /** In every interleaving each delivered message names the policy of the fact it tells, and
      its number, holder, product and dates are those stored of that policy at one earlier
      moment, in the status the announced change starts from; the number still is the stored one. */
  lemma DeliveredTerms(actions: seq<Action>, i: nat)
    requires i < |Run(actions).stream|
    ensures var s := Run(actions);
            var m := s.stream[i];
            && m.id in s.built && s.built[m.id].message == m && CauseExists(s.db, s.built[m.id].cause)
            && var id := SubjectOf(s.db, s.built[m.id].cause);
               && ConveysOf(actions, id, m, StartOf(s.db, s.built[m.id].cause))
               && id in s.db.policies && m.data.policyNumber == s.db.policies[id].number
  {
    var s := Run(actions);
    NoPhantomEvents(actions);
    RunFaithful(actions);
    var m := s.stream[i];
    var cause := s.built[m.id].cause;
    assert EntryFaithful(actions, s.db, s.built[m.id]);
    EntryTerms(actions, s.db, m, cause, StartOf(s.db, cause));
    NumberStands(actions, SubjectOf(s.db, cause), m, StartOf(s.db, cause));
  }

  lemma EntryTerms(actions: seq<Action>, db: Db, m: Events.CloudEvent, cause: Cause, start: Status)
    requires CauseExists(db, cause) && Tells(db, m, cause) && Conveys(actions, m, start)
    ensures ConveysOf(actions, SubjectOf(db, cause), m, start)
  {
    var k: nat, who :| k <= |actions| && ConveysAt(actions, k, who, m, start);
    CarriesSubject(db, m, cause, Run(actions[..k]).db.policies[who]);
  }

  lemma NumberStands(actions: seq<Action>, id: Uuid.Id, m: Events.CloudEvent, start: Status)
    requires ConveysOf(actions, id, m, start)
    ensures id in Run(actions).db.policies && m.data.policyNumber == Run(actions).db.policies[id].number
  {
    var k: nat :| k <= |actions| && ConveysAt(actions, k, id, m, start);
    NumberStays(actions, k, id);
  }

  lemma NumberStays(actions: seq<Action>, k: nat, id: Uuid.Id)
    requires k <= |actions| && id in Run(actions[..k]).db.policies
    ensures id in Run(actions).db.policies && Run(actions[..k]).db.policies[id].number == Run(actions).db.policies[id].number
  {
    var early, late := actions[..k], actions[k..];
    assert early + late == actions;
    IdentitiesFixed(early, late);
    assert KeysKept(Run(early).db.policies, Run(actions).db.policies);
  }

  lemma CarriesSubject(db: Db, m: Events.CloudEvent, cause: Cause, row: Policy)
    requires CauseExists(db, cause) && Tells(db, m, cause) && Carries(m, row)
    ensures row.id == SubjectOf(db, cause)
  {
    Uuid.RoundTrip(SubjectOf(db, cause));
  }
}
