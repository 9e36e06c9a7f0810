/** The policy service as its methods run: read, decide, write, then announce. Each write may
    be applied, applied with its reply lost, or not applied. */
module Service {
  import opened Wrappers
  import opened Calendar
  import opened Lifecycle
  import opened Policy
  import opened Database
  import opened Requests
  import opened Protocol
  import Events
  import History
  import Serial
  import Uuid

  /** How a call ends, given what the whole request does to the store it met: refused requests
      change nothing, a lost reply hides a change that did happen, and success is only reported
      for a change that happened. */
  predicate Settled<T>(before: Db, after: Db, done: Result<Db, ServiceError>, outcome: Outcome, r: Result<T, ServiceError>) {
    && (r.Success? <==> done.Success? && outcome == Acknowledged)
    && after == (if done.Success? && outcome != NotApplied then done.value else before)
    && (r.Failure? ==> r.error == if done.Failure? then done.error else Unavailable)
  }

  /** A policy has moved along one edge: its status and update time, and one audit row. */
  predicate Moved(before: Db, after: Db, id: Uuid.Id, from: Status, to: Status, actor: string, reason: string, now: Nanos) {
    && id in before.policies && before.policies[id].status == from
    && after.policies == before.policies[id := before.policies[id].(status := to, updatedAt := Stored(now))]
    && after.audit == before.audit + [AuditRow(id, from, to, actor, reason, Stored(now))]
  }

  /** A whole transition request: accepted exactly in the one status, both writes or neither,
      success only for a reported commit, and otherwise the reason it failed. */
  predicate Transitioned(before: Db, after: Db, id: Uuid.Id, event: Event, from: Status, to: Status,
                         actor: string, reason: string, now: Nanos, outcome: Outcome, r: Result<Policy, ServiceError>)
  {
    var accepted := id in before.policies && before.policies[id].status == from;
    && (r.Success? <==> accepted && outcome == Acknowledged)
    && (r.Success? ==> r.value == before.policies[id].(status := to, updatedAt := now))
    && (r.Failure? ==> r.error == if id !in before.policies then PolicyNotFound
                                  else if !accepted then InvalidTransition(before.policies[id].status, event)
                                  else Unavailable)
    && (if accepted && outcome != NotApplied then Moved(before, after, id, from, to, actor, reason, now) else after == before)
  }

  /** The events a transition call publishes: one if it reports success, else none. */
  function Announcement(r: Result<Policy, ServiceError>, eventType: string, actor: string, reason: string): seq<Events.PolicyEvent> {
    if r.Failure? then []
    else [Events.PolicyEvent(eventType, Uuid.Text(r.value.id), r.value, actor, reason, r.value.updatedAt)]
  }

  /** The first rule that the fields of a policy break, in the order they are reported. */
  predicate FirstBroken(rule: Invalid, number: string, holder: string, product: string, effective: Nanos, expiry: Nanos) {
    match rule
    case EmptyPolicyNumber => number == ""
    case EmptyHolderName => number != "" && holder == ""
    case EmptyProductCode => number != "" && holder != "" && product == ""
    case InvalidDateRange => number != "" && holder != "" && product != "" && effective >= expiry
  }

  predicate GoodFields(number: string, holder: string, product: string, effective: Nanos, expiry: Nanos) {
    number != "" && holder != "" && product != "" && effective < expiry
  }

  /** Stored rows have a number, stored times, and dates in order. */
  predicate RowStored(p: Policy) {
    && p.number != "" && p.effective < p.expiry
    && Stored(p.effective) == p.effective && Stored(p.expiry) == p.expiry
  }

  ghost predicate RowsStored(policies: map<Uuid.Id, Policy>) {
    forall id :: id in policies ==> RowStored(policies[id])
  }

  /** The two statements, run in order inside a transaction, build the store of the request. */
  lemma TransactionOf(db: Db, plan: Plan, built: Db)
    requires Serial.Exact(db) && plan.StatusChange? && plan.row.id in db.policies
    requires plan.from == db.policies[plan.row.id].status && Edge(plan.from, plan.row.status)
    requires built == Execute(Execute(db, SetStatus(plan.row.id, plan.row.status, plan.row.updatedAt)), AddAudit(AuditOf(plan)))
    ensures built == ExecuteAll(db, Statements(plan)) && Serial.Exact(built)
    ensures Moved(db, built, plan.row.id, plan.from, plan.row.status, plan.actor, plan.reason, plan.row.updatedAt)
  {
    StatusChangeEffect(db, plan);
    Serial.ExactTransition(db, plan);
  }

  /** A transition request is the application of its event. */
  lemma RequestIsEvent(db: Db, id: Uuid.Id, command: Command, actor: string, now: Nanos)
    requires EventAndReason(command).Some? && !LacksReason(command)
    ensures var (event, reason) := EventAndReason(command).value;
            Perform(db, ChangeJob(id, command, actor, now)) == PerformEvent(db, id, event, actor, reason, now)
  {
  }

  class PolicyService {
    var policies: map<Uuid.Id, Policy>
    var audit: seq<AuditRow>
    var published: seq<Events.PolicyEvent>

    constructor ()
      ensures Store() == EMPTY && published == [] && Valid()
    {
      policies, audit, published := map[], [], [];
    }

    function Store(): Db
      reads this
    {
      Db(policies, audit)
    }

    /** Calls that do not overlap keep every policy's audit log an exact chain. */
    ghost predicate Valid()
      reads this
    {
      Serial.Exact(Store()) && RowsStored(policies)
    }

    // ---- the repositories -------------------------------------------------------------------

    method GetById(id: Uuid.Id) returns (r: Result<Policy, ServiceError>)
      ensures r == if id in policies then Success(policies[id]) else Failure(PolicyNotFound)
    {
      if id !in policies {
        return Failure(PolicyNotFound);
      }
      return Success(policies[id]);
    }

    method InsertRow(p: Policy, outcome: Outcome) returns (error: Option<ServiceError>)
      modifies this`policies
      ensures var done := Insert(old(Store()), p);
              && Store() == (if done.Success? && outcome != NotApplied then done.value else old(Store()))
              && error == (if done.Failure? then Some(Refused(done.error))
                           else if outcome == Acknowledged then None else Some(Unavailable))
    {
      if !DatesOk(p) {
        return Some(Refused(CheckViolated));
      }
      if p.id in policies || NumberInUse(policies, p.number) {
        return Some(Refused(NumberTaken));
      }
      if outcome == NotApplied {
        return Some(Unavailable);
      }
      policies := policies[p.id := StoredRow(p)];
      return if outcome == ReplyLost then Some(Unavailable) else None;
    }

    method UpdateRow(p: Policy, outcome: Outcome) returns (error: Option<ServiceError>)
      modifies this`policies
      ensures var done := Database.Update(old(Store()), p);
              && Store() == (if done.Success? && outcome != NotApplied then done.value else old(Store()))
              && error == (if done.Failure? then Some(Refused(done.error))
                           else if outcome == Acknowledged then None else Some(Unavailable))
    {
      if p.id in policies && !DatesOk(p) {
        return Some(Refused(CheckViolated));
      }
      if outcome == NotApplied {
        return Some(Unavailable);
      }
      if p.id in policies {
        policies := policies[p.id := Overwrite(policies[p.id], p)];
      }
      return if outcome == ReplyLost then Some(Unavailable) else None;
    }

    /** What a transaction has built up takes effect as a whole, or not at all. */
    method CommitTransaction(built: Db, outcome: Outcome) returns (error: Option<ServiceError>)
      modifies this`policies, this`audit
      ensures Store() == if outcome == NotApplied then old(Store()) else built
      ensures error == if outcome == Acknowledged then None else Some(Unavailable)
    {
      if outcome == NotApplied {
        return Some(Unavailable);
      }
      policies, audit := built.policies, built.audit;
      return if outcome == ReplyLost then Some(Unavailable) else None;
    }

    // ---- the service ------------------------------------------------------------------------

    method Create(input: NewPolicy, id: Uuid.Id, actor: string, now: Nanos, outcome: Outcome)
      returns (r: Result<Policy, ServiceError>)
      requires Valid()
      modifies this
      ensures Valid()
      ensures Settled(old(Store()), Store(), Perform(old(Store()), CreateJob(id, input, actor, now)), outcome, r)
      ensures var good := GoodFields(input.number, input.holder, input.product, input.effective, input.expiry);
              var dates := Stored(input.effective) < Stored(input.expiry);
              var unused := id !in old(policies) && forall other :: other in old(policies) ==> old(policies)[other].number != input.number;
              && (r.Success? <==> good && dates && unused && outcome == Acknowledged)
              && (r.Failure? ==>
                    match r.error
                    case ValidationFailed(rule) =>
                      FirstBroken(rule, input.number, input.holder, input.product, input.effective, input.expiry)
                    case Refused(refusal) => good && !(dates && unused) && (refusal == CheckViolated <==> !dates)
                    case Unavailable => good && dates && unused && outcome != Acknowledged
                    case _ => false)
              && audit == old(audit)
              && policies == if good && dates && unused && outcome != NotApplied
                             then old(policies)[id := Policy(id, input.number, input.holder, input.product, Draft,
                                                             Stored(input.effective), Stored(input.expiry), Stored(now), Stored(now))]
                             else old(policies)
      ensures r.Success? ==> r.value == Policy(id, input.number, input.holder, input.product, Draft,
                                               input.effective, input.expiry, now, now)
      ensures published == old(published) +
                (if r.Success? then [Events.PolicyEvent("created", Uuid.Text(id), r.value, actor, "", now)] else [])
    {
      Serial.ExactStep(Store(), CreateJob(id, input, actor, now));
      var p := Build(id, input, now);
      var rule := Validate(p);
      if rule.Some? {
        return Failure(ValidationFailed(rule.value));
      }
      var error := InsertRow(p, outcome);
      if error.Some? {
        return Failure(error.value);
      }
      published := published + [Events.BuildTransitionEvent("created", p, actor, "")];
      return Success(p);
    }

    method Update(id: Uuid.Id, holder: string, product: string, effective: Nanos, expiry: Nanos, now: Nanos, outcome: Outcome)
      returns (r: Result<Policy, ServiceError>)
      requires Valid()
      modifies this
      ensures Valid()
      ensures var job := ChangeJob(id, EditFields(holder, product, effective, expiry), "", now);
              Settled(old(Store()), Store(), Perform(old(Store()), job), outcome, r)
      ensures var known := id in old(policies);
              var good := known && GoodFields(old(policies)[id].number, holder, product, effective, expiry);
              var dates := Stored(effective) < Stored(expiry);
              && (r.Success? <==> good && dates && outcome == Acknowledged)
              && (r.Failure? ==>
                    match r.error
                    case PolicyNotFound => !known
                    case ValidationFailed(rule) => known && FirstBroken(rule, old(policies)[id].number, holder, product, effective, expiry)
                    case Refused(refusal) => good && !dates && refusal == CheckViolated
                    case Unavailable => good && dates && outcome != Acknowledged
                    case _ => false)
              && audit == old(audit)
              && policies == if good && dates && outcome != NotApplied
                             then old(policies)[id := old(policies)[id].(holder := holder, product := product,
                                    effective := Stored(effective), expiry := Stored(expiry), updatedAt := Stored(now))]
                             else old(policies)
      ensures r.Success? ==> r.value == old(policies[id]).(holder := holder, product := product, effective := effective,
                                                           expiry := expiry, updatedAt := now)
      ensures published == old(published)
    {
      Serial.ExactStep(Store(), ChangeJob(id, EditFields(holder, product, effective, expiry), "", now));
      var found := GetById(id);
      if found.Failure? {
        return Failure(found.error);
      }
      var p := found.value;
      assert Serial.ExactFor(Store(), id);
      p := p.(holder := holder, product := product, effective := effective, expiry := expiry, updatedAt := now);
      var rule := Validate(p);
      if rule.Some? {
        return Failure(ValidationFailed(rule.value));
      }
      var error := UpdateRow(p, outcome);
      if error.Some? {
        return Failure(error.value);
      }
      return Success(p);
    }

    /** Ends a draft; neither audited nor announced. */
    method Cancel(id: Uuid.Id, now: Nanos, outcome: Outcome) returns (r: Result<(), ServiceError>)
      requires Valid()
      modifies this
      ensures Valid()
      ensures Settled(old(Store()), Store(), Perform(old(Store()), ChangeJob(id, CancelDraft, "", now)), outcome, r)
      ensures var draft := id in old(policies) && old(policies)[id].status == Draft;
              && (r.Success? <==> draft && outcome == Acknowledged)
              && (r.Failure? ==> r.error == if id !in old(policies) then PolicyNotFound
                                            else if !draft then CannotCancel else Unavailable)
              && policies == if draft && outcome != NotApplied
                             then old(policies)[id := old(policies)[id].(status := Terminated, updatedAt := Stored(now))]
                             else old(policies)
      ensures audit == old(audit) && published == old(published)
    {
      Serial.ExactStep(Store(), ChangeJob(id, CancelDraft, "", now));
      var found := GetById(id);
      if found.Failure? {
        return Failure(found.error);
      }
      var p := found.value;
      assert Serial.ExactFor(Store(), id);
      if p.status != Draft {
        return Failure(CannotCancel);
      }
      p := p.(status := Terminated, updatedAt := now);
      var error := UpdateRow(p, outcome);
      return if error.Some? then Failure(error.value) else Success(());
    }

    /** Reads the row, applies the transition, then writes status and audit row in one
        transaction; the event goes out only after a reported commit. */
    method ApplyTransition(id: Uuid.Id, event: Event, actor: string, reason: string, now: Nanos, outcome: Outcome)
      returns (r: Result<Policy, ServiceError>)
      requires Valid()
      modifies this
      ensures Valid()
      ensures Settled(old(Store()), Store(), PerformEvent(old(Store()), id, event, actor, reason, now), outcome, r)
      ensures Transitioned(old(Store()), Store(), id, event, SourceOf(event), TargetOf(event), actor, reason, now, outcome, r)
      ensures published == old(published) + Announcement(r, Events.EventTypeForTransition(TargetOf(event)), actor, reason)
    {
      var found := GetById(id);
      if found.Failure? {
        return Failure(found.error);
      }
      var p := found.value;
      EventFixesEdge(p.status, event);
      var next := Transition(p.status, event);
      if next.None? {
        return Failure(InvalidTransition(p.status, event));
      }
      var from := p.status;
      p := p.(status := next.value, updatedAt := now);
      var transaction := Store();
      transaction := Execute(transaction, SetStatus(id, next.value, p.updatedAt));
      transaction := Execute(transaction, AddAudit(AuditRow(id, from, next.value, actor, reason, p.updatedAt)));
      TransactionOf(Store(), StatusChange(from, p, actor, reason), transaction);
      var error := CommitTransaction(transaction, outcome);
      if error.Some? {
        return Failure(error.value);
      }
      Events.NamesAgreeAndReadBack(next.value);
      published := published + [Events.BuildTransitionEvent(Events.ServiceEventType(next.value), p, actor, reason)];
      return Success(p);
    }

    method Submit(id: Uuid.Id, actor: string, now: Nanos, outcome: Outcome) returns (r: Result<Policy, ServiceError>)
      requires Valid()
      modifies this
      ensures Valid()
      ensures Settled(old(Store()), Store(), Perform(old(Store()), ChangeJob(id, SubmitDraft, actor, now)), outcome, r)
      ensures Transitioned(old(Store()), Store(), id, Lifecycle.Submit, Draft, Submitted, actor, "", now, outcome, r)
      ensures published == old(published) + Announcement(r, "submitted", actor, "")
    {
      RequestIsEvent(Store(), id, SubmitDraft, actor, now);
      r := ApplyTransition(id, Lifecycle.Submit, actor, "", now, outcome);
    }

    method Activate(id: Uuid.Id, actor: string, now: Nanos, outcome: Outcome) returns (r: Result<Policy, ServiceError>)
      requires Valid()
      modifies this
      ensures Valid()
      ensures Settled(old(Store()), Store(), Perform(old(Store()), ChangeJob(id, ActivateSubmitted, actor, now)), outcome, r)
      ensures Transitioned(old(Store()), Store(), id, Lifecycle.Activate, Submitted, Active, actor, "UNDERWRITER_APPROVED", now, outcome, r)
      ensures published == old(published) + Announcement(r, "activated", actor, "UNDERWRITER_APPROVED")
    {
      RequestIsEvent(Store(), id, ActivateSubmitted, actor, now);
      r := ApplyTransition(id, Lifecycle.Activate, actor, "UNDERWRITER_APPROVED", now, outcome);
    }

    method Reject(id: Uuid.Id, actor: string, reason: string, now: Nanos, outcome: Outcome)
      returns (r: Result<Policy, ServiceError>)
      requires Valid()
      modifies this
      ensures Valid()
      ensures Settled(old(Store()), Store(), Perform(old(Store()), ChangeJob(id, RejectSubmitted(reason), actor, now)), outcome, r)
      ensures var given := if reason == "" then "UNDERWRITER_REJECTED" else reason;
              && Transitioned(old(Store()), Store(), id, Lifecycle.Reject, Submitted, Rejected, actor, given, now, outcome, r)
              && published == old(published) + Announcement(r, "rejected", actor, given)
    {
      var given := reason;
      if given == "" {
        given := "UNDERWRITER_REJECTED";
      }
      RequestIsEvent(Store(), id, RejectSubmitted(reason), actor, now);
      r := ApplyTransition(id, Lifecycle.Reject, actor, given, now, outcome);
    }

    method CancelActivePolicy(id: Uuid.Id, actor: string, reason: string, now: Nanos, outcome: Outcome)
      returns (r: Result<Policy, ServiceError>)
      requires Valid()
      modifies this
      ensures Valid()
      ensures Settled(old(Store()), Store(), Perform(old(Store()), ChangeJob(id, CancelActive(reason), actor, now)), outcome, r)
      ensures if reason == "" then r == Failure(ReasonRequired) && Store() == old(Store())
              else Transitioned(old(Store()), Store(), id, Lifecycle.Cancel, Active, Cancelled, actor, reason, now, outcome, r)
      ensures published == old(published) + Announcement(r, "cancelled", actor, reason)
    {
      if reason == "" {
        return Failure(ReasonRequired);
      }
      RequestIsEvent(Store(), id, CancelActive(reason), actor, now);
      r := ApplyTransition(id, Lifecycle.Cancel, actor, reason, now, outcome);
    }

    method Expire(id: Uuid.Id, actor: string, now: Nanos, outcome: Outcome) returns (r: Result<Policy, ServiceError>)
      requires Valid()
      modifies this
      ensures Valid()
      ensures Settled(old(Store()), Store(), Perform(old(Store()), ChangeJob(id, ExpireActive, actor, now)), outcome, r)
      ensures Transitioned(old(Store()), Store(), id, Lifecycle.Expire, Active, Expired, actor, "REGULATORY", now, outcome, r)
      ensures published == old(published) + Announcement(r, "expired", actor, "REGULATORY")
    {
      RequestIsEvent(Store(), id, ExpireActive, actor, now);
      r := ApplyTransition(id, Lifecycle.Expire, actor, "REGULATORY", now, outcome);
      assert TargetOf(Lifecycle.Expire) == Expired;
    }

    /** Copies the database's answer, the policy's rows by time, out row by row. */
    method ListHistory(id: Uuid.Id, answer: seq<AuditRow>) returns (r: Result<seq<AuditRow>, ServiceError>)
      requires History.ByTime(answer, LogOf(audit, id))
      ensures r == if id in policies then Success(answer) else Failure(PolicyNotFound)
      ensures forall i :: 0 <= i < |answer| ==> answer[i].policy == id
      ensures forall row: AuditRow :: row.policy == id ==> multiset(answer)[row] == multiset(audit)[row]
      ensures forall i, j :: 0 <= i < j < |answer| ==> answer[i].occurredAt <= answer[j].occurredAt
    {
      History.AnswerHolds(answer, audit, id);
      var found := GetById(id);
      if found.Failure? {
        return Failure(found.error);
      }
      var logs := [];
      for i := 0 to |answer|
        invariant logs == answer[..i]
      {
        logs := logs + [answer[i]];
      }
      assert logs == answer;
      return Success(logs);
    }
  }
}
