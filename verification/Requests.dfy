/** What each service request decides from the row it read, and what it then writes. */
module Requests {
  import opened Wrappers
  import opened Calendar
  import opened Lifecycle
  import opened Policy
  import opened Database
  import Uuid

  datatype NewPolicy = NewPolicy(number: string, holder: string, product: string, effective: Nanos, expiry: Nanos)

  datatype Command =
    | EditFields(holder: string, product: string, effective: Nanos, expiry: Nanos)
    | CancelDraft
    | SubmitDraft
    | ActivateSubmitted
    | RejectSubmitted(reason: string)
    | CancelActive(reason: string)
    | ExpireActive

  datatype ServiceError =
    | PolicyNotFound
    | ValidationFailed(rule: Invalid)
    | CannotCancel
    | ReasonRequired
    | InvalidTransition(from: Status, event: Event)
    | Refused(refusal: Refusal)
    | Unavailable

  function Build(id: Uuid.Id, input: NewPolicy, now: Nanos): Policy {
    Policy(id, input.number, input.holder, input.product, Draft, input.effective, input.expiry, now, now)
  }

  /** The event and the reason code of the requests that go through the transition table. */
  function EventAndReason(command: Command): Option<(Event, string)> {
    match command
    case SubmitDraft => Some((Submit, ""))
    case ActivateSubmitted => Some((Activate, "UNDERWRITER_APPROVED"))
    case RejectSubmitted(reason) => Some((Reject, if reason == "" then "UNDERWRITER_REJECTED" else reason))
    case CancelActive(reason) => Some((Cancel, reason))
    case ExpireActive => Some((Expire, "REGULATORY"))
    case _ => None
  }

  /** Cancelling an active policy needs a reason, checked before anything is read. */
  predicate LacksReason(command: Command) {
    command.CancelActive? && command.reason == ""
  }

  /** The write a request has settled on: a whole row, or a status change with its audit row. */
  datatype Plan =
    | WholeRow(row: Policy)
    | StatusChange(from: Status, row: Policy, actor: string, reason: string)

  /** The decision taken on a private copy of the row, before anything is written. */
  function Decide(command: Command, actor: string, now: Nanos, copy: Policy): Result<Plan, ServiceError> {
    match command
    case EditFields(holder, product, effective, expiry) =>
      var row := copy.(holder := holder, product := product, effective := effective, expiry := expiry,
                       updatedAt := now);
      (match Validate(row)
       case Some(rule) => Failure(ValidationFailed(rule))
       case None => Success(WholeRow(row)))
    case CancelDraft =>
      if copy.status != Draft then Failure(CannotCancel)
      else Success(WholeRow(copy.(status := Terminated, updatedAt := now)))
    case _ =>
      var (event, reason) := EventAndReason(command).value;
      Advance(event, actor, reason, now, copy)
  }

  /** The move along the transition table that every transition request shares. */
  function Advance(event: Event, actor: string, reason: string, now: Nanos, copy: Policy): Result<Plan, ServiceError> {
    match Transition(copy.status, event)
    case None => Failure(InvalidTransition(copy.status, event))
    case Some(next) => Success(StatusChange(copy.status, copy.(status := next, updatedAt := now), actor, reason))
  }

  function AuditOf(plan: Plan): AuditRow
    requires plan.StatusChange?
  {
    AuditRow(plan.row.id, plan.from, plan.row.status, plan.actor, plan.reason, plan.row.updatedAt)
  }

  /** The two statements of a transition's transaction, in order. */
  function Statements(plan: Plan): seq<Statement>
    requires plan.StatusChange?
  {
    [SetStatus(plan.row.id, plan.row.status, plan.row.updatedAt), AddAudit(AuditOf(plan))]
  }

  function Carry(db: Db, plan: Plan): Result<Db, ServiceError> {
    match plan
    case WholeRow(row) =>
      (match Update(db, row)
       case Success(after) => Success(after)
       case Failure(refusal) => Failure(Refused(refusal)))
    case StatusChange(_, _, _, _) => Success(ExecuteAll(db, Statements(plan)))
  }

  /** A whole request. */
  datatype Job =
    | CreateJob(id: Uuid.Id, input: NewPolicy, actor: string, now: Nanos)
    | ChangeJob(id: Uuid.Id, command: Command, actor: string, now: Nanos)

  /** A request run from start to end with nothing else in between and no outage. */
  function Perform(db: Db, job: Job): Result<Db, ServiceError> {
    match job
    case CreateJob(id, input, actor, now) =>
      var p := Build(id, input, now);
      (match Validate(p)
       case Some(rule) => Failure(ValidationFailed(rule))
       case None =>
         match Insert(db, p)
         case Success(after) => Success(after)
         case Failure(refusal) => Failure(Refused(refusal)))
    case ChangeJob(id, command, actor, now) =>
      if LacksReason(command) then Failure(ReasonRequired)
      else if id !in db.policies then Failure(PolicyNotFound)
      else
        var plan :- Decide(command, actor, now, db.policies[id]);
        Carry(db, plan)
  }

  /** Applying one event to one stored policy, with nothing else in between and no outage. */
  function PerformEvent(db: Db, id: Uuid.Id, event: Event, actor: string, reason: string, now: Nanos): Result<Db, ServiceError> {
    if id !in db.policies then Failure(PolicyNotFound)
    else
      var plan :- Advance(event, actor, reason, now, db.policies[id]);
      Carry(db, plan)
  }

  lemma StatusChangeEffect(db: Db, plan: Plan)
    requires plan.StatusChange? && plan.row.id in db.policies
    ensures var id := plan.row.id;
            var row := db.policies[id].(status := plan.row.status, updatedAt := Stored(plan.row.updatedAt));
            ExecuteAll(db, Statements(plan)) ==
            Db(db.policies[id := row], db.audit + [AuditOf(plan).(occurredAt := Stored(plan.row.updatedAt))])
  {
    var s := Statements(plan);
    var afterFirst := Execute(db, s[0]);
    assert s[1..] == [s[1]];
    assert ExecuteAll(afterFirst, [s[1]]) == ExecuteAll(Execute(afterFirst, s[1]), []);
  }
}
