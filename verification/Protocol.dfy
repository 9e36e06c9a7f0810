/** The service as interleaved steps of any number of requests over one committed store.
    A request reads its row outside any transaction, so the private copy it then writes from
    may be stale; any write may be applied and still be reported as failed; any request may
    stop between two steps. */
module Protocol {
  import opened Wrappers
  import opened Calendar
  import opened Lifecycle
  import opened Policy
  import opened Database
  import opened Requests
  import Events
  import Uuid

  /** How a write ended: done and reported, done but reported as an error, or not done. */
  datatype Outcome = Acknowledged | ReplyLost | NotApplied

  /** The committed fact an event is about. */
  datatype Cause = CreationOf(id: Uuid.Id) | AuditAt(index: nat)

  datatype Document = Document(policy: Uuid.Id, kind: string, key: string, createdAt: Nanos)

  /** Where an unfinished request stands. */
  datatype Phase =
    | Writing(job: Job, plan: Plan)
    | InTransaction(job: Job, plan: Plan, executed: seq<Statement>)
    | Announcing(event: Events.PolicyEvent, cause: Cause)
    | Sending(message: Events.CloudEvent, attempts: nat)
    | Attesting(policy: Uuid.Id)
    | Recording(policy: Uuid.Id, key: string)

  /** A message as it was built, and what it was built for. */
  datatype Built = Built(message: Events.CloudEvent, cause: Cause)

  /** The field `built` remembers every message under its id; no step reads it except to keep
      message ids fresh. */
  datatype State = State(
    db: Db,
    uploads: set<string>,
    documents: seq<Document>,
    stream: seq<Events.CloudEvent>,
    requests: map<nat, Phase>,
    built: map<string, Built>)

  const INITIAL: State := State(EMPTY, {}, [], [], map[], map[])

  const MAX_ATTEMPTS := 3

  datatype Action =
    | Create(r: nat, id: Uuid.Id, input: NewPolicy, actor: string, now: Nanos, outcome: Outcome)
    | Read(r: nat, id: Uuid.Id, command: Command, actor: string, now: Nanos)
    | WriteRow(r: nat, outcome: Outcome)
    | RunStatement(r: nat)
    | Commit(r: nat, outcome: Outcome)
    | Stop(r: nat)
    | BuildMessage(r: nat, freshId: Uuid.Id)
    | Send(r: nat, outcome: Outcome)
    | BeginAttestation(r: nat, id: Uuid.Id)
    | Upload(r: nat, key: string)
    | Record(r: nat, now: Nanos, outcome: Outcome)

  function With(s: State, r: nat, phase: Phase): State {
    s.(requests := s.requests[r := phase])
  }

  function Without(s: State, r: nat): State {
    s.(requests := s.requests - {r})
  }

  /** One step; a step whose request is not at the right point changes nothing. */
  function Next(s: State, a: Action): State {
    match a
    case Create(r, id, input, actor, now, outcome) => NextCreate(s, a)
    case Read(r, id, command, actor, now) => NextRead(s, a)
    case WriteRow(r, outcome) => NextWriteRow(s, r, outcome)
    case RunStatement(r) => NextRunStatement(s, r)
    case Commit(r, outcome) => NextCommit(s, r, outcome)
    case Stop(r) => Without(s, r)
    case BuildMessage(r, freshId) => NextBuildMessage(s, r, freshId)
    case Send(r, outcome) => NextSend(s, r, outcome)
    case BeginAttestation(r, id) => NextBeginAttestation(s, r, id)
    case Upload(r, key) => NextUpload(s, r, key)
    case Record(r, now, outcome) => NextRecord(s, r, now, outcome)
  }

  /** Validation, the INSERT, and on a reported success the creation event. */
  function NextCreate(s: State, a: Action): State
    requires a.Create?
  {
    var p := Build(a.id, a.input, a.now);
    match Perform(s.db, CreateJob(a.id, a.input, a.actor, a.now))
    case Failure(_) => s
    case Success(after) =>
      if a.r in s.requests || a.outcome == NotApplied then s
      else if a.outcome == ReplyLost then s.(db := after)
      else With(s.(db := after), a.r,
                Announcing(Events.BuildTransitionEvent("created", p, a.actor, ""), CreationOf(a.id)))
  }

  /** The row is read and the decision taken on the copy. */
  function NextRead(s: State, a: Action): State
    requires a.Read?
  {
    if a.r in s.requests || a.id !in s.db.policies || LacksReason(a.command) then s
    else
      match Decide(a.command, a.actor, a.now, s.db.policies[a.id])
      case Failure(_) => s
      case Success(plan) =>
        var job := ChangeJob(a.id, a.command, a.actor, a.now);
        if plan.WholeRow? then With(s, a.r, Writing(job, plan)) else With(s, a.r, InTransaction(job, plan, []))
  }

  function NextWriteRow(s: State, r: nat, outcome: Outcome): State {
    if r !in s.requests || !s.requests[r].Writing? then s
    else
      match Update(s.db, s.requests[r].plan.row)
      case Failure(_) => Without(s, r)
      case Success(after) => if outcome == NotApplied then Without(s, r) else Without(s, r).(db := after)
  }

  predicate StatementLeft(phase: Phase) {
    phase.InTransaction? && phase.plan.StatusChange? && |phase.executed| < |Statements(phase.plan)|
  }

  function NextRunStatement(s: State, r: nat): State {
    if r !in s.requests || !StatementLeft(s.requests[r]) then s
    else
      var t := s.requests[r];
      With(s, r, t.(executed := t.executed + [Statements(t.plan)[|t.executed|]]))
  }

  predicate ReadyToCommit(s: State, r: nat) {
    r in s.requests && s.requests[r].InTransaction? && s.requests[r].plan.StatusChange? && !StatementLeft(s.requests[r])
  }

  /** The transaction takes effect as a whole or not at all, whatever is reported; only a
      reported success is announced. */
  function NextCommit(s: State, r: nat, outcome: Outcome): State {
    if !ReadyToCommit(s, r) then s
    else if outcome == NotApplied then Without(s, r)
    else
      var plan := s.requests[r].plan;
      var after := ExecuteAll(s.db, s.requests[r].executed);
      if outcome == ReplyLost then Without(s, r).(db := after)
      else
        With(s.(db := after), r,
             Announcing(Events.BuildTransitionEvent(Events.ServiceEventType(plan.row.status), plan.row,
                                                    plan.actor, plan.reason),
                        AuditAt(|s.db.audit|)))
  }

  /** The payload is built once, under an id no message has had. */
  function NextBuildMessage(s: State, r: nat, freshId: Uuid.Id): State {
    if r !in s.requests || !s.requests[r].Announcing? || Uuid.Text(freshId) in s.built then s
    else
      var message := Events.ToCloudEvent(s.requests[r].event, freshId);
      With(s, r, Sending(message, 0)).(built := s.built[message.id := Built(message, s.requests[r].cause)])
  }

  /** One attempt of the retry loop: it may reach the stream, and the reply may be lost. */
  function NextSend(s: State, r: nat, outcome: Outcome): State {
    if r !in s.requests || !s.requests[r].Sending? then s
    else
      var p := s.requests[r];
      var stream := if outcome == NotApplied then s.stream else s.stream + [p.message];
      if outcome == Acknowledged || p.attempts + 1 >= MAX_ATTEMPTS then Without(s, r).(stream := stream)
      else With(s, r, Sending(p.message, p.attempts + 1)).(stream := stream)
  }

  /** Only an active or amended policy, as just read, gets an attestation. */
  function NextBeginAttestation(s: State, r: nat, id: Uuid.Id): State {
    if r in s.requests || id !in s.db.policies then s
    else if s.db.policies[id].status == Active || s.db.policies[id].status == Amended then With(s, r, Attesting(id))
    else s
  }

  function NextUpload(s: State, r: nat, key: string): State {
    if r !in s.requests || !s.requests[r].Attesting? then s
    else With(s, r, Recording(s.requests[r].policy, key)).(uploads := s.uploads + {key})
  }

  function NextRecord(s: State, r: nat, now: Nanos, outcome: Outcome): State {
    if r !in s.requests || !s.requests[r].Recording? then s
    else
      var p := s.requests[r];
      var document := Document(p.policy, "attestation", p.key, Stored(now));
      if outcome == NotApplied then Without(s, r) else Without(s, r).(documents := s.documents + [document])
  }

  /** The state after any sequence of steps: every interleaving is such a sequence. */
  function Run(actions: seq<Action>): State {
    if actions == [] then INITIAL else Next(Run(actions[..|actions| - 1]), actions[|actions| - 1])
  }

  /** The request whose write a step applies to the store, if any. */
  function Applies(s: State, a: Action): seq<Job> {
    match a
    case Create(r, id, input, actor, now, outcome) =>
      var job := CreateJob(id, input, actor, now);
      if r !in s.requests && outcome != NotApplied && Perform(s.db, job).Success? then [job] else []
    case WriteRow(r, outcome) =>
      if r in s.requests && s.requests[r].Writing? && outcome != NotApplied
         && Update(s.db, s.requests[r].plan.row).Success? then [s.requests[r].job] else []
    case Commit(r, outcome) =>
      if ReadyToCommit(s, r) && outcome != NotApplied then [s.requests[r].job] else []
    case _ => []
  }

  /** The applied requests of a run, in commit order. */
  function Committed(actions: seq<Action>): seq<Job> {
    if actions == [] then []
    else
      var init := actions[..|actions| - 1];
      Committed(init) + Applies(Run(init), actions[|actions| - 1])
  }

  /** How many transition transactions of a run took effect on one policy. */
  function TransitionWrites(actions: seq<Action>, id: Uuid.Id): nat {
    if actions == [] then 0
    else
      var init, a := actions[..|actions| - 1], actions[|actions| - 1];
      var jobs := Applies(Run(init), a);
      TransitionWrites(init, id) + if a.Commit? && jobs != [] && jobs[0].id == id then 1 else 0
  }

  /** Some further steps from any state. */
  function After(s: State, steps: seq<Action>): State {
    if steps == [] then s else Next(After(s, steps[..|steps| - 1]), steps[|steps| - 1])
  }

  lemma {:induction false} AfterTwo(s: State, a: Action, b: Action)
    ensures After(s, [a, b]) == Next(Next(s, a), b)
  {
    assert [a, b][..1] == [a] && [a][..0] == [];
    assert After(s, [a]) == Next(s, a);
  }

  lemma {:induction false} AfterThree(s: State, a: Action, b: Action, c: Action)
    ensures After(s, [a, b, c]) == Next(Next(Next(s, a), b), c)
  {
    assert [a, b, c][..2] == [a, b];
    AfterTwo(s, a, b);
  }

  lemma RunAppend(actions: seq<Action>, a: Action)
    ensures Run(actions + [a]) == Next(Run(actions), a)
    ensures Committed(actions + [a]) == Committed(actions) + Applies(Run(actions), a)
  {
  }
}
