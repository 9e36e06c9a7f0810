/** What reaches the event stream in every interleaving: each message stands for one committed
    creation or audit row, and no two message ids stand for the same one. */
module Delivery {
  import opened Wrappers
  import opened Calendar
  import opened Lifecycle
  import opened Policy
  import opened Database
  import opened Requests
  import opened Protocol
  import opened Safety
  import Events
  import Timestamp
  import Uuid

  /** The committed fact behind a message. */
  predicate CauseExists(db: Db, cause: Cause) {
    match cause
    case CreationOf(id) => id in db.policies
    case AuditAt(index) => index < |db.audit|
  }

  /** Type, policy, status, actor, reason and time of the message are those of the fact. */
  predicate Tells(db: Db, m: Events.CloudEvent, cause: Cause)
    requires CauseExists(db, cause)
  {
    && m.source == Events.SOURCE
    && match cause
       case CreationOf(id) =>
         m.eventType == "com.ktayl.policy." + "created" && m.data.policyId == Uuid.Text(id)
         && m.data.status == StatusText(Draft) && m.time == Timestamp.FormatSeconds(db.policies[id].createdAt)
       case AuditAt(index) =>
         var row := db.audit[index];
         m.eventType == "com.ktayl.policy." + Events.EventTypeForTransition(row.to)
         && m.data.policyId == Uuid.Text(row.policy) && m.data.status == StatusText(row.to)
         && m.data.actor == row.actor && m.data.reason == row.reason
         && m.time == Timestamp.FormatSeconds(row.occurredAt)
  }

  /** Any envelope made from the event tells the fact. */
  ghost predicate EventTells(db: Db, event: Events.PolicyEvent, cause: Cause) {
    CauseExists(db, cause) && forall freshId :: Tells(db, Events.ToCloudEvent(event, freshId), cause)
  }

  predicate BuiltOk(db: Db, id: string, b: Built) {
    b.message.id == id && CauseExists(db, b.cause) && Tells(db, b.message, b.cause)
  }

  predicate Recorded(built: map<string, Built>, m: Events.CloudEvent) {
    m.id in built && built[m.id].message == m
  }

  ghost predicate PhaseOk(db: Db, built: map<string, Built>, phase: Phase) {
    match phase
    case Announcing(event, cause) => EventTells(db, event, cause) && Unused(built, cause)
    case Sending(message, attempts) => Recorded(built, message)
    case _ => true
  }

  ghost predicate Unused(built: map<string, Built>, cause: Cause) {
    forall id :: id in built ==> built[id].cause != cause
  }

  /** No two messages were built for the same fact. */
  ghost predicate Injective(built: map<string, Built>) {
    forall id, other | id in built && other in built :: built[id].cause == built[other].cause ==> id == other
  }

  ghost predicate AnnouncedOnce(requests: map<nat, Phase>) {
    forall q, r | q in requests && r in requests && requests[q].Announcing? && requests[r].Announcing? ::
      requests[q].cause == requests[r].cause ==> q == r
  }

  ghost predicate MessagesOk(s: State) {
    && (forall id :: id in s.built ==> BuiltOk(s.db, id, s.built[id]))
    && Injective(s.built)
    && (forall r :: r in s.requests ==> PhaseOk(s.db, s.built, s.requests[r]))
    && AnnouncedOnce(s.requests)
    && (forall i :: 0 <= i < |s.stream| ==> Recorded(s.built, s.stream[i]))
  }

  lemma TellsLater(before: Db, after: Db, m: Events.CloudEvent, cause: Cause)
    requires Extends(before, after) && CauseExists(before, cause) && Tells(before, m, cause)
    ensures CauseExists(after, cause) && Tells(after, m, cause)
  {
  }

  lemma EventTellsLater(before: Db, after: Db, event: Events.PolicyEvent, cause: Cause)
    requires Extends(before, after) && EventTells(before, event, cause)
    ensures EventTells(after, event, cause)
  {
  }

  lemma StoreMoves(s: State, db: Db)
    requires MessagesOk(s) && Extends(s.db, db)
    ensures MessagesOk(s.(db := db))
  {
    var t := s.(db := db);
    forall id | id in t.built
      ensures BuiltOk(t.db, id, t.built[id])
    {
      assert BuiltOk(s.db, id, s.built[id]);
      TellsLater(s.db, db, s.built[id].message, s.built[id].cause);
    }
    forall r | r in t.requests
      ensures PhaseOk(t.db, t.built, t.requests[r])
    {
      assert PhaseOk(s.db, s.built, s.requests[r]);
      if s.requests[r].Announcing? {
        EventTellsLater(s.db, db, s.requests[r].event, s.requests[r].cause);
      }
    }
    assert forall i :: 0 <= i < |s.stream| ==> Recorded(s.built, s.stream[i]);
  }

  /** Requests may come, go and move on, as long as they announce nothing new and send only
      messages that were built. */
  lemma RequestsMove(s: State, t: State)
    requires MessagesOk(s) && t.db == s.db && t.built == s.built && t.stream == s.stream
    requires forall r :: r in t.requests ==>
               (r in s.requests && t.requests[r] == s.requests[r])
               || (!t.requests[r].Announcing? && (t.requests[r].Sending? ==> Recorded(s.built, t.requests[r].message)))
    ensures MessagesOk(t)
  {
  }

  /** A fact nobody has announced or sent may be announced. */
  lemma NewAnnouncement(s: State, r: nat, event: Events.PolicyEvent, cause: Cause)
    requires MessagesOk(s) && EventTells(s.db, event, cause) && Unused(s.built, cause)
    requires forall q :: q in s.requests && s.requests[q].Announcing? ==> s.requests[q].cause != cause
    ensures MessagesOk(With(s, r, Announcing(event, cause)))
  {
  }

  /** A new message for a fact that nobody announces any more is remembered. */
  lemma NewMessage(s: State, message: Events.CloudEvent, cause: Cause)
    requires MessagesOk(s) && message.id !in s.built && Unused(s.built, cause)
    requires CauseExists(s.db, cause) && Tells(s.db, message, cause)
    requires forall q :: q in s.requests && s.requests[q].Announcing? ==> s.requests[q].cause != cause
    ensures MessagesOk(s.(built := s.built[message.id := Built(message, cause)]))
  {
    var built := s.built[message.id := Built(message, cause)];
    forall q | q in s.requests
      ensures PhaseOk(s.db, built, s.requests[q])
    {
      PhaseSurvives(s.db, s.built, s.requests[q], message, cause);
    }
    forall i | 0 <= i < |s.stream|
      ensures Recorded(built, s.stream[i])
    {
      assert Recorded(s.built, s.stream[i]);
    }
    InjectiveGrows(s.built, message, cause);
  }

  lemma PhaseSurvives(db: Db, built: map<string, Built>, phase: Phase, message: Events.CloudEvent, cause: Cause)
    requires PhaseOk(db, built, phase) && message.id !in built && (phase.Announcing? ==> phase.cause != cause)
    ensures PhaseOk(db, built[message.id := Built(message, cause)], phase)
  {
  }

  lemma InjectiveGrows(built: map<string, Built>, message: Events.CloudEvent, cause: Cause)
    requires Injective(built) && Unused(built, cause)
    ensures Injective(built[message.id := Built(message, cause)])
  {
  }

  lemma StreamGrows(s: State, message: Events.CloudEvent)
    requires MessagesOk(s) && Recorded(s.built, message)
    ensures MessagesOk(s.(stream := s.stream + [message]))
  {
    var t := s.(stream := s.stream + [message]);
    forall id | id in t.built
      ensures BuiltOk(t.db, id, t.built[id])
    {
      assert BuiltOk(s.db, id, s.built[id]);
    }
    forall q | q in t.requests
      ensures PhaseOk(t.db, t.built, t.requests[q])
    {
      assert PhaseOk(s.db, s.built, s.requests[q]);
    }
    forall i | 0 <= i < |t.stream|
      ensures Recorded(t.built, t.stream[i])
    {
      assert Recorded(s.built, if i < |s.stream| then s.stream[i] else message);
    }
  }

  /** The fact a write is about to create has been announced by nobody. */
  lemma FreshCause(s: State, cause: Cause)
    requires MessagesOk(s) && !CauseExists(s.db, cause)
    ensures Unused(s.built, cause)
    ensures forall q :: q in s.requests && s.requests[q].Announcing? ==> s.requests[q].cause != cause
  {
  }

  lemma CreationTells(db: Db, a: Action)
    requires a.Create? && Perform(db, CreateJob(a.id, a.input, a.actor, a.now)).Success?
    ensures var after := Perform(db, CreateJob(a.id, a.input, a.actor, a.now)).value;
            EventTells(after, Events.BuildTransitionEvent("created", Build(a.id, a.input, a.now), a.actor, ""),
                       CreationOf(a.id))
  {
    StoredKeepsSecond(a.now);
    Timestamp.SecondsOnly(a.now, Stored(a.now));
  }

  lemma TransitionTells(db: Db, plan: Plan)
    requires plan.StatusChange? && plan.row.id in db.policies
    ensures var after := ExecuteAll(db, Statements(plan));
            EventTells(after, Events.BuildTransitionEvent(Events.ServiceEventType(plan.row.status), plan.row,
                                                          plan.actor, plan.reason), AuditAt(|db.audit|))
  {
    StatusChangeEffect(db, plan);
    StoredKeepsSecond(plan.row.updatedAt);
    Timestamp.SecondsOnly(plan.row.updatedAt, Stored(plan.row.updatedAt));
    Events.NamesAgreeAndReadBack(plan.row.status);
  }

  lemma CreateStep(s: State, a: Action)
    requires WellFormed(s) && MessagesOk(s) && a.Create?
    ensures MessagesOk(NextCreate(s, a))
  {
    var job := CreateJob(a.id, a.input, a.actor, a.now);
    if Perform(s.db, job).Success? {
      var after := Perform(s.db, job).value;
      CreateKeepsTable(s.db, job);
      FreshCause(s, CreationOf(a.id));
      StoreMoves(s, after);
      CreationTells(s.db, a);
      NewAnnouncement(s.(db := after), a.r,
                      Events.BuildTransitionEvent("created", Build(a.id, a.input, a.now), a.actor, ""), CreationOf(a.id));
    }
  }

  lemma WriteRowStep(s: State, r: nat, outcome: Outcome)
    requires WellFormed(s) && MessagesOk(s)
    ensures MessagesOk(NextWriteRow(s, r, outcome))
  {
    if r in s.requests && s.requests[r].Writing? {
      WriteRowKeeps(s, r, outcome);
      RequestsMove(s, Without(s, r));
      StoreMoves(Without(s, r), NextWriteRow(s, r, outcome).db);
    }
  }

  lemma CommitStores(s: State, r: nat)
    requires WellFormed(s) && MessagesOk(s) && ReadyToCommit(s, r)
    ensures s.requests[r].executed == Statements(s.requests[r].plan) && s.requests[r].plan.row.id in s.db.policies
    ensures MessagesOk(NextCommit(s, r, ReplyLost))
  {
    assert RequestOk(s.db, s.requests[r]);
    WholeTransaction(s.requests[r]);
    RequestsMove(s, Without(s, r));
    TransitionKeepsTable(s.db, s.requests[r].plan);
    StoreMoves(Without(s, r), ExecuteAll(s.db, Statements(s.requests[r].plan)));
  }

  lemma CommitAnnounces(s: State, r: nat)
    requires WellFormed(s) && MessagesOk(s) && ReadyToCommit(s, r)
    ensures MessagesOk(NextCommit(s, r, Acknowledged))
  {
    var plan, cause, stored := s.requests[r].plan, AuditAt(|s.db.audit|), NextCommit(s, r, ReplyLost);
    CommitStores(s, r);
    FreshCause(s, cause);
    TransitionTells(s.db, plan);
    var event := Events.BuildTransitionEvent(Events.ServiceEventType(plan.row.status), plan.row, plan.actor, plan.reason);
    NewAnnouncement(stored, r, event, cause);
    assert With(stored, r, Announcing(event, cause)).requests == s.requests[r := Announcing(event, cause)];
  }

  lemma CommitStep(s: State, r: nat, outcome: Outcome)
    requires WellFormed(s) && MessagesOk(s)
    ensures MessagesOk(NextCommit(s, r, outcome))
  {
    if ReadyToCommit(s, r) {
      if outcome == NotApplied {
        RequestsMove(s, Without(s, r));
      } else {
        CommitStores(s, r);
        CommitAnnounces(s, r);
      }
    }
  }

  lemma BuildStep(s: State, r: nat, freshId: Uuid.Id)
    requires MessagesOk(s)
    ensures MessagesOk(NextBuildMessage(s, r, freshId))
  {
    if r in s.requests && s.requests[r].Announcing? && Uuid.Text(freshId) !in s.built {
      var cause, message := s.requests[r].cause, Events.ToCloudEvent(s.requests[r].event, freshId);
      assert PhaseOk(s.db, s.built, s.requests[r]);
      BuiltMessage(s, r, message, cause);
    }
  }

  lemma BuiltMessage(s: State, r: nat, message: Events.CloudEvent, cause: Cause)
    requires MessagesOk(s) && message.id !in s.built && Unused(s.built, cause)
    requires CauseExists(s.db, cause) && Tells(s.db, message, cause)
    requires forall q :: q in s.requests && q != r && s.requests[q].Announcing? ==> s.requests[q].cause != cause
    ensures MessagesOk(With(s, r, Sending(message, 0)).(built := s.built[message.id := Built(message, cause)]))
  {
    var dropped, built := Without(s, r), s.built[message.id := Built(message, cause)];
    RequestsMove(s, dropped);
    NewMessage(dropped, message, cause);
    RequestsMove(dropped.(built := built), With(s, r, Sending(message, 0)).(built := built));
  }

  lemma SendStep(s: State, r: nat, outcome: Outcome)
    requires MessagesOk(s)
    ensures MessagesOk(NextSend(s, r, outcome))
  {
    if r in s.requests && s.requests[r].Sending? {
      var t := NextSend(s, r, outcome);
      assert PhaseOk(s.db, s.built, s.requests[r]);
      assert t.requests == Without(s, r).requests || t.requests == With(s, r, t.requests[r]).requests;
      RequestsMove(s, t.(stream := s.stream));
      if outcome != NotApplied {
        StreamGrows(t.(stream := s.stream), s.requests[r].message);
      }
    }
  }

  lemma QuietStep(s: State, a: Action)
    requires MessagesOk(s)
    requires !a.Create? && !a.WriteRow? && !a.Commit? && !a.BuildMessage? && !a.Send?
    ensures MessagesOk(Next(s, a))
  {
    QuietShape(s, a);
    RequestsMove(s, Next(s, a));
  }

  lemma QuietShape(s: State, a: Action)
    requires !a.Create? && !a.WriteRow? && !a.Commit? && !a.BuildMessage? && !a.Send?
    ensures var t := Next(s, a);
            && t.db == s.db && t.built == s.built && t.stream == s.stream
            && forall r :: r in t.requests ==>
                 (r in s.requests && t.requests[r] == s.requests[r])
                 || (!t.requests[r].Announcing? && !t.requests[r].Sending?)
  {
  }

  lemma StepMessages(s: State, a: Action)
    requires WellFormed(s) && MessagesOk(s)
    ensures MessagesOk(Next(s, a))
  {
    if a.Create? {
      CreateStep(s, a);
    } else if a.WriteRow? {
      WriteRowStep(s, a.r, a.outcome);
    } else if a.Commit? {
      CommitStep(s, a.r, a.outcome);
    } else if a.BuildMessage? {
      BuildStep(s, a.r, a.freshId);
    } else if a.Send? {
      SendStep(s, a.r, a.outcome);
    } else {
      QuietStep(s, a);
    }
  }

  lemma {:induction false} RunMessages(actions: seq<Action>)
    ensures MessagesOk(Run(actions))
  {
    if actions != [] {
      var init := actions[..|actions| - 1];
      RunWellFormed(init);
      RunMessages(init);
      StepMessages(Run(init), actions[|actions| - 1]);
    }
  }

  // ---- retries --------------------------------------------------------------------------------

  function Copies(stream: seq<Events.CloudEvent>, id: string): nat {
    if stream == [] then 0
    else Copies(stream[..|stream| - 1], id) + if stream[|stream| - 1].id == id then 1 else 0
  }

  lemma CopiesAppend(stream: seq<Events.CloudEvent>, m: Events.CloudEvent, id: string)
    ensures Copies(stream + [m], id) == Copies(stream, id) + if m.id == id then 1 else 0
  {
  }

  lemma {:induction false} NoCopies(stream: seq<Events.CloudEvent>, id: string)
    requires forall i :: 0 <= i < |stream| ==> stream[i].id != id
    ensures Copies(stream, id) == 0
  {
    if stream != [] {
      NoCopies(stream[..|stream| - 1], id);
    }
  }

  ghost predicate SendingOnce(requests: map<nat, Phase>) {
    forall q, r | q in requests && r in requests && requests[q].Sending? && requests[r].Sending? ::
      requests[q].message.id == requests[r].message.id ==> q == r
  }

  ghost predicate AttemptsOk(s: State, phase: Phase) {
    phase.Sending? ==>
      phase.message.id in s.built && Copies(s.stream, phase.message.id) <= phase.attempts < MAX_ATTEMPTS
  }

  ghost predicate CopiesOk(s: State) {
    && SendingOnce(s.requests)
    && (forall r :: r in s.requests ==> AttemptsOk(s, s.requests[r]))
    && (forall id :: Copies(s.stream, id) <= MAX_ATTEMPTS)
  }

  /** A step that starts no sending leaves the counts alone. */
  lemma CopiesQuiet(s: State, t: State)
    requires CopiesOk(s) && t.stream == s.stream && t.built == s.built
    requires forall r :: r in t.requests && t.requests[r].Sending? ==> r in s.requests && s.requests[r] == t.requests[r]
    ensures CopiesOk(t)
  {
  }

  lemma CopiesBuild(s: State, r: nat, freshId: Uuid.Id)
    requires CopiesOk(s) && MessagesOk(s)
    ensures CopiesOk(NextBuildMessage(s, r, freshId))
  {
    if r in s.requests && s.requests[r].Announcing? && Uuid.Text(freshId) !in s.built {
      var message := Events.ToCloudEvent(s.requests[r].event, freshId);
      NewSender(s, r, message, Built(message, s.requests[r].cause));
    }
  }

  /** Nobody sends, and the stream does not hold, a message whose id is new. */
  lemma UnknownId(s: State, id: string)
    requires CopiesOk(s) && MessagesOk(s) && id !in s.built
    ensures Copies(s.stream, id) == 0
    ensures forall q :: q in s.requests && s.requests[q].Sending? ==> s.requests[q].message.id != id
  {
    forall i | 0 <= i < |s.stream|
      ensures s.stream[i].id != id
    {
      assert Recorded(s.built, s.stream[i]);
    }
    NoCopies(s.stream, id);
    forall q | q in s.requests && s.requests[q].Sending?
      ensures s.requests[q].message.id != id
    {
      assert AttemptsOk(s, s.requests[q]);
    }
  }

  lemma NewSender(s: State, r: nat, message: Events.CloudEvent, entry: Built)
    requires CopiesOk(s) && MessagesOk(s) && message.id !in s.built
    ensures CopiesOk(With(s, r, Sending(message, 0)).(built := s.built[message.id := entry]))
  {
    var t := With(s, r, Sending(message, 0)).(built := s.built[message.id := entry]);
    UnknownId(s, message.id);
    forall q | q in t.requests
      ensures AttemptsOk(t, t.requests[q])
    {
      assert q != r ==> AttemptsOk(s, s.requests[q]);
    }
  }

  lemma CopiesSend(s: State, r: nat, outcome: Outcome)
    requires CopiesOk(s)
    ensures CopiesOk(NextSend(s, r, outcome))
  {
    if r in s.requests && s.requests[r].Sending? {
      var t, m := NextSend(s, r, outcome), s.requests[r].message;
      assert AttemptsOk(s, s.requests[r]);
      forall id
        ensures Copies(t.stream, id) <= Copies(s.stream, id) + (if id == m.id then 1 else 0)
      {
        CopiesAppend(s.stream, m, id);
      }
      forall q | q in t.requests
        ensures AttemptsOk(t, t.requests[q])
      {
        assert AttemptsOk(s, s.requests[q]);
      }
      forall id
        ensures Copies(t.stream, id) <= MAX_ATTEMPTS
      {
        assert Copies(s.stream, id) <= MAX_ATTEMPTS;
      }
    }
  }

  lemma SendingOnlyFromBuild(s: State, a: Action, r: nat)
    requires !a.BuildMessage? && !a.Send?
    requires r in Next(s, a).requests && Next(s, a).requests[r].Sending?
    ensures r in s.requests && s.requests[r] == Next(s, a).requests[r]
  {
  }

  lemma OtherStepsSendNothing(s: State, a: Action)
    requires !a.BuildMessage? && !a.Send?
    ensures Next(s, a).stream == s.stream && Next(s, a).built == s.built
  {
  }

  lemma {:induction false} RunCopies(actions: seq<Action>)
    ensures CopiesOk(Run(actions))
  {
    if actions != [] {
      var init, a := actions[..|actions| - 1], actions[|actions| - 1];
      RunCopies(init);
      RunMessages(init);
      if a.BuildMessage? {
        CopiesBuild(Run(init), a.r, a.freshId);
      } else if a.Send? {
        CopiesSend(Run(init), a.r, a.outcome);
      } else {
        OtherStepsSendNothing(Run(init), a);
        forall r | r in Next(Run(init), a).requests && Next(Run(init), a).requests[r].Sending?
          ensures r in Run(init).requests && Run(init).requests[r] == Next(Run(init), a).requests[r]
        {
          SendingOnlyFromBuild(Run(init), a, r);
        }
        CopiesQuiet(Run(init), Next(Run(init), a));
      }
    }
  }

  /** In every interleaving, with stops, lost replies and ambiguous commits anywhere: each
      delivered message tells one committed creation or audit row, messages with different
      ids tell different ones, messages with the same id are identical, and there are at most
      three of them. */
  lemma NoPhantomEvents(actions: seq<Action>)
    ensures var s := Run(actions);
            && (forall i :: 0 <= i < |s.stream| ==>
                  var m := s.stream[i];
                  m.id in s.built && s.built[m.id].message == m
                  && CauseExists(s.db, s.built[m.id].cause) && Tells(s.db, m, s.built[m.id].cause))
            && Injective(s.built)
            && (forall id :: Copies(s.stream, id) <= 3)
  {
    RunMessages(actions);
    RunCopies(actions);
    var s := Run(actions);
    forall i | 0 <= i < |s.stream|
      ensures Recorded(s.built, s.stream[i]) && BuiltOk(s.db, s.stream[i].id, s.built[s.stream[i].id])
    {
      assert Recorded(s.built, s.stream[i]);
    }
  }
}
