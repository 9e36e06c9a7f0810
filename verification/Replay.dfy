/** Rebuilding a policy's status from the types of its published events alone. */
module Replay {
  import opened Wrappers
  import opened Lifecycle
  import opened Policy
  import opened Database
  import opened Requests
  import opened Serial
  import Events
  import Uuid

  datatype Emission = Emission(policy: Uuid.Id, eventType: string)

  /** What a request publishes once it has been committed; edits and draft cancellations are silent. */
  function Emits(db: Db, job: Job): seq<Emission> {
    if Perform(db, job).Failure? then []
    else
      match job
      case CreateJob(id, _, _, _) => [Emission(id, "created")]
      case ChangeJob(id, command, _, _) =>
        if EventAndReason(command).None? || id !in Step(db, job).policies then []
        else [Emission(id, Events.ServiceEventType(Step(db, job).policies[id].status))]
  }

  function Emitted(jobs: seq<Job>): seq<Emission> {
    if jobs == [] then []
    else
      var init := jobs[..|jobs| - 1];
      Emitted(init) + Emits(Run(init), jobs[|jobs| - 1])
  }

  function TypesOf(emissions: seq<Emission>, id: Uuid.Id): seq<string> {
    if emissions == [] then []
    else
      var last := emissions[|emissions| - 1];
      TypesOf(emissions[..|emissions| - 1], id) + if last.policy == id then [last.eventType] else []
  }

  /** A consumer that only accepts a creation first and table edges after it. */
  ghost function Rebuild(types: seq<string>): Option<Status> {
    if types == [] then None
    else
      var before := Rebuild(types[..|types| - 1]);
      var announced :- Events.Announced(types[|types| - 1]);
      if |types| == 1 then (if announced == Draft then Some(Draft) else None)
      else if before.Some? && Edge(before.value, announced) then Some(announced)
      else None
  }

  ghost predicate Rebuilt(db: Db, emissions: seq<Emission>, id: Uuid.Id) {
    if id !in db.policies then TypesOf(emissions, id) == []
    else
      Rebuild(TypesOf(emissions, id)) ==
      Some(if db.policies[id].status == Terminated then Draft else db.policies[id].status)
  }

  lemma TypesOfAppend(emissions: seq<Emission>, e: Emission, id: Uuid.Id)
    ensures TypesOf(emissions + [e], id) == TypesOf(emissions, id) + if e.policy == id then [e.eventType] else []
  {
  }

  lemma RebuildAppend(types: seq<string>, to: Status)
    requires Rebuild(types).Some? && Edge(Rebuild(types).value, to)
    ensures Rebuild(types + [Events.ServiceEventType(to)]) == Some(to)
  {
    var longer := types + [Events.ServiceEventType(to)];
    assert longer[..|types|] == types && types != [];
    Events.NamesAgreeAndReadBack(to);
  }

  lemma RebuiltCreate(db: Db, emissions: seq<Emission>, job: Job, id: Uuid.Id)
    requires job.CreateJob? && Perform(db, job).Success? && Rebuilt(db, emissions, id)
    ensures Rebuilt(Step(db, job), emissions + [Emission(job.id, "created")], id)
  {
    TypesOfAppend(emissions, Emission(job.id, "created"), id);
    var types := TypesOf(emissions + [Emission(job.id, "created")], id);
    if id == job.id {
      assert types == ["created"] && types[..0] == [];
      assert Rebuild(types) == Some(Draft);
    } else {
      assert types == TypesOf(emissions, id);
    }
  }

  lemma RebuiltTransition(db: Db, emissions: seq<Emission>, plan: Plan, id: Uuid.Id)
    requires plan.StatusChange? && plan.row.id in db.policies && plan.from == db.policies[plan.row.id].status
    requires plan.from != Terminated && plan.row.status != Terminated && Edge(plan.from, plan.row.status)
    requires Rebuilt(db, emissions, id)
    ensures Rebuilt(ExecuteAll(db, Statements(plan)),
                    emissions + [Emission(plan.row.id, Events.ServiceEventType(plan.row.status))], id)
  {
    StatusChangeEffect(db, plan);
    var e := Emission(plan.row.id, Events.ServiceEventType(plan.row.status));
    TypesOfAppend(emissions, e, id);
    if id == plan.row.id {
      RebuildAppend(TypesOf(emissions, id), plan.row.status);
    } else {
      assert TypesOf(emissions + [e], id) == TypesOf(emissions, id);
    }
  }

  /** A change either keeps the status silently, ends a draft silently, or announces its edge. */
  lemma ChangeEmits(db: Db, job: Job, plan: Plan)
    requires Exact(db) && job.ChangeJob? && Perform(db, job).Success?
    requires Decide(job.command, job.actor, job.now, db.policies[job.id]) == Success(plan)
    ensures plan.row.id == job.id
    ensures plan.WholeRow? ==> Emits(db, job) == [] && Step(db, job).policies.Keys == db.policies.Keys
    ensures plan.StatusChange? ==>
              && Emits(db, job) == [Emission(job.id, Events.ServiceEventType(plan.row.status))]
              && Step(db, job) == ExecuteAll(db, Statements(plan))
              && plan.from == db.policies[job.id].status && Edge(plan.from, plan.row.status)
              && plan.from != Terminated && plan.row.status != Terminated
  {
    assert ExactFor(db, job.id);
    if plan.StatusChange? {
      StatusChangeEffect(db, plan);
      NeverTerminates(job.command, db.policies[job.id].status);
    }
  }

  lemma NeverTerminates(command: Command, from: Status)
    requires EventAndReason(command).Some? && Transition(from, EventAndReason(command).value.0).Some?
    ensures from != Terminated && Transition(from, EventAndReason(command).value.0) != Some(Terminated)
  {
  }

  lemma RebuiltStep(db: Db, emissions: seq<Emission>, job: Job, id: Uuid.Id)
    requires Exact(db) && Rebuilt(db, emissions, id)
    ensures Rebuilt(Step(db, job), emissions + Emits(db, job), id)
  {
    if Perform(db, job).Failure? {
      assert emissions + Emits(db, job) == emissions;
    } else if job.CreateJob? {
      RebuiltCreate(db, emissions, job, id);
    } else {
      var plan := Decide(job.command, job.actor, job.now, db.policies[job.id]).value;
      ChangeEmits(db, job, plan);
      if plan.StatusChange? {
        RebuiltTransition(db, emissions, plan, id);
      } else {
        assert emissions + Emits(db, job) == emissions;
      }
    }
  }

  lemma {:induction false} RebuiltRun(jobs: seq<Job>, id: Uuid.Id)
    ensures Rebuilt(Run(jobs), Emitted(jobs), id)
  {
    if jobs != [] {
      var init := jobs[..|jobs| - 1];
      RebuiltRun(init, id);
      ExactRun(init);
      RebuiltStep(Run(init), Emitted(init), jobs[|jobs| - 1], id);
    }
  }

  /** When every event of a serial run is published, the event types of a policy rebuild its
      stored status, except that the silent cancellation of a draft is not seen. */
  lemma EventsRebuildStatus(jobs: seq<Job>, id: Uuid.Id)
    requires id in Run(jobs).policies
    ensures var rebuilt, status := Rebuild(TypesOf(Emitted(jobs), id)), Run(jobs).policies[id].status;
            && (rebuilt == Some(status) <==> status != Terminated)
            && (status == Terminated ==> rebuilt == Some(Draft))
  {
    RebuiltRun(jobs, id);
  }
}
