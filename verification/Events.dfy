/** Lifecycle events: their names, and the envelope that goes on the wire. */
module Events {
  import opened Wrappers
  import opened Calendar
  import opened Lifecycle
  import opened Policy
  import Timestamp
  import Uuid

  /** The name the service gives a committed transition; other statuses keep their own text. */
  function ServiceEventType(next: Status): string {
    if next == Submitted then "submitted"
    else if next == Active then "activated"
    else if next == Rejected then "rejected"
    else if next == Amended then "amended"
    else if next == Cancelled then "cancelled"
    else if next == Expired then "expired"
    else StatusText(next)
  }

  /** The events package's own naming map. */
  function EventTypeForTransition(to: Status): string {
    match to
    case Submitted => "submitted"
    case Active => "activated"
    case Rejected => "rejected"
    case Amended => "amended"
    case Cancelled => "cancelled"
    case Expired => "expired"
    case _ => StatusText(to)
  }

  /** The status an event type announces, "created" standing for draft. */
  function Announced(eventType: string): Option<Status> {
    if eventType == "created" then Some(Draft)
    else if eventType == "submitted" then Some(Submitted)
    else if eventType == "activated" then Some(Active)
    else if eventType == "rejected" then Some(Rejected)
    else if eventType == "amended" then Some(Amended)
    else if eventType == "cancelled" then Some(Cancelled)
    else if eventType == "expired" then Some(Expired)
    else None
  }

  /** Both naming maps agree on every status, and the name of a transition's target can be
      read back; the other statuses announce nothing. */
  lemma NamesAgreeAndReadBack(to: Status)
    ensures ServiceEventType(to) == EventTypeForTransition(to)
    ensures Announced(ServiceEventType(to)) ==
            if (exists from :: Edge(from, to)) then Some(to) else None
    ensures ServiceEventType(to) == if to == Active then "activated" else StatusText(to)
  {
    assert Transition(Draft, Submit) == Some(Submitted) && Transition(Submitted, Activate) == Some(Active);
    assert Transition(Submitted, Reject) == Some(Rejected) && Transition(Active, Amend) == Some(Amended);
    assert Transition(Active, Cancel) == Some(Cancelled) && Transition(Active, Expire) == Some(Expired);
    assert Edge(Draft, Submitted) && Edge(Submitted, Active) && Edge(Submitted, Rejected);
    assert Edge(Active, Amended) && Edge(Active, Cancelled) && Edge(Active, Expired);
    assert "created"[0] == 'c' && |"terminated"| == 10 && |"suspended"| == 9 && |"draft"| == 5;
    assert |"submitted"| == 9 && "submitted"[1] == 'u' && |"activated"| == 9 && "activated"[0] == 'a';
    assert "suspended"[2] == 's' && "submitted"[2] == 'b' && "rejected"[0] == 'r' && |"rejected"| == 8;
    assert |"cancelled"| == 9 && "cancelled"[0] == 'c' && |"created"| == 7;
    assert |"expired"| == 7 && "expired"[0] == 'e' && |"amended"| == 7 && "amended"[0] == 'a';
    assert "rejected"[0] == 'r';
  }

  datatype PolicyEvent = PolicyEvent(
    eventType: string,
    policyId: string,
    policy: Policy,
    actor: string,
    reason: string,
    occurredAt: Nanos)

  function BuildTransitionEvent(eventType: string, p: Policy, actor: string, reason: string): PolicyEvent {
    PolicyEvent(eventType, Uuid.Text(p.id), p, actor, reason, p.updatedAt)
  }

  function BuildCreatedEvent(p: Policy, actor: string): PolicyEvent {
    PolicyEvent("created", Uuid.Text(p.id), p, actor, "", p.createdAt)
  }

  const SOURCE := "ktayl-policy-service"

  datatype EventData = EventData(
    policyId: string, policyNumber: string, holder: string, product: string, status: string,
    actor: string, reason: string, effective: string, expiry: string)

  datatype CloudEvent = CloudEvent(
    specVersion: string, id: string, source: string, eventType: string, contentType: string,
    time: string, data: EventData)

  /** The wire envelope; its id is a fresh UUID supplied from outside. */
  function ToCloudEvent(e: PolicyEvent, freshId: Uuid.Id): CloudEvent {
    var p := e.policy;
    CloudEvent("1.0", Uuid.Text(freshId), SOURCE, "com.ktayl.policy." + e.eventType, "application/json",
               Timestamp.FormatSeconds(e.occurredAt),
               EventData(Uuid.Text(p.id), p.number, p.holder, p.product, StatusText(p.status), e.actor, e.reason,
                         Timestamp.FormatSeconds(p.effective), Timestamp.FormatSeconds(p.expiry)))
  }

  /** For a policy as it is created, the transition builder makes the creation event. */
  lemma CreationThroughTransitionBuilder(p: Policy, actor: string)
    ensures BuildTransitionEvent("created", p, actor, "") == BuildCreatedEvent(p, actor) <==> p.updatedAt == p.createdAt
  {
  }

  /** The envelope tells the event, field by field: identifiers and statuses read back, and each
      printed time tells its second. */
  predicate Announces(m: CloudEvent, e: PolicyEvent, freshId: Uuid.Id) {
    && m.specVersion == "1.0" && m.source == "ktayl-policy-service" && m.contentType == "application/json"
    && Uuid.Parse(m.id) == Some(freshId)
    && m.eventType == "com.ktayl.policy." + e.eventType
    && Timestamp.SecondText(m.time, e.occurredAt)
    && Uuid.Parse(m.data.policyId) == Some(e.policy.id) && m.data.policyNumber == e.policy.number
    && m.data.holder == e.policy.holder && m.data.product == e.policy.product
    && StatusOf(m.data.status) == Some(e.policy.status)
    && m.data.actor == e.actor && m.data.reason == e.reason
    && Timestamp.SecondText(m.data.effective, e.policy.effective)
    && Timestamp.SecondText(m.data.expiry, e.policy.expiry)
  }

  lemma EnvelopeAnnounces(e: PolicyEvent, freshId: Uuid.Id)
    ensures Announces(ToCloudEvent(e, freshId), e, freshId)
  {
    Uuid.RoundTrip(freshId);
    Uuid.RoundTrip(e.policy.id);
    StatusTextReadsBack(e.policy.status, StatusText(e.policy.status));
    Timestamp.PrintsSecond(e.occurredAt);
    Timestamp.PrintsSecond(e.policy.effective);
    Timestamp.PrintsSecond(e.policy.expiry);
  }
}
