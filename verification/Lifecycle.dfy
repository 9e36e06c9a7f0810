/** The policy lifecycle: the statuses, the events, and the transition table. */
module Lifecycle {
  import opened Wrappers

  datatype Status =
    | Draft | Submitted | Active | Rejected | Amended | Cancelled | Expired | Suspended | Terminated

  datatype Event = Submit | Activate | Reject | Amend | Confirm | Cancel | Expire

  /** The table, row by row; a pair without an entry is an invalid transition. */
  function Transition(current: Status, event: Event): Option<Status> {
    match (current, event)
    case (Draft, Submit) => Some(Submitted)
    case (Submitted, Activate) => Some(Active)
    case (Submitted, Reject) => Some(Rejected)
    case (Active, Amend) => Some(Amended)
    case (Active, Cancel) => Some(Cancelled)
    case (Active, Expire) => Some(Expired)
    case (Amended, Confirm) => Some(Active)
    case _ => None
  }

  ghost predicate Edge(from: Status, to: Status) {
    exists event :: Transition(from, event) == Some(to)
  }

  function StatusText(s: Status): string {
    match s
    case Draft => "draft"
    case Submitted => "submitted"
    case Active => "active"
    case Rejected => "rejected"
    case Amended => "amended"
    case Cancelled => "cancelled"
    case Expired => "expired"
    case Suspended => "suspended"
    case Terminated => "terminated"
  }

  /** The statuses the table check of the database admits, in its own order. */
  const CHECKED_STATUSES: seq<string> :=
    ["draft", "submitted", "active", "rejected", "amended", "cancelled", "expired", "suspended", "terminated"]

  /** The status a text names. */
  function StatusOf(text: string): Option<Status> {
    if text == "draft" then Some(Draft)
    else if text == "submitted" then Some(Submitted)
    else if text == "active" then Some(Active)
    else if text == "rejected" then Some(Rejected)
    else if text == "amended" then Some(Amended)
    else if text == "cancelled" then Some(Cancelled)
    else if text == "expired" then Some(Expired)
    else if text == "suspended" then Some(Suspended)
    else if text == "terminated" then Some(Terminated)
    else None
  }

  /** A text names a status exactly when it is that status's text, so the texts differ. */
  lemma StatusTextReadsBack(s: Status, text: string)
    ensures StatusOf(text) == Some(s) <==> text == StatusText(s)
  {
    StatusTextsDiffer(s, Draft);
    StatusTextsDiffer(s, Submitted);
    StatusTextsDiffer(s, Active);
    StatusTextsDiffer(s, Rejected);
    StatusTextsDiffer(s, Amended);
    StatusTextsDiffer(s, Cancelled);
    StatusTextsDiffer(s, Expired);
    StatusTextsDiffer(s, Suspended);
  }

  /** Length and a few letters tell any two texts apart. */
  lemma StatusTextsDiffer(s: Status, t: Status)
    ensures s != t ==> StatusText(s) != StatusText(t)
  {
    assert |"submitted"| == |"cancelled"| == |"suspended"| == 9 && |"rejected"| == 8 && |"terminated"| == 10;
    assert |"active"| == 6 && |"amended"| == |"expired"| == 7 && |"draft"| == 5;
    assert "submitted"[2] == 'b' && "suspended"[2] == 's' && "cancelled"[2] == 'n';
    assert "amended"[0] == 'a' && "expired"[0] == 'e';
  }

  /** The database's check admits exactly the texts of statuses. */
  lemma CheckAdmitsStatuses(text: string)
    ensures text in CHECKED_STATUSES <==> StatusOf(text).Some?
  {
    assert text == CHECKED_STATUSES[0] <==> text == "draft";
  }

  /** What a policy has gone through after a sequence of events, rejected events skipped. */
  datatype Journey = Journey(status: Status, accepted: nat, amends: nat, confirms: nat)

  function Travel(events: seq<Event>): Journey {
    if events == [] then Journey(Draft, 0, 0, 0)
    else
      var before, event := Travel(events[..|events| - 1]), events[|events| - 1];
      match Transition(before.status, event)
      case None => before
      case Some(next) =>
        Journey(next, before.accepted + 1,
                before.amends + (if event == Amend then 1 else 0),
                before.confirms + (if event == Confirm then 1 else 0))
  }

  /** The number of steps to a status when an amendment and its confirmation count as none. */
  function Depth(s: Status): nat {
    match s
    case Draft => 0
    case Submitted => 1
    case Rejected => 2
    case Active => 2
    case Amended => 1
    case Cancelled => 3
    case Expired => 3
    case Suspended => 0
    case Terminated => 0
  }

  predicate HasTableRow(s: Status) {
    s == Draft || s == Submitted || s == Active || s == Amended
  }

  /** The one status in which an event is accepted. */
  function SourceOf(event: Event): Status {
    match event
    case Submit => Draft
    case Activate | Reject => Submitted
    case Amend | Cancel | Expire => Active
    case Confirm => Amended
  }

  /** The one status to which an event leads. */
  function TargetOf(event: Event): Status {
    match event
    case Submit => Submitted
    case Activate | Confirm => Active
    case Reject => Rejected
    case Amend => Amended
    case Cancel => Cancelled
    case Expire => Expired
  }

  /** Read by event instead of by status, the table gives each event one status in which it
      is accepted and one to which it leads. */
  lemma EventFixesEdge(s: Status, event: Event)
    ensures Transition(s, event) == if s == SourceOf(event) then Some(TargetOf(event)) else None
  {
  }

  /** However long the event sequence, the accepted steps are fixed by the final status and
      the number of amendments, and an amendment is open exactly in the amended status. */
  lemma {:induction false} JourneyLaw(events: seq<Event>)
    ensures var j := Travel(events);
            && j.accepted == Depth(j.status) + 2 * j.amends
            && j.accepted <= 3 + 2 * j.amends
            && j.amends == j.confirms + (if j.status == Amended then 1 else 0)
            && j.status != Suspended && j.status != Terminated
  {
    if events != [] {
      JourneyLaw(events[..|events| - 1]);
    }
  }

  /** A status without a table row is final: no later event moves the policy again. */
  lemma {:induction false} AbsorbingStatus(events: seq<Event>, more: seq<Event>)
    requires !HasTableRow(Travel(events).status)
    ensures Travel(events + more) == Travel(events)
  {
    if more == [] {
      assert events + more == events;
    } else {
      AbsorbingStatus(events, more[..|more| - 1]);
      var all := events + more;
      assert all[..|all| - 1] == events + more[..|more| - 1];
    }
  }

  /** Conversely a status with a table row can still be left. */
  lemma OnlyRowlessStatusesAbsorb(s: Status)
    ensures HasTableRow(s) <==> exists event :: Transition(s, event).Some?
  {
    assert Transition(Draft, Submit).Some? && Transition(Submitted, Activate).Some?;
    assert Transition(Active, Amend).Some? && Transition(Amended, Confirm).Some?;
  }
}
