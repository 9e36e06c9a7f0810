/** Attestations: a status gate, an upload, then a record; and the aligned listing of documents
    and their links. */
module Documents {
  import opened Wrappers
  import opened Calendar
  import opened Lifecycle
  import opened Database
  import opened Protocol
  import Policy
  import Uuid

  datatype DocumentError =
    | NoStore
    | NotFound
    | Forbidden(status: Status)
    | GeneratorFailed
    | UploadFailed
    | RecordFailed

  datatype Attestation = Attestation(document: Document, url: string, expiresAt: Nanos)

  /** What the generator and the object store answer to one request. */
  datatype Uploaded = Uploaded(key: string, url: string)

  /** Newest first, and a permutation of the policy's documents; ties in any order. */
  ghost predicate NewestFirst(answer: seq<Document>, documents: seq<Document>, id: Uuid.Id) {
    && multiset(answer) == multiset(DocumentsOf(documents, id))
    && forall i, j :: 0 <= i < j < |answer| ==> answer[i].createdAt >= answer[j].createdAt
  }

  function DocumentsOf(documents: seq<Document>, id: Uuid.Id): seq<Document> {
    if documents == [] then []
    else
      DocumentsOf(documents[..|documents| - 1], id)
      + if documents[|documents| - 1].policy == id then [documents[|documents| - 1]] else []
  }

  /** Each document of the policy as often as it is recorded, and no other policy's. */
  lemma {:induction false} DocumentsOfCounts(documents: seq<Document>, id: Uuid.Id, d: Document)
    ensures multiset(DocumentsOf(documents, id))[d] == if d.policy == id then multiset(documents)[d] else 0
  {
    if documents != [] {
      var init, last := documents[..|documents| - 1], documents[|documents| - 1];
      DocumentsOfCounts(init, id, d);
      assert documents == init + [last];
    }
  }

  lemma AnswerHolds(answer: seq<Document>, documents: seq<Document>, id: Uuid.Id)
    requires NewestFirst(answer, documents, id)
    ensures forall i :: 0 <= i < |answer| ==> answer[i].policy == id
    ensures forall d: Document :: d.policy == id ==> multiset(answer)[d] == multiset(documents)[d]
  {
    forall d: Document
      ensures multiset(answer)[d] == if d.policy == id then multiset(documents)[d] else 0
    {
      DocumentsOfCounts(documents, id, d);
    }
    forall i | 0 <= i < |answer|
      ensures answer[i].policy == id
    {
      assert answer[i] in multiset(answer);
    }
  }

  class DocumentService {
    const configured: bool
    const urlTtl: Nanos
    var policies: map<Uuid.Id, Policy.Policy>
    var uploads: set<string>
    var documents: seq<Document>

    constructor (configured: bool, urlTtl: Nanos, policies: map<Uuid.Id, Policy.Policy>)
      ensures this.configured == configured && this.urlTtl == urlTtl && this.policies == policies
      ensures uploads == {} && documents == [] && Valid()
    {
      this.configured, this.urlTtl, this.policies := configured, urlTtl, policies;
      uploads, documents := {}, [];
    }

    /** Every recorded document's key names a finished upload. */
    ghost predicate Valid()
      reads this
    {
      forall i :: 0 <= i < |documents| ==> documents[i].key in uploads
    }

    method GenerateAttestation(id: Uuid.Id, generated: bool, upload: Option<Uploaded>, now: Nanos, recorded: Outcome, later: Nanos)
      returns (r: Result<Attestation, DocumentError>)
      requires Valid()
      modifies this`uploads, this`documents
      ensures Valid()
      ensures var eligible := configured && id in policies && (policies[id].status == Active || policies[id].status == Amended);
              var uploaded := eligible && generated && upload.Some?;
              && (r.Success? <==> uploaded && recorded == Acknowledged)
              && (r.Failure? ==>
                    match r.error
                    case NoStore => !configured
                    case NotFound => configured && id !in policies
                    case Forbidden(status) => configured && id in policies && status == policies[id].status && !eligible
                    case GeneratorFailed => eligible && !generated
                    case UploadFailed => eligible && generated && upload.None?
                    case RecordFailed => uploaded && recorded != Acknowledged)
              && uploads == old(uploads) + (if uploaded then {upload.value.key} else {})
              && documents == old(documents) +
                   (if uploaded && recorded != NotApplied
                    then [Document(id, "attestation", upload.value.key, Policy.Stored(now))] else [])
      ensures r.Success? ==> r.value == Attestation(Document(id, "attestation", upload.value.key, now),
                                                    upload.value.url, later + urlTtl)
    {
      if !configured {
        return Failure(NoStore);
      }
      if id !in policies {
        return Failure(NotFound);
      }
      var status := policies[id].status;
      if status != Active && status != Amended {
        return Failure(Forbidden(status));
      }
      if !generated {
        return Failure(GeneratorFailed);
      }
      if upload.None? {
        return Failure(UploadFailed);
      }
      uploads := uploads + {upload.value.key};
      var document := Document(id, "attestation", upload.value.key, now);
      if recorded != NotApplied {
        documents := documents + [document.(createdAt := Policy.Stored(document.createdAt))];
      }
      if recorded != Acknowledged {
        return Failure(RecordFailed);
      }
      return Success(Attestation(document, upload.value.url, later + urlTtl));
    }

    /** Copies the database's answer and signs one link per document, in the same order. A key
        that cannot be signed, like every key without a store, gets an empty link. */
    method ListDocuments(id: Uuid.Id, answer: seq<Document>, presign: map<string, string>)
      returns (r: Result<(seq<Document>, seq<string>), DocumentError>)
      requires NewestFirst(answer, documents, id)
      ensures r.Failure? <==> id !in policies
      ensures r.Failure? ==> r.error == NotFound
      ensures r.Success? ==>
                && (forall i :: 0 <= i < |r.value.0| ==> r.value.0[i].policy == id)
                && (forall d: Document :: d.policy == id ==> multiset(r.value.0)[d] == multiset(documents)[d])
                && (forall i, j :: 0 <= i < j < |r.value.0| ==> r.value.0[i].createdAt >= r.value.0[j].createdAt)
                && r.value.0 == answer && |r.value.1| == |answer|
                && forall i :: 0 <= i < |answer| ==>
                     r.value.1[i] == if configured && answer[i].key in presign then presign[answer[i].key] else ""
    {
      if id !in policies {
        return Failure(NotFound);
      }
      AnswerHolds(answer, documents, id);
      var urls := [];
      for i := 0 to |answer|
        invariant |urls| == i
        invariant forall k :: 0 <= k < i ==>
                    urls[k] == if configured && answer[k].key in presign then presign[answer[k].key] else ""
      {
        if configured {
          urls := urls + [if answer[i].key in presign then presign[answer[i].key] else ""];
        } else {
          urls := urls + [""];
        }
      }
      return Success((answer, urls));
    }
  }

  // ---- the call and the protocol ----------------------------------------------------------------

  /** The steps of one attestation request in the interleaved protocol. */
  function Steps(r: nat, id: Uuid.Id, generated: bool, upload: Option<Uploaded>, now: Nanos, recorded: Outcome): seq<Action> {
    [BeginAttestation(r, id)]
    + if !generated || upload.None? then [Stop(r)] else [Upload(r, upload.value.key), Record(r, now, recorded)]
  }

  /** A call with a configured store leaves uploads and documents exactly as the protocol's steps
      of one request do, wherever it breaks off. */
  lemma CallRefinesSteps(s: State, r: nat, id: Uuid.Id, generated: bool, upload: Option<Uploaded>, now: Nanos, recorded: Outcome)
    requires r !in s.requests
    ensures var eligible := id in s.db.policies && (s.db.policies[id].status == Active || s.db.policies[id].status == Amended);
            var uploaded := eligible && generated && upload.Some?;
            var t := After(s, Steps(r, id, generated, upload, now, recorded));
            && t.uploads == s.uploads + (if uploaded then {upload.value.key} else {})
            && t.documents == s.documents +
                 (if uploaded && recorded != NotApplied
                  then [Document(id, "attestation", upload.value.key, Policy.Stored(now))] else [])
            && t.db == s.db && t.stream == s.stream && r !in t.requests
  {
    StepsEnd(s, r, id, generated, upload, now, recorded);
    if generated && upload.Some? {
      FinishedSteps(s, r, id, upload.value.key, now, recorded);
    }
  }

  lemma StepsEnd(s: State, r: nat, id: Uuid.Id, generated: bool, upload: Option<Uploaded>, now: Nanos, recorded: Outcome)
    ensures After(s, Steps(r, id, generated, upload, now, recorded)) ==
            var begun := NextBeginAttestation(s, r, id);
            if !generated || upload.None? then Without(begun, r)
            else NextRecord(NextUpload(begun, r, upload.value.key), r, now, recorded)
  {
    if !generated || upload.None? {
      AfterTwo(s, BeginAttestation(r, id), Stop(r));
      assert Steps(r, id, generated, upload, now, recorded) == [BeginAttestation(r, id), Stop(r)];
    } else {
      var key := upload.value.key;
      AfterThree(s, BeginAttestation(r, id), Upload(r, key), Record(r, now, recorded));
      assert Steps(r, id, generated, upload, now, recorded) == [BeginAttestation(r, id), Upload(r, key), Record(r, now, recorded)];
    }
  }

  lemma FinishedSteps(s: State, r: nat, id: Uuid.Id, key: string, now: Nanos, recorded: Outcome)
    requires r !in s.requests
    ensures var eligible := id in s.db.policies && (s.db.policies[id].status == Active || s.db.policies[id].status == Amended);
            var t := NextRecord(NextUpload(NextBeginAttestation(s, r, id), r, key), r, now, recorded);
            && t.uploads == s.uploads + (if eligible then {key} else {})
            && t.documents == s.documents +
                 (if eligible && recorded != NotApplied
                  then [Document(id, "attestation", key, Policy.Stored(now))] else [])
            && t.db == s.db && t.stream == s.stream && r !in t.requests
  {
  }
}
