# Policy service: a verified model

A Dafny model of the policy service: the policy table, its append-only audit log, the event
stream and the document store, the requests that change them, and the paged listing that reads
them. `dafny verify dfyconfig.toml` checks the whole project.

## What is modelled

**The lifecycle as an interleaved protocol.** A request reads its row outside any transaction,
decides on the private copy, and writes later: a status change and its audit row in one
transaction, or a whole row from the copy. `Protocol` holds any number of such requests over one
committed store. Its steps are creation, read, row write, statement, commit, stop, message
building, send attempt, and the three steps of an attestation; any sequence of steps is a run. A
write or send may be done and reported, done and reported as failed, or not done, and any request
may stop between two steps. The theorems on every run are in `Safety` (row validity, identities,
statuses), `Causality` (the path of table edges behind each status, one audit row per transition,
documents), `Delivery` (no phantom events) and `Payload` (what a message says of its policy was
stored of it). Stronger statements need requests on one policy not to overlap: `Overlap` shows that
such runs equal running the requests one at a time, states exactly when the chain survives overlap,
and exhibits a run in which it does not. `Undisturbed` says that a request left alone does all of
what the whole request does and announces it. `Serial`, `History` and `Replay` say what requests
run one at a time give: an exact audit chain, its reading by time, and a status that the published
events rebuild.

**Cursor paging.** `Listing` has the four query shapes, the repository's listing and the handler;
`Walk` follows the cursors from page to page, over a table that changes between the pages or
stands still. The texts of cursor, limit and status are part of the walk. Its tables hold creation
times of years 0 to 9999; a cursor made from any other year is refused, as `Cursor.RoundTrip` says.

**The cursor codec.** `Base64` (section 4 of RFC 4648), `Calendar` and `Timestamp` (section 5.6 of
RFC 3339 with trailing zeros of the fraction trimmed, and the leap rule of its Appendix C), `Uuid`
(section 4 of RFC 9562) and `Cursor`, which composes them; `Layout` says which timestamp texts are
read and what is printed where. An instant is a whole number of nanoseconds since
1970-01-01T00:00:00Z. Besides the round trips, each layer is pinned by itself: the calendar by one
date and one step, base64 and UUID text by their digits, and every refusal by what is refused.

**The service as objects.** `Service.PolicyService`, `Publisher.EventPublisher`,
`Documents.DocumentService` and `Listing.PolicyRepo` run the methods step by step on fields, each
against the functions the theorems are about.

Time, fresh identifiers, the outcome of each write and send, and the order of ties in a query
without a unique order are parameters. Two details of the database matter and are modelled: stored
times keep whole microseconds, and the table check on dates sees the stored times, so a row that
passes validation can still be refused.

## Where the code and its documents differ

The model follows the code.

- `PUT` is documented for drafts only (`api/openapi.yaml:122`); `Update` accepts every status
  (`internal/domain/policy_service.go:82-102`).
- The four statuses in `README.md:40-41` are old; nine exist (`internal/domain/policy.go:12-22`).
- Cancelling a draft writes neither audit row nor event (`internal/domain/policy_service.go:106-120`),
  so a terminated policy has an empty log and looks like a draft to a consumer of events.
- The UPDATE has no guard on the old status (`internal/domain/policy_service.go:193-196`), so two
  overlapping requests can both record a transition from the same status.
- The "ordered" history is ordered by time only (`internal/repository/postgres/audit_log.go:55`);
  it is commit order exactly when the stored times strictly increase.
- An event's time has whole seconds (`internal/events/policy_events.go:63`), the stored time
  microseconds; the two agree in the second.

## Model

| member | source | states |
|---|---|---|
| Lifecycle.JourneyLaw | internal/domain/state_machine.go:33-63 | for every event sequence from draft, rejected events skipped: accepted steps are fixed by the final status and the number of amendments, at most 3 + 2 per amendment, and an amendment is open exactly in the amended status |
| Lifecycle.AbsorbingStatus | internal/domain/state_machine.go:53-63 | once a status has no table row, no later events move the policy |
| Lifecycle.OnlyRowlessStatusesAbsorb | internal/domain/state_machine.go:33-49 | a status can be left if and only if it has a table row |
| Lifecycle.EventFixesEdge | internal/domain/state_machine.go:33-63 | read by event, the table accepts each event in exactly one status and leads it to exactly one |
| Lifecycle.StatusTextReadsBack | internal/domain/policy.go:12-22 | a text names a status exactly when it is that status's own text, so no two statuses share or exchange texts |
| Lifecycle.CheckAdmitsStatuses | db/migrations/000002_audit_log.up.sql:18-19 | the status check of the table admits exactly the texts of the nine statuses |
| Policy.FirstBrokenRule | internal/domain/policy.go:43-57 | a policy passes if and only if it breaks no rule; otherwise the reported error is the first rule it breaks |
| Policy.StoredKeepsSecond | db/migrations/000001_init_schema.up.sql:11-12 | the stored time is the last whole microsecond not after the given one; it lies in the same second and is stored unchanged |
| Requests.StatusChangeEffect | internal/domain/policy_service.go:193-211 | a committed transition changes status and update time of one row and appends one audit row of that time, and nothing else |
| Safety.StepKeeps | internal/domain/policy_service.go:48-236 | each step of any request keeps the table valid and every in-flight copy usable, deletes nothing, changes no id, number or creation time, and only appends to the log |
| Safety.TableAlwaysValid | internal/domain/policy.go:43-57 | in every interleaving rows have non-empty number, holder and product, start before they end, numbers are unique, and no status is amended or suspended, so the status check of the database always holds |
| Safety.IdentitiesFixed | internal/repository/postgres/policy.go:58-68 | from any moment of any run to any later one, rows stay and keep id, number and creation time, although stale copies are written back |
| Causality.StatusHasCausalPath | internal/domain/policy_service.go:82-120 | in every interleaving a stored status other than draft and terminated has a full path of table edges from draft, as a subsequence of the policy's own audit rows in commit order |
| Causality.AuditRowsAreEdges | internal/domain/policy_service.go:175-211 | in every interleaving each audit row is an edge of the table and belongs to a stored policy |
| Causality.OneRowPerTransition | internal/domain/policy_service.go:187-215 | a policy has exactly as many audit rows as transition transactions took effect on it, also when the commit reported an error |
| Causality.DocumentsFollowActivation | internal/domain/document_service.go:66-95 | when a document is recorded its policy already had an audit row into active and its key was already uploaded, in every interleaving |
| Overlap.NonOverlappingIsSerial | internal/domain/policy_service.go:166-215 | a run in which requests on one policy do not overlap leaves the same table and log as the same requests one at a time in commit order |
| Overlap.NonOverlappingIsExact | internal/domain/policy_service.go:106-120 | without overlap the log is an exact chain from draft to the current status, or empty with status draft or terminated, and has at most three rows |
| Overlap.NonOverlappingHistory | internal/repository/postgres/audit_log.go:50-75 | without overlap and with a ticking clock the history reads back in commit order, each row starting where the last ended, and no row is newer than the policy's update time |
| Overlap.ExactStepIff | internal/domain/policy_service.go:193-196 | a step keeps all logs exact if and only if the write it applies comes from the status in which the policy's log ends |
| Overlap.ExactIffUpToDate | internal/domain/policy_service.go:166-215 | in any interleaving every log is exact at every moment if and only if every applied write comes from the status the log then ends in |
| Overlap.OverlapBreaksChain | internal/domain/policy_service.go:167-196 | two submissions that both read the same draft leave two rows from draft, which is no chain |
| Overlap.SomeRunBreaksChain | internal/domain/policy_service.go:166-215 | a run from the empty store, one creation and two overlapping submissions, that ends with a broken chain |
| Undisturbed.StepsAreWhole | internal/domain/policy_service.go:48-215 | with nothing in between, the protocol's steps of any request leave exactly what the whole request leaves, or nothing when the write is not applied |
| Undisturbed.AcknowledgedIsAnnounced | internal/domain/policy_service.go:217-234 | an acknowledged creation or transition delivers exactly one message, telling the policy, the change, the actor, the reason and the time; an edit, a cancelled draft or a refused request delivers none |
| Undisturbed.EmitsAnnounced | internal/domain/policy_service.go:61-63 | the events from which the status is rebuilt are those that requests announce |
| Serial.ExactStep | internal/domain/policy_service.go:48-215 | any request run alone keeps every policy's log the exact chain of its status |
| Serial.WriteShape | internal/domain/policy_service.go:82-215 | a successful request changes one row, stamps it with its own time, and adds at most one audit row, for that policy and of that time |
| History.SortedAnswerExists | internal/repository/postgres/audit_log.go:51-57 | sorting the log by time is an answer the ordered query may give |
| History.AnswerHolds | internal/repository/postgres/audit_log.go:51-57 | such an answer holds every row of the policy as often as the trail does, and no other policy's |
| History.CommitOrderIffStrict | internal/repository/postgres/audit_log.go:51-57 | for an exact chain, every answer ordered by time is in commit order if and only if the stored times strictly increase |
| History.HistoryInCommitOrder | internal/domain/policy_service.go:154-163 | requests one at a time with a ticking clock: the history is the exact chain in commit order and never newer than the row |
| History.AtMostThreeRows | internal/domain/policy_service.go:122-151 | no service request amends, so a policy gets at most three audit rows, and the last one's status says how many |
| Events.NamesAgreeAndReadBack | internal/events/policy_events.go:101-119 | the service's switch and the naming map agree on every status, a name can be read back exactly when some transition leads to its status, and only the name for active differs from the status text |
| Events.CreationThroughTransitionBuilder | internal/events/policy_events.go:78-99 | the transition builder makes the creation event if and only if update and creation time agree, as they do at creation |
| Events.EnvelopeAnnounces | internal/events/policy_events.go:55-76 | the envelope tells the event field by field: ids and status read back, number, holder, product, actor and reason are the event's, and each printed time reads back as that time cut to its second |
| Replay.EventsRebuildStatus | internal/domain/policy_service.go:217-234 | the event types of a policy rebuild its stored status if and only if it is not terminated; for a cancelled draft they rebuild draft |
| Delivery.RunMessages | internal/domain/policy_service.go:57-63 | in every run each announced, built or delivered message tells one committed creation or audit row, and no two messages tell the same one |
| Delivery.RunCopies | internal/events/publisher.go:99-115 | in every run no message is in the stream more than three times, nor more often than its request has tried |
| Delivery.NoPhantomEvents | internal/domain/policy_service.go:201-234 | in every run, with stops, lost replies and ambiguous commits: deduplicating the stream by message id maps it injectively to committed creations and audit rows of the same policy, status, actor, reason and time |
| Payload.RunFaithful | internal/domain/policy_service.go:167-182 | in every run, each transition in flight, each announcement and each built message goes back to one committed version of its row, in the status the change starts from |
| Payload.DeliveredTerms | internal/events/policy_events.go:64-74 | in every run each delivered message names the policy of the fact it tells and carries the number, holder, product and dates stored of it at one moment, in the status the change starts from; the number is still the stored one |
| Publisher.LastAttemptIsFirstEnd | internal/events/publisher.go:100-115 | the loop ends at the first acknowledged or cancelled attempt, or at the last one allowed |
| Publisher.WaitsExactIffLongestFits | internal/events/publisher.go:99-113 | for every base, multiple and number of attempts, the 64-bit waits are the geometric ones if and only if the longest fits |
| Publisher.TotalWait | internal/events/publisher.go:99-113 | if nothing overflows, the waits before attempt k + 1 total base * (multiple^k - 1) / (multiple - 1) |
| Publisher.EventPublisher.Retry | internal/events/publisher.go:99-115 | for any number of attempts: how many are made, which waits are sat out, and that only copies of the one payload are appended, one per attempt that got through |
| Publisher.DeliveredCopies | internal/events/publisher.go:100-101 | every attempt that gets through leaves one copy of the same payload, the others none |
| Publisher.EventPublisher.Publish | internal/events/publisher.go:91-117 | one to three attempts with waits of 5 and then 25 seconds, 30 in all; as many copies of one payload as attempts got through, each telling the event field by field |
| Publisher.LoopRefinesSends | internal/events/domain_adapter.go:15-18 | with a context that is never cancelled, the loop leaves in the stream what the protocol's send steps leave, and the request is done |
| Service.PolicyService.GetById | internal/domain/policy_service.go:67-76 | the stored row, or not found |
| Service.PolicyService.InsertRow | internal/repository/postgres/policy.go:29-44 | the row is stored, or refused for a taken id or number or by the date check, or the outage leaves it done or undone |
| Service.PolicyService.UpdateRow | internal/repository/postgres/policy.go:58-68 | holder, product, status, dates and update time are overwritten and the rest of the row is kept |
| Service.PolicyService.CommitTransaction | internal/domain/policy_service.go:187-215 | what the transaction built takes effect as a whole or not at all, whatever is reported |
| Service.PolicyService.Create | internal/domain/policy_service.go:48-65 | succeeds exactly for good fields, stored dates in order, a new id and number and a reported write; the whole new row and log; which failing condition gives which error; the creation event exactly on success |
| Service.PolicyService.Update | internal/domain/policy_service.go:82-102 | succeeds for a known policy in any status exactly when its fields are good, the stored dates are in order and the write is reported; the whole resulting table; which failing condition gives which error; no audit row and no event |
| Service.PolicyService.Cancel | internal/domain/policy_service.go:106-120 | succeeds exactly for a draft and a reported write; only status and update time of the row change; neither audit row nor event; which failing condition gives which error |
| Service.PolicyService.ApplyTransition | internal/domain/policy_service.go:166-236 | accepted exactly in the event's one status; then row and audit row change together or not at all; success exactly for a reported commit, and only then one event named after the new status; otherwise the reason it failed |
| Service.PolicyService.Submit | internal/domain/policy_service.go:123-125 | accepted exactly for a draft, which moves to submitted with its audit row; one "submitted" event on success |
| Service.PolicyService.Activate | internal/domain/policy_service.go:128-130 | accepted exactly for a submitted policy, which moves to active under the approval code; one "activated" event on success |
| Service.PolicyService.Reject | internal/domain/policy_service.go:133-138 | accepted exactly for a submitted policy, which moves to rejected under the given reason or the default code; one "rejected" event on success |
| Service.PolicyService.CancelActivePolicy | internal/domain/policy_service.go:141-146 | without a reason refused and nothing changed; otherwise accepted exactly for an active policy, which moves to cancelled under that reason; one "cancelled" event on success |
| Service.PolicyService.Expire | internal/domain/policy_service.go:149-151 | accepted exactly for an active policy, which moves to expired under the regulatory code; one "expired" event on success |
| Service.PolicyService.ListHistory | internal/domain/policy_service.go:154-163 | all of the policy's audit rows, no other policy's, by time; or not found |
| Documents.DocumentService.GenerateAttestation | internal/domain/document_service.go:61-102 | succeeds exactly for a stored active or amended policy, a store, a generated file, an upload and a reported record; which failing condition gives which error; what was uploaded and recorded wherever the call breaks off; every recorded key names a finished upload |
| Documents.DocumentService.ListDocuments | internal/domain/document_service.go:105-128 | all documents recorded for the policy, as often as recorded, no other policy's, newest first; as many links in the same order, link i for key i, an unsigned key with an empty link |
| Documents.CallRefinesSteps | internal/domain/document_service.go:66-95 | a call leaves uploads and documents exactly as the protocol's attestation steps do, and touches no policy or event |
| Listing.QueryIsFilteredSort | internal/repository/postgres/policy.go:110-133 | selecting then sorting equals filtering the one sorted table, for every condition that means status and key |
| Listing.ListedIsPage | internal/repository/postgres/policy.go:97-133 | a listing is a page in plain terms: newest first and later ids first on ties, only rows of the status and older than the cursor, and an asked row is missing only from a full page, below its last row |
| Listing.DescendingUnique | internal/repository/postgres/policy.go:113 | a set of rows has one strictly descending order |
| Listing.PolicyRepo.ListFirst | internal/repository/postgres/policy.go:110-118 | both shapes without a cursor equal the one specification |
| Listing.PolicyRepo.ListBelow | internal/repository/postgres/policy.go:119-133 | both shapes with a cursor equal the one specification |
| Listing.PolicyRepo.List | internal/repository/postgres/policy.go:97-148 | for every status, cursor text and limit: such a page of the table, or the cursor's error exactly when the cursor is refused |
| Listing.LimitsAgree | internal/api/handlers/policy_handler.go:155-163 | the handler's limit is between 1 and 100 and is the limit the repository applies |
| Listing.LimitMeans | internal/api/handlers/policy_handler.go:157-163 | a numeral, bare or behind a plus, is taken when from 1 to 100; other numbers, negative ones, no text and text that is no number mean 20 |
| Listing.ReadParams | internal/api/handlers/policy_handler.go:153-167 | the parameters a query text stands for |
| Listing.Items | internal/api/handlers/policy_handler.go:63-75 | one item per row, in order, telling it field by field: id and status read back, number, holder and product are the row's, each printed time reads back as that time cut to its second |
| Listing.ListPolicies | internal/api/handlers/policy_handler.go:152-188 | the response tells the rows of such a page in order and names the last one in the next cursor exactly when the page is full; refused exactly for a refused cursor, with its error |
| Walk.WalkByKeys | internal/api/handlers/policy_handler.go:169-184 | following the cursor texts is following the keys of the last rows: every page but the last is full and each starts right below the one before |
| Walk.WalkDescends | internal/repository/postgres/policy.go:110-133 | keys strictly descend across all pages, whatever happens to the table in between |
| Walk.WalkOverChangingTable | internal/api/handlers/policy_handler.go:180-184 | while rows are created and changed between pages, no row is returned twice and a completed walk has returned every row that was there and matched throughout |
| Walk.WalkDuringRun | internal/repository/postgres/policy.go:58-68 | the same for the tables met at successive moments of any run of the service |
| Walk.WalkOverStillTable | internal/api/handlers/policy_handler.go:169-184 | over n matching rows with page size L the pages add up to the sorted and filtered list, a walk is completed by exactly n / L + 1 requests and never takes more |
| Walk.WalkContinues | internal/api/handlers/policy_handler.go:180-184 | a cursor that was handed out is always accepted, by any later table |
| Cursor.RoundTrip | internal/repository/postgres/policy.go:70-95 | decoding an encoded cursor gives back instant and id exactly if and only if the year is 0 to 9999; for other years the error is a malformed timestamp |
| Cursor.UrlSafe | internal/repository/postgres/policy.go:70-74 | a cursor has only letters, digits and =, never + or /, and is never empty |
| Cursor.Resumable | internal/repository/postgres/policy.go:110-123 | a cursor made from a row takes the branch with a cursor and yields that row's key |
| Cursor.CarriedText | internal/repository/postgres/policy.go:72 | a cursor carries the printed time, one bar and the printed id |
| Cursor.Refusals | internal/repository/postgres/policy.go:78-93 | each error is given for exactly these cursors: no padded base64, no bar, no timestamp before the first bar, no id after it |
| Cursor.AcceptedIff | internal/repository/postgres/policy.go:77-95 | a cursor is accepted for a key exactly when it carries that key in an accepted written form |
| Base64.RoundTrip | internal/repository/postgres/policy.go:73-78 | decoding undoes encoding for every byte sequence |
| Base64.EncodedLength | internal/repository/postgres/policy.go:73 | four characters per started group of three bytes |
| Base64.GroupIsNumber | internal/repository/postgres/policy.go:73 | three bytes are written as the four base-64 digits, in the standard alphabet and highest first, of their 24-bit number |
| Base64.TailIsNumber | internal/repository/postgres/policy.go:73 | one or two last bytes are written as their number with zero bits behind it, and padding |
| Base64.EncodeInPieces | internal/repository/postgres/policy.go:73 | whole groups are written by themselves and in order |
| Base64.AcceptedIff | internal/repository/postgres/policy.go:78-81 | line breaks aside, a text decodes exactly when it is whole groups of digits with at most two padding signs at the end |
| Uuid.RoundTrip | internal/repository/postgres/policy.go:90 | each of the four accepted forms of an id parses to it |
| Uuid.TextIsInjective | internal/repository/postgres/policy.go:72 | different ids have different texts |
| Uuid.TextDigits | internal/repository/postgres/policy.go:72 | the text is the id's 32 hexadecimal digits, highest first and in small letters, with dashes after the 8th, 12th, 16th and 20th |
| Uuid.AcceptedIff | internal/repository/postgres/policy.go:90-93 | an id is accepted plain, behind a URN prefix, inside two characters or as bare digits, in either case, and in no other form |
| Timestamp.RoundTrip | internal/repository/postgres/policy.go:72-86 | parsing the printed instant gives it back to the nanosecond for years 0 to 9999 and fails for every other year |
| Timestamp.SecondsOnly | internal/events/policy_events.go:63 | the printing without a fraction depends on the whole second only |
| Timestamp.SecondsRoundTrip | internal/events/policy_events.go:63 | parsing the printing without a fraction gives the instant cut to its second for years 0 to 9999, and fails for every other year |
| Layout.ReadsEveryForm | internal/repository/postgres/policy.go:86 | every written form is read as what it means: zones shift, a comma is a point, a lone hour digit is an hour, digits past the ninth are dropped |
| Layout.AcceptedIff | internal/repository/postgres/policy.go:86-89 | a text is read as an instant exactly when it is a written form with that meaning |
| Layout.SecondsLayout | internal/events/policy_events.go:63 | year, month, day, hour, minute and second of the reading stand at their places in the text, with its marks between |
| Layout.NanosLayout | internal/repository/postgres/policy.go:72 | the nanosecond layout is the same up to the second and then a point and the rest of the second without trailing zeros, or nothing |
| Calendar.InstantRoundTrip | internal/repository/postgres/policy.go:72 | every instant reads as a valid civil date and time that converts back to it |
| Calendar.CivilRoundTrip | internal/repository/postgres/policy.go:86 | every valid civil date and time is the reading of its own instant |
| Calendar.EpochReading | internal/repository/postgres/policy.go:72 | instant 0 reads as 1970-01-01T00:00:00 |
| Calendar.NextDayReading | internal/repository/postgres/policy.go:72 | a day later reads as the next date, across months and years, at the same clock time |
| Calendar.NextInstantReading | internal/repository/postgres/policy.go:72 | a nanosecond later every field has carried as clock and calendar do, which with the reading of instant 0 fixes every reading |
| Calendar.MonthDays | internal/repository/postgres/policy.go:86 | the lengths of the twelve months under the leap rule |
| Calendar.YearLength | internal/repository/postgres/policy.go:86 | years have 366 days exactly when leap |

## Left out

- HTTP decoding, JSON, routing, problem responses, request logging and the other handlers: plumbing without state of its own.
- JWT validation, key refresh and scope checks: library code and a short membership loop.
- PDF layout and the object store and stream clients: only "uploaded under this key" and "attempt delivered, acknowledged or failed" are kept. An upload reported as failed leaves no key, although the object may exist.
- Clock, identifier randomness and database internals: times and ids are inputs, each statement acts on its row atomically, and commits are atomic. The protocol applies a transaction's statements when it commits; the row lock an UPDATE holds until then only rules out some of the runs covered here.
- `time.Parse`, `uuid.Parse`, `strconv.Atoi` and base64 decoding belong to libraries that are not part of this model; their documented behaviour is modelled. Of `time.Parse` the RFC3339Nano layout is.
- Coverages and premiums with their repositories: single-branch validators and plain SQL.
- A service without a database or without a publisher, and null repositories: wiring.
- Ids of audit rows and documents, the fallbacks for a missing id or time when they are inserted, and the read of a policy by its number: no property here depends on them.
- Failed reads: a request that cannot read its row changes nothing, like one that stops. The errors of reading audit rows and documents are not told apart.
- Events of two requests may arrive in either order; `Replay` is about events read in commit order.
- Service.PolicyService.Create: the id is an input and may be taken, which the code treats as a taken number; the service never returns the stored, cut-off times.
- Publisher.EventPublisher.Publish: building the JSON text is not modelled, the payload is the envelope itself, and the subject it is sent under is left out.
- Documents.DocumentService.ListDocuments: the order of documents with equal creation times is any order the database gives.
