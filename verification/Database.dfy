/** The committed store: the policy table, the append-only audit log, and the statements
    that change them. */
module Database {
  import opened Wrappers
  import opened Calendar
  import opened Lifecycle
  import opened Policy
  import Uuid

  datatype AuditRow = AuditRow(
    policy: Uuid.Id,
    from: Status,
    to: Status,
    actor: string,
    reason: string,
    occurredAt: Nanos)

  datatype Db = Db(policies: map<Uuid.Id, Policy>, audit: seq<AuditRow>)

  const EMPTY: Db := Db(map[], [])

  datatype Refusal = NumberTaken | CheckViolated

  predicate NumberInUse(policies: map<Uuid.Id, Policy>, number: string) {
    exists id :: id in policies && policies[id].number == number
  }

  /** The table check on dates, which sees the stored times. */
  predicate DatesOk(p: Policy) {
    Stored(p.effective) < Stored(p.expiry)
  }

  /** INSERT INTO policies: row checks first, then the unique id and number. */
  function Insert(db: Db, p: Policy): Result<Db, Refusal> {
    if !DatesOk(p) then Failure(CheckViolated)
    else if p.id in db.policies || NumberInUse(db.policies, p.number) then Failure(NumberTaken)
    else Success(db.(policies := db.policies[p.id := StoredRow(p)]))
  }

  /** The row an UPDATE of the editable columns leaves: id, number and creation time stay. */
  function Overwrite(row: Policy, p: Policy): Policy {
    row.(holder := p.holder, product := p.product, status := p.status,
         effective := Stored(p.effective), expiry := Stored(p.expiry), updatedAt := Stored(p.updatedAt))
  }

  /** UPDATE policies SET every editable column, by id. */
  function Update(db: Db, p: Policy): Result<Db, Refusal> {
    if p.id !in db.policies then Success(db)
    else if !DatesOk(p) then Failure(CheckViolated)
    else Success(db.(policies := db.policies[p.id := Overwrite(db.policies[p.id], p)]))
  }

  /** The statements that run inside a transaction. */
  datatype Statement =
    | SetStatus(id: Uuid.Id, status: Status, updatedAt: Nanos)
    | AddAudit(row: AuditRow)

  function Execute(db: Db, s: Statement): Db {
    match s
    case SetStatus(id, status, updatedAt) =>
      if id !in db.policies then db
      else db.(policies := db.policies[id := db.policies[id].(status := status, updatedAt := Stored(updatedAt))])
    case AddAudit(row) => db.(audit := db.audit + [row.(occurredAt := Stored(row.occurredAt))])
  }

  /** The effect of committing a transaction: its statements, in order, all at once. */
  function ExecuteAll(db: Db, statements: seq<Statement>): Db
    decreases |statements|
  {
    if statements == [] then db else ExecuteAll(Execute(db, statements[0]), statements[1..])
  }

  /** No row is ever deleted and no row's identity changes; the log only grows. */
  predicate Extends(before: Db, after: Db) {
    && before.audit <= after.audit
    && KeysKept(before.policies, after.policies)
  }

  predicate KeysKept(before: map<Uuid.Id, Policy>, after: map<Uuid.Id, Policy>) {
    forall id :: id in before ==>
      && id in after
      && after[id].id == before[id].id
      && after[id].number == before[id].number
      && after[id].createdAt == before[id].createdAt
  }

  /** One policy's audit rows, in commit order. */
  function LogOf(audit: seq<AuditRow>, id: Uuid.Id): seq<AuditRow> {
    if audit == [] then []
    else
      var init, last := audit[..|audit| - 1], audit[|audit| - 1];
      LogOf(init, id) + if last.policy == id then [last] else []
  }

  lemma LogOfAppend(audit: seq<AuditRow>, row: AuditRow, id: Uuid.Id)
    ensures LogOf(audit + [row], id) == LogOf(audit, id) + if row.policy == id then [row] else []
  {
  }

  /** The log of a policy holds each of its rows as often as the audit trail does, and no other. */
  lemma {:induction false} LogOfCounts(audit: seq<AuditRow>, id: Uuid.Id, row: AuditRow)
    ensures multiset(LogOf(audit, id))[row] == if row.policy == id then multiset(audit)[row] else 0
  {
    if audit != [] {
      var init, last := audit[..|audit| - 1], audit[|audit| - 1];
      LogOfCounts(init, id, row);
      assert audit == init + [last];
    }
  }
}
