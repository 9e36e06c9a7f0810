/** The audit trail as it is read back: ordered by time, which is commit order exactly when
    the stored times of a policy's rows strictly increase. */
module History {
  import opened Calendar
  import opened Lifecycle
  import opened Policy
  import opened Database
  import opened Requests
  import opened Serial
  import Uuid

  predicate Sorted(rows: seq<AuditRow>) {
    forall i, j :: 0 <= i < j < |rows| ==> rows[i].occurredAt <= rows[j].occurredAt
  }

  predicate StrictlyTimed(rows: seq<AuditRow>) {
    forall i, j :: 0 <= i < j < |rows| ==> rows[i].occurredAt < rows[j].occurredAt
  }

  /** An answer the ordered query may give: the policy's rows by time, ties in any order. */
  predicate ByTime(rows: seq<AuditRow>, log: seq<AuditRow>) {
    Sorted(rows) && multiset(rows) == multiset(log)
  }

  /** Such an answer holds the policy's rows of the trail, each as often, and no others. */
  lemma AnswerHolds(rows: seq<AuditRow>, audit: seq<AuditRow>, id: Uuid.Id)
    requires ByTime(rows, LogOf(audit, id))
    ensures forall i :: 0 <= i < |rows| ==> rows[i].policy == id
    ensures forall row: AuditRow :: row.policy == id ==> multiset(rows)[row] == multiset(audit)[row]
  {
    forall row: AuditRow
      ensures multiset(rows)[row] == if row.policy == id then multiset(audit)[row] else 0
    {
      LogOfCounts(audit, id, row);
    }
    forall i | 0 <= i < |rows|
      ensures rows[i].policy == id
    {
      assert rows[i] in multiset(rows);
    }
  }

  function InsertByTime(row: AuditRow, rows: seq<AuditRow>): seq<AuditRow> {
    if rows == [] || rows[|rows| - 1].occurredAt <= row.occurredAt then rows + [row]
    else InsertByTime(row, rows[..|rows| - 1]) + [rows[|rows| - 1]]
  }

  function SortByTime(log: seq<AuditRow>): seq<AuditRow> {
    if log == [] then [] else InsertByTime(log[|log| - 1], SortByTime(log[..|log| - 1]))
  }

  lemma {:induction false} InsertKeepsRows(row: AuditRow, rows: seq<AuditRow>)
    ensures multiset(InsertByTime(row, rows)) == multiset(rows) + multiset{row}
  {
    if rows != [] && rows[|rows| - 1].occurredAt > row.occurredAt {
      InsertKeepsRows(row, rows[..|rows| - 1]);
      assert rows == rows[..|rows| - 1] + [rows[|rows| - 1]];
    }
  }

  lemma {:induction false} InsertKeepsOrder(row: AuditRow, rows: seq<AuditRow>)
    requires Sorted(rows)
    ensures Sorted(InsertByTime(row, rows))
  {
    if rows != [] && rows[|rows| - 1].occurredAt > row.occurredAt {
      var init, last := rows[..|rows| - 1], rows[|rows| - 1];
      InsertKeepsOrder(row, init);
      InsertKeepsRows(row, init);
      var inserted := InsertByTime(row, init);
      forall i | 0 <= i < |inserted|
        ensures inserted[i].occurredAt <= last.occurredAt
      {
        assert inserted[i] in multiset(inserted);
        assert inserted[i] in multiset(init) || inserted[i] == row;
      }
    }
  }

  lemma {:induction false} SortedAnswerExists(log: seq<AuditRow>)
    ensures ByTime(SortByTime(log), log)
  {
    if log != [] {
      var init := log[..|log| - 1];
      SortedAnswerExists(init);
      InsertKeepsOrder(log[|log| - 1], SortByTime(init));
      InsertKeepsRows(log[|log| - 1], SortByTime(init));
      assert log == init + [log[|log| - 1]];
    }
  }

  lemma LastRowsAgree(rows: seq<AuditRow>, log: seq<AuditRow>)
    requires ByTime(rows, log) && StrictlyTimed(log) && log != []
    ensures |rows| == |log| && rows[|log| - 1] == log[|log| - 1]
  {
    assert |rows| == |multiset(rows)| == |multiset(log)| == |log|;
    var n := |log| - 1;
    assert log[n] in multiset(rows) && rows[n] in multiset(log);
    var i :| 0 <= i < |rows| && rows[i] == log[n];
    var j :| 0 <= j < |log| && log[j] == rows[n];
  }

  lemma WithoutLast(rows: seq<AuditRow>)
    requires rows != []
    ensures multiset(rows) == multiset(rows[..|rows| - 1]) + multiset{rows[|rows| - 1]}
  {
    assert rows == rows[..|rows| - 1] + [rows[|rows| - 1]];
  }

  lemma InitsAgree(rows: seq<AuditRow>, log: seq<AuditRow>)
    requires ByTime(rows, log) && log != [] && |rows| == |log| && rows[|log| - 1] == log[|log| - 1]
    ensures ByTime(rows[..|log| - 1], log[..|log| - 1])
  {
    var n := |log| - 1;
    WithoutLast(rows);
    WithoutLast(log);
    assert multiset(rows[..n]) == multiset(rows) - multiset{rows[n]};
    assert multiset(log[..n]) == multiset(log) - multiset{log[n]};
  }

  lemma {:induction false} OnlyAnswerWhenStrict(rows: seq<AuditRow>, log: seq<AuditRow>)
    requires ByTime(rows, log) && StrictlyTimed(log)
    ensures rows == log
  {
    if log == [] {
      assert |rows| == |multiset(rows)| == 0;
    } else {
      var n := |log| - 1;
      LastRowsAgree(rows, log);
      InitsAgree(rows, log);
      OnlyAnswerWhenStrict(rows[..n], log[..n]);
      assert rows == rows[..n] + [rows[n]] && log == log[..n] + [log[n]];
    }
  }

  lemma SwappedTie(log: seq<AuditRow>, i: nat)
    requires Sorted(log) && i + 1 < |log| && log[i].occurredAt == log[i + 1].occurredAt
    ensures ByTime(log[i := log[i + 1]][i + 1 := log[i]], log)
  {
  }

  lemma {:induction false} StrictOrTie(rows: seq<AuditRow>) returns (k: nat)
    requires Sorted(rows) && !StrictlyTimed(rows)
    ensures k + 1 < |rows| && rows[k].occurredAt == rows[k + 1].occurredAt
  {
    var i, j :| 0 <= i < j < |rows| && rows[i].occurredAt >= rows[j].occurredAt;
    k := i;
  }

  lemma ChainRowsDiffer(log: seq<AuditRow>, i: nat)
    requires Chain(log) && i + 1 < |log|
    ensures log[i] != log[i + 1]
  {
    assert Linked(log, i) && Linked(log, i + 1);
  }

  /** For an exact chain, reading by time is sure to return commit order if and only if the
      rows' times strictly increase in commit order. */
  lemma CommitOrderIffStrict(log: seq<AuditRow>)
    requires Chain(log)
    ensures (forall rows :: ByTime(rows, log) ==> rows == log) <==> StrictlyTimed(log)
  {
    if StrictlyTimed(log) {
      forall rows | ByTime(rows, log)
        ensures rows == log
      {
        OnlyAnswerWhenStrict(rows, log);
      }
    } else {
      SortedAnswerExists(log);
      if Sorted(log) {
        var k := StrictOrTie(log);
        SwappedTie(log, k);
        ChainRowsDiffer(log, k);
        assert log[k := log[k + 1]][k + 1 := log[k]][k] != log[k];
      } else {
        assert SortByTime(log) != log;
      }
    }
  }

  /** The clock ticks between two requests on the same policy, to the stored precision. */
  predicate Timely(jobs: seq<Job>) {
    forall i, j :: 0 <= i < j < |jobs| && jobs[i].id == jobs[j].id ==> Stored(jobs[i].now) < Stored(jobs[j].now)
  }

  ghost predicate TouchedAt(jobs: seq<Job>, id: Uuid.Id, t: Nanos) {
    exists k :: 0 <= k < |jobs| && jobs[k].id == id && Stored(jobs[k].now) == t
  }

  ghost predicate Timed(jobs: seq<Job>, db: Db) {
    && (forall id :: id in db.policies ==> TouchedAt(jobs, id, db.policies[id].updatedAt))
    && (forall i :: 0 <= i < |db.audit| ==>
          db.audit[i].policy in db.policies
          && db.audit[i].occurredAt <= db.policies[db.audit[i].policy].updatedAt)
    && (forall i, j :: 0 <= i < j < |db.audit| && db.audit[i].policy == db.audit[j].policy ==>
          db.audit[i].occurredAt < db.audit[j].occurredAt)
  }

  lemma {:induction false} TimedRun(jobs: seq<Job>)
    requires Timely(jobs)
    ensures Timed(jobs, Run(jobs))
  {
    if jobs != [] {
      var init, job := jobs[..|jobs| - 1], jobs[|jobs| - 1];
      TimedRun(init);
      ExactRun(init);
      TimedStep(init, job, Run(init));
      assert jobs == init + [job];
    }
  }

  lemma TouchedLater(jobs: seq<Job>, job: Job, id: Uuid.Id, t: Nanos)
    requires TouchedAt(jobs, id, t)
    ensures TouchedAt(jobs + [job], id, t)
    ensures Timely(jobs + [job]) && id == job.id ==> t < Stored(job.now)
  {
    var k :| 0 <= k < |jobs| && jobs[k].id == id && Stored(jobs[k].now) == t;
    var longer := jobs + [job];
    assert longer[k] == jobs[k] && longer[|jobs|] == job;
  }

  lemma TouchedNow(jobs: seq<Job>, job: Job)
    ensures TouchedAt(jobs + [job], job.id, Stored(job.now))
  {
    assert (jobs + [job])[|jobs|] == job;
  }

  lemma TimedWrite(jobs: seq<Job>, job: Job, db: Db, after: Db, row: Policy, added: seq<AuditRow>)
    requires Timed(jobs, db) && Timely(jobs + [job])
    requires after == Db(db.policies[job.id := row], db.audit + added) && row.updatedAt == Stored(job.now)
    requires |added| <= 1 && forall i :: 0 <= i < |added| ==> added[i].policy == job.id && added[i].occurredAt == row.updatedAt
    ensures Timed(jobs + [job], after)
  {
    forall id | id in db.policies
      ensures TouchedAt(jobs + [job], id, db.policies[id].updatedAt)
      ensures id == job.id ==> db.policies[id].updatedAt < row.updatedAt
    {
      TouchedLater(jobs, job, id, db.policies[id].updatedAt);
    }
    TouchedNow(jobs, job);
  }

  lemma TimedStep(jobs: seq<Job>, job: Job, db: Db)
    requires Timed(jobs, db) && Exact(db) && Timely(jobs + [job])
    ensures Timed(jobs + [job], Step(db, job))
  {
    var after := Step(db, job);
    if Perform(db, job).Failure? {
      forall id | id in db.policies
        ensures TouchedAt(jobs + [job], id, db.policies[id].updatedAt)
      {
        TouchedLater(jobs, job, id, db.policies[id].updatedAt);
      }
    } else {
      var added := WriteShape(db, job);
      TimedWrite(jobs, job, db, after, after.policies[job.id], added);
    }
  }

  lemma {:induction false} LogOfTimes(audit: seq<AuditRow>, id: Uuid.Id)
    requires forall i, j :: 0 <= i < j < |audit| && audit[i].policy == audit[j].policy ==>
                audit[i].occurredAt < audit[j].occurredAt
    ensures StrictlyTimed(LogOf(audit, id))
    ensures forall k :: 0 <= k < |LogOf(audit, id)| ==> LogOf(audit, id)[k] in audit && LogOf(audit, id)[k].policy == id
  {
    if audit != [] {
      LogOfTimes(audit[..|audit| - 1], id);
    }
  }

  lemma {:induction false} LogOfBefore(audit: seq<AuditRow>, id: Uuid.Id, t: Nanos)
    requires forall i :: 0 <= i < |audit| && audit[i].policy == id ==> audit[i].occurredAt <= t
    ensures forall k :: 0 <= k < |LogOf(audit, id)| ==> LogOf(audit, id)[k].occurredAt <= t
  {
    if audit != [] {
      LogOfBefore(audit[..|audit| - 1], id, t);
    }
  }

  /** With a ticking clock, the history of a policy reads back as the exact chain of its
      transitions in commit order, and the row is never older than its last transition. */
  lemma HistoryInCommitOrder(jobs: seq<Job>, id: Uuid.Id, rows: seq<AuditRow>)
    requires Timely(jobs) && id in Run(jobs).policies
    requires ByTime(rows, LogOf(Run(jobs).audit, id))
    ensures rows == LogOf(Run(jobs).audit, id)
    ensures ExactLog(rows, Run(jobs).policies[id].status)
    ensures rows != [] ==> rows[|rows| - 1].occurredAt <= Run(jobs).policies[id].updatedAt
  {
    StrictTrail(jobs, id);
    OnlyAnswerWhenStrict(rows, LogOf(Run(jobs).audit, id));
  }

  lemma StrictTrail(jobs: seq<Job>, id: Uuid.Id)
    requires Timely(jobs) && id in Run(jobs).policies
    ensures var log, row := LogOf(Run(jobs).audit, id), Run(jobs).policies[id];
            && StrictlyTimed(log) && ExactLog(log, row.status)
            && (log != [] ==> log[|log| - 1].occurredAt <= row.updatedAt)
  {
    TimedRun(jobs);
    TimedTrail(jobs, Run(jobs), id);
    ExactRun(jobs);
    assert ExactFor(Run(jobs), id);
  }

  lemma TimedTrail(jobs: seq<Job>, db: Db, id: Uuid.Id)
    requires Timed(jobs, db) && id in db.policies
    ensures var log := LogOf(db.audit, id);
            StrictlyTimed(log) && (log != [] ==> log[|log| - 1].occurredAt <= db.policies[id].updatedAt)
  {
    LogOfTimes(db.audit, id);
    LogOfBefore(db.audit, id, db.policies[id].updatedAt);
  }

  lemma {:induction false} NoAmendedRow(jobs: seq<Job>)
    ensures forall i :: 0 <= i < |Run(jobs).audit| ==> Run(jobs).audit[i].to != Amended
  {
    if jobs != [] {
      var db, job := Run(jobs[..|jobs| - 1]), jobs[|jobs| - 1];
      NoAmendedRow(jobs[..|jobs| - 1]);
      ExactRun(jobs[..|jobs| - 1]);
      if Perform(db, job).Success? {
        var _ := WriteShape(db, job);
      }
    }
  }

  lemma {:induction false} LogOfWithout(audit: seq<AuditRow>, id: Uuid.Id, s: Status)
    requires forall i :: 0 <= i < |audit| ==> audit[i].to != s
    ensures forall k :: 0 <= k < |LogOf(audit, id)| ==> LogOf(audit, id)[k].to != s
  {
    if audit != [] {
      LogOfWithout(audit[..|audit| - 1], id, s);
    }
  }

  lemma {:induction false} ChainDepth(log: seq<AuditRow>)
    requires Chain(log) && forall k :: 0 <= k < |log| ==> log[k].to != Amended
    ensures |log| == Depth(EndOf(log)) <= 3
  {
    if log != [] {
      var init := log[..|log| - 1];
      forall i: nat | i < |init|
        ensures Linked(init, i)
      {
        assert Linked(log, i);
      }
      ChainDepth(init);
      assert Linked(log, |log| - 1);
    }
  }

  /** No service request amends, so a policy never gathers more than three audit rows, and
      the last row's status says how many there are. */
  lemma AtMostThreeRows(jobs: seq<Job>, id: Uuid.Id)
    requires id in Run(jobs).policies
    ensures var log := LogOf(Run(jobs).audit, id); |log| == Depth(EndOf(log)) <= 3
  {
    ExactRun(jobs);
    assert ExactFor(Run(jobs), id);
    NoAmendedRow(jobs);
    LogOfWithout(Run(jobs).audit, id, Amended);
    ChainDepth(LogOf(Run(jobs).audit, id));
  }
}
