/** Following next_cursor from page to page, over a table that stands still and over one that
    requests keep changing between the pages. */
module Walk {
  import opened Wrappers
  import opened Calendar
  import opened Lifecycle
  import opened Policy
  import opened Listing
  import Cursor
  import Database
  import Protocol
  import Safety
  import Timestamp
  import Uuid

  /** One listing request of a walk: the table it met, the cursor it sent, the rows it got. */
  datatype Fetch = Fetch(table: Table, cursor: string, rows: seq<Policy>)

  /** Creation times that a cursor can carry. */
  predicate Printable(t: Table) {
    forall id :: id in t ==> Timestamp.FourDigitYear(t[id].createdAt)
  }

  predicate Answered(f: Fetch, limit: string, status: string) {
    && Keyed(f.table) && Printable(f.table)
    && Listed(f.table, ParamsOf(f.cursor, limit, status)) == Success(f.rows)
  }

  predicate Resumes(before: Fetch, f: Fetch, limit: string) {
    f.cursor != "" && f.cursor == NextCursor(before.rows, RequestedLimit(limit))
  }

  /** Each request sends the cursor the one before it returned; the first sends none. */
  predicate IsWalk(walk: seq<Fetch>, limit: string, status: string) {
    && walk != [] && walk[0].cursor == ""
    && (forall i :: 0 <= i < |walk| ==> Answered(walk[i], limit, status))
    && (forall i :: 0 < i < |walk| ==> Resumes(walk[i - 1], walk[i], limit))
  }

  predicate Completed(walk: seq<Fetch>, limit: string)
    requires walk != []
  {
    NextCursor(walk[|walk| - 1].rows, RequestedLimit(limit)) == ""
  }

  /** Between two pages rows may appear and change, but no row vanishes or changes identity. */
  predicate Evolving(walk: seq<Fetch>) {
    forall i :: 0 < i < |walk| ==> Database.KeysKept(walk[i - 1].table, walk[i].table)
  }

  function Rows(walk: seq<Fetch>): seq<Policy> {
    if walk == [] then [] else Rows(walk[..|walk| - 1]) + walk[|walk| - 1].rows
  }

  // ---- one page -----------------------------------------------------------------------------

  function StatusFilter(status: string): Option<string> {
    if status == "" then None else Some(status)
  }

  /** The key the page of request i starts below. */
  function BelowAt(walk: seq<Fetch>, i: nat): Option<Key>
    requires i < |walk| && (i > 0 ==> walk[i - 1].rows != [])
  {
    if i == 0 then None else Some(KeyOf(walk[i - 1].rows[|walk[i - 1].rows| - 1]))
  }

  ghost predicate PageAt(walk: seq<Fetch>, limit: nat, status: Option<string>, i: nat)
    requires i < |walk| && limit >= 1
  {
    && Keyed(walk[i].table)
    && (i > 0 ==> Full(walk[i - 1].rows, limit))
    && walk[i].rows == Page(walk[i].table, status, BelowAt(walk, i), limit)
    && PageLike(walk[i].rows, walk[i].table, status, BelowAt(walk, i), limit)
  }

  /** The walk without its texts: every page but the last is full, and each starts right below
      the last row of the one before it. */
  ghost predicate Chained(walk: seq<Fetch>, limit: nat, status: Option<string>) {
    && walk != [] && limit >= 1
    && (forall i: nat :: i < |walk| ==> PageAt(walk, limit, status, i))
  }

  // ---- from texts to keys -------------------------------------------------------------------

  lemma FirstPage(f: Fetch, limit: string, status: string)
    requires Answered(f, limit, status) && f.cursor == ""
    ensures RequestedLimit(limit) >= 1
    ensures f.rows == Page(f.table, StatusFilter(status), None, RequestedLimit(limit))
  {
  }

  lemma ResumedPage(f: Fetch, limit: string, status: string, key: Key)
    requires Answered(f, limit, status) && f.cursor != ""
    requires Cursor.Decode(f.cursor) == Success((key.createdAt, key.id))
    ensures RequestedLimit(limit) >= 1
    ensures f.rows == Page(f.table, StatusFilter(status), Some(key), RequestedLimit(limit))
  {
    LimitsAgree(limit);
  }

  lemma NextCursorIsLastRow(rows: seq<Policy>, limit: nat, text: string, last: Policy)
    requires limit >= 1 && Full(rows, limit) && text == NextCursor(rows, limit) && last == rows[limit - 1]
    ensures text == Cursor.Encode(last.createdAt, last.id)
  {
  }

  lemma NextCursorText(rows: seq<Policy>, limit: nat, text: string)
    requires limit >= 1 && Full(rows, limit) && text == NextCursor(rows, limit)
    requires Timestamp.FourDigitYear(rows[limit - 1].createdAt)
    ensures text != ""
    ensures Cursor.Decode(text) == Success((rows[limit - 1].createdAt, rows[limit - 1].id))
  {
    var last := rows[limit - 1];
    NextCursorIsLastRow(rows, limit, text, last);
    Cursor.Resumable(text, last.createdAt, last.id);
  }

  lemma NoNextCursor(rows: seq<Policy>, limit: nat)
    requires limit >= 1 && !Full(rows, limit)
    ensures NextCursor(rows, limit) == ""
  {
  }

  lemma PrintablePage(f: Fetch, limit: nat)
    requires Keyed(f.table) && Printable(f.table) && forall p :: p in f.rows ==> p in f.table.Values
    requires limit >= 1 && Full(f.rows, limit)
    ensures Timestamp.FourDigitYear(f.rows[limit - 1].createdAt)
  {
    assert f.rows[limit - 1] in f.rows;
  }

  /** A request that resumes after another one lists what lies below that one's last row. */
  lemma ResumedBelow(before: Fetch, f: Fetch, limit: string, status: string, n: nat)
    requires n >= 1 && n == RequestedLimit(limit)
    requires Answered(before, limit, status) && Answered(f, limit, status) && Resumes(before, f, limit)
    requires forall p :: p in before.rows ==> p in before.table.Values
    ensures Full(before.rows, n)
    ensures f.rows == Page(f.table, StatusFilter(status), Some(KeyOf(before.rows[n - 1])), n)
  {
    if Full(before.rows, n) {
      PrintablePage(before, n);
      NextCursorText(before.rows, n, f.cursor);
    } else {
      NoNextCursor(before.rows, n);
    }
    ResumedPage(f, limit, status, KeyOf(before.rows[n - 1]));
  }

  lemma FirstPageAt(walk: seq<Fetch>, limit: string, status: string, n: nat)
    requires IsWalk(walk, limit, status) && n >= 1 && n == RequestedLimit(limit)
    ensures PageAt(walk, n, StatusFilter(status), 0)
  {
    FirstPage(walk[0], limit, status);
    PageShape(walk[0].table, StatusFilter(status), None, n);
  }

  lemma NextPageAt(walk: seq<Fetch>, limit: string, status: string, n: nat, i: nat)
    requires IsWalk(walk, limit, status) && n >= 1 && n == RequestedLimit(limit) && i + 1 < |walk|
    requires PageAt(walk, n, StatusFilter(status), i)
    ensures PageAt(walk, n, StatusFilter(status), i + 1)
  {
    var before, f := walk[i], walk[i + 1];
    assert forall p :: p in before.rows ==> p in before.table.Values;
    ResumedBelow(before, f, limit, status, n);
    PageShape(f.table, StatusFilter(status), Some(KeyOf(before.rows[n - 1])), n);
  }

  lemma {:induction false} PageFromTexts(walk: seq<Fetch>, limit: string, status: string, n: nat, i: nat)
    requires IsWalk(walk, limit, status) && n >= 1 && n == RequestedLimit(limit) && i < |walk|
    ensures PageAt(walk, n, StatusFilter(status), i)
    decreases i
  {
    if i == 0 {
      FirstPageAt(walk, limit, status, n);
    } else {
      PageFromTexts(walk, limit, status, n, i - 1);
      NextPageAt(walk, limit, status, n, i - 1);
    }
  }

  /** A walk by cursor texts is a walk by keys, and it is completed by its first short page. */
  lemma WalkByKeys(walk: seq<Fetch>, limit: string, status: string)
    requires IsWalk(walk, limit, status)
    ensures RequestedLimit(limit) >= 1
    ensures Chained(walk, RequestedLimit(limit), StatusFilter(status))
    ensures Completed(walk, limit) <==> !Full(walk[|walk| - 1].rows, RequestedLimit(limit))
  {
    LimitsAgree(limit);
    var n: nat := RequestedLimit(limit);
    forall i: nat | i < |walk|
      ensures PageAt(walk, n, StatusFilter(status), i)
    {
      PageFromTexts(walk, limit, status, n, i);
    }
    var last := walk[|walk| - 1];
    assert PageAt(walk, n, StatusFilter(status), |walk| - 1);
    assert Answered(last, limit, status);
    if Full(last.rows, n) {
      PrintablePage(last, n);
      NextCursorText(last.rows, n, NextCursor(last.rows, n));
    } else {
      NoNextCursor(last.rows, n);
    }
  }

  // ---- the walk so far ----------------------------------------------------------------------

  lemma ChainedPrefix(walk: seq<Fetch>, limit: nat, status: Option<string>)
    requires Chained(walk, limit, status) && |walk| > 1
    ensures Chained(walk[..|walk| - 1], limit, status)
  {
    var init := walk[..|walk| - 1];
    forall i: nat | i < |init|
      ensures PageAt(init, limit, status, i)
    {
      assert PageAt(walk, limit, status, i);
    }
  }

  lemma DescendingJoin(a: seq<Policy>, b: seq<Policy>)
    requires Descending(a) && Descending(b)
    requires a != [] ==> forall p :: p in b ==> Before(KeyOf(p), KeyOf(a[|a| - 1]))
    ensures Descending(a + b)
  {
  }

  /** After a full page the last row so far is that page's last. */
  predicate EndsWith(rows: seq<Policy>, walk: seq<Fetch>, limit: nat)
    requires walk != [] && limit >= 1
  {
    Full(walk[|walk| - 1].rows, limit) ==> rows != [] && rows[|rows| - 1] == walk[|walk| - 1].rows[limit - 1]
  }

  lemma FirstDescends(walk: seq<Fetch>, limit: nat, status: Option<string>)
    requires Chained(walk, limit, status) && |walk| == 1
    ensures Descending(Rows(walk)) && EndsWith(Rows(walk), walk, limit)
  {
    assert Descending(walk[0].rows) by {
      assert PageAt(walk, limit, status, 0);
    }
    OnePage(walk);
  }

  lemma OnePage(walk: seq<Fetch>)
    requires |walk| == 1
    ensures Rows(walk) == walk[0].rows
  {
  }

  lemma NextDescends(walk: seq<Fetch>, limit: nat, status: Option<string>)
    requires Chained(walk, limit, status) && |walk| > 1
    requires Descending(Rows(walk[..|walk| - 1])) && EndsWith(Rows(walk[..|walk| - 1]), walk[..|walk| - 1], limit)
    ensures Descending(Rows(walk)) && EndsWith(Rows(walk), walk, limit)
  {
    assert PageAt(walk, limit, status, |walk| - 1);
    PageDescends(walk, Rows(walk[..|walk| - 1]), limit, status);
  }

  lemma PageDescends(walk: seq<Fetch>, before: seq<Policy>, limit: nat, status: Option<string>)
    requires |walk| > 1 && limit >= 1 && PageAt(walk, limit, status, |walk| - 1)
    requires Descending(before) && EndsWith(before, walk[..|walk| - 1], limit)
    ensures Descending(before + walk[|walk| - 1].rows) && EndsWith(before + walk[|walk| - 1].rows, walk, limit)
  {
    assert walk[..|walk| - 1][|walk| - 2] == walk[|walk| - 2];
    var page := walk[|walk| - 1].rows;
    forall p | p in page
      ensures Before(KeyOf(p), KeyOf(before[|before| - 1]))
    {
      assert Wanted(p, status, BelowAt(walk, |walk| - 1));
    }
    DescendingJoin(before, page);
  }

  /** The rows of a walk come in strictly descending key order across all its pages, whatever
      happens to the tables in between. */
  lemma {:induction false} WalkDescends(walk: seq<Fetch>, limit: nat, status: Option<string>)
    requires Chained(walk, limit, status)
    ensures Descending(Rows(walk)) && EndsWith(Rows(walk), walk, limit)
  {
    if |walk| == 1 {
      FirstDescends(walk, limit, status);
    } else {
      ChainedPrefix(walk, limit, status);
      WalkDescends(walk[..|walk| - 1], limit, status);
      NextDescends(walk, limit, status);
    }
  }

  // ---- a table that changes between the pages -------------------------------------------------

  ghost predicate InTable(t: Table, id: Uuid.Id, createdAt: Nanos) {
    id in t && t[id].createdAt == createdAt
  }

  /** Every row returned so far is still in the last table, under the same key. */
  lemma {:induction false} RowsStay(walk: seq<Fetch>, limit: nat, status: Option<string>)
    requires Chained(walk, limit, status) && Evolving(walk)
    ensures forall p :: p in Rows(walk) ==> InTable(walk[|walk| - 1].table, p.id, p.createdAt)
  {
    var n := |walk| - 1;
    assert PageAt(walk, limit, status, n);
    forall p | p in walk[n].rows
      ensures InTable(walk[n].table, p.id, p.createdAt)
    {
      assert p in walk[n].table.Values;
    }
    if n > 0 {
      var init := walk[..n];
      ChainedPrefix(walk, limit, status);
      assert Evolving(init);
      RowsStay(init, limit, status);
      assert Database.KeysKept(walk[n - 1].table, walk[n].table);
      assert forall p :: p in Rows(init) ==> InTable(walk[n - 1].table, p.id, p.createdAt);
    } else {
      assert Rows(walk[..n]) == [];
    }
  }

  /** The row is there, under this creation time and matching the filter, at every request. */
  ghost predicate ThereThroughout(walk: seq<Fetch>, status: Option<string>, id: Uuid.Id, createdAt: Nanos) {
    forall i :: 0 <= i < |walk| ==> InTable(walk[i].table, id, createdAt) && Wanted(walk[i].table[id], status, None)
  }

  ghost predicate Returned(rows: seq<Policy>, id: Uuid.Id) {
    exists i :: 0 <= i < |rows| && rows[i].id == id
  }

  lemma ReturnedOnPage(page: seq<Policy>, before: seq<Policy>, p: Policy)
    requires p in page
    ensures Returned(before + page, p.id)
  {
    var i :| 0 <= i < |page| && page[i] == p;
    assert (before + page)[|before| + i] == p;
  }

  lemma ReturnedBefore(page: seq<Policy>, before: seq<Policy>, id: Uuid.Id)
    requires Returned(before, id)
    ensures Returned(before + page, id)
  {
    var i :| 0 <= i < |before| && before[i].id == id;
    assert (before + page)[i] == before[i];
  }

  /** Returned already, or still to come below a full page. */
  ghost predicate ReturnedOrDue(walk: seq<Fetch>, limit: nat, id: Uuid.Id, createdAt: Nanos)
    requires walk != [] && limit >= 1
  {
    var last := walk[|walk| - 1].rows;
    Returned(Rows(walk), id) || (Full(last, limit) && Before(Key(createdAt, id), KeyOf(last[limit - 1])))
  }

  /** A row that is there throughout has been returned, or is still to come below a full page. */
  lemma {:induction false} ReturnedOrBelow(walk: seq<Fetch>, limit: nat, status: Option<string>,
                                           id: Uuid.Id, createdAt: Nanos)
    requires Chained(walk, limit, status) && ThereThroughout(walk, status, id, createdAt)
    ensures ReturnedOrDue(walk, limit, id, createdAt)
  {
    if |walk| > 1 {
      ChainedPrefix(walk, limit, status);
      assert ThereThroughout(walk[..|walk| - 1], status, id, createdAt);
      ReturnedOrBelow(walk[..|walk| - 1], limit, status, id, createdAt);
    }
    NextReturned(walk, limit, status, id, createdAt);
  }

  lemma NextReturned(walk: seq<Fetch>, limit: nat, status: Option<string>, id: Uuid.Id, createdAt: Nanos)
    requires Chained(walk, limit, status) && ThereThroughout(walk, status, id, createdAt)
    requires |walk| > 1 ==> ReturnedOrDue(walk[..|walk| - 1], limit, id, createdAt)
    ensures ReturnedOrDue(walk, limit, id, createdAt)
  {
    var n := |walk| - 1;
    var init, f := walk[..n], walk[n];
    if Returned(Rows(init), id) {
      ReturnedBefore(f.rows, Rows(init), id);
    } else {
      assert PageAt(walk, limit, status, n);
      assert InTable(f.table, id, createdAt) && Wanted(f.table[id], status, None);
      assert n > 0 ==> init[n - 1] == walk[n - 1];
      assert KeyOf(f.table[id]) == Key(createdAt, id) && f.table[id] in f.table.Values;
      PageOrBelow(walk, Rows(init), limit, status, f.table[id]);
    }
  }

  lemma PageOrBelow(walk: seq<Fetch>, before: seq<Policy>, limit: nat, status: Option<string>, p: Policy)
    requires walk != [] && limit >= 1 && PageAt(walk, limit, status, |walk| - 1)
    requires p in walk[|walk| - 1].table.Values && Wanted(p, status, BelowAt(walk, |walk| - 1))
    ensures var last := walk[|walk| - 1].rows;
            Returned(before + last, p.id) || (Full(last, limit) && Before(KeyOf(p), KeyOf(last[limit - 1])))
  {
    var last := walk[|walk| - 1].rows;
    if p in last {
      ReturnedOnPage(last, before, p);
    }
  }

  /** While rows are created, edited and moved through their lifecycle between the pages, a
      walk returns rows in strictly descending key order and none of them twice; and once it
      is completed, every row that was there and matched throughout has been returned, once. */
  lemma WalkOverChangingTable(walk: seq<Fetch>, limit: string, status: string)
    requires IsWalk(walk, limit, status) && Evolving(walk)
    ensures Descending(Rows(walk))
    ensures forall i, j :: 0 <= i < j < |Rows(walk)| ==> Rows(walk)[i].id != Rows(walk)[j].id
    ensures Completed(walk, limit) ==>
              forall id, createdAt :: ThereThroughout(walk, StatusFilter(status), id, createdAt) ==> Returned(Rows(walk), id)
  {
    WalkByKeys(walk, limit, status);
    var n: nat, filter, rows := RequestedLimit(limit), StatusFilter(status), Rows(walk);
    WalkDescends(walk, n, filter);
    RowsStay(walk, n, filter);
    forall i, j | 0 <= i < j < |rows|
      ensures rows[i].id != rows[j].id
    {
      var t := walk[|walk| - 1].table;
      assert rows[i] in rows && rows[j] in rows;
      assert InTable(t, rows[i].id, rows[i].createdAt) && InTable(t, rows[j].id, rows[j].createdAt);
    }
    if Completed(walk, limit) {
      forall id, createdAt | ThereThroughout(walk, filter, id, createdAt)
        ensures Returned(rows, id)
      {
        ReturnedOrBelow(walk, n, filter, id, createdAt);
      }
    }
  }

  /** The tables met by listing requests at later and later moments of one run of the service. */
  ghost predicate MetDuring(walk: seq<Fetch>, actions: seq<Protocol.Action>, moments: seq<nat>) {
    && |moments| == |walk|
    && (forall i :: 0 <= i < |moments| ==>
          moments[i] <= |actions| && walk[i].table == Protocol.Run(actions[..moments[i]]).db.policies)
    && (forall i :: 0 < i < |moments| ==> moments[i - 1] <= moments[i])
  }

  lemma TablesEvolve(walk: seq<Fetch>, actions: seq<Protocol.Action>, moments: seq<nat>)
    requires MetDuring(walk, actions, moments)
    ensures Evolving(walk)
  {
    forall i | 0 < i < |walk|
      ensures Database.KeysKept(walk[i - 1].table, walk[i].table)
    {
      var early, late := actions[..moments[i - 1]], actions[..moments[i]];
      assert early + late[|early|..] == late;
      Safety.IdentitiesFixed(early, late[|early|..]);
    }
  }

  /** Any interleaving of requests between the pages leaves the walk's guarantees standing. */
  lemma WalkDuringRun(walk: seq<Fetch>, limit: string, status: string, actions: seq<Protocol.Action>, moments: seq<nat>)
    requires IsWalk(walk, limit, status) && MetDuring(walk, actions, moments)
    ensures Descending(Rows(walk))
    ensures forall i, j :: 0 <= i < j < |Rows(walk)| ==> Rows(walk)[i].id != Rows(walk)[j].id
    ensures Completed(walk, limit) ==>
              forall id, createdAt :: ThereThroughout(walk, StatusFilter(status), id, createdAt) ==> Returned(Rows(walk), id)
  {
    TablesEvolve(walk, actions, moments);
    WalkOverChangingTable(walk, limit, status);
  }

  // ---- a table that stands still --------------------------------------------------------------

  predicate Still(walk: seq<Fetch>, t: Table) {
    forall i :: 0 <= i < |walk| ==> walk[i].table == t
  }

  /** The rows below the m-th matching row are the matching rows from the m-th on. */
  lemma BelowIsRest(t: Table, status: Option<string>, m: nat)
    requires Keyed(t) && 0 < m <= |Matching(t, status, None)|
    ensures Matching(t, status, Some(KeyOf(Matching(t, status, None)[m - 1]))) == Matching(t, status, None)[m..]
  {
    var all := Matching(t, status, None);
    var key := KeyOf(all[m - 1]);
    MatchingRows(t, status, None);
    MatchingRows(t, status, Some(key));
    forall p
      ensures p in Matching(t, status, Some(key)) <==> p in all[m..]
    {
      if p in all {
        var i :| 0 <= i < |all| && all[i] == p;
        assert i >= m ==> all[m..][i - m] == p;
        assert i < m ==> !Before(KeyOf(p), key);
      }
    }
    DescendingUnique(Matching(t, status, Some(key)), all[m..]);
  }

  /** After some rows, the next page is the next stretch of the sorted and filtered table. */
  lemma NextStretch(t: Table, status: Option<string>, taken: nat, limit: nat)
    requires Keyed(t) && 0 < taken <= |Matching(t, status, None)|
    ensures var all := Matching(t, status, None);
            var page := Page(t, status, Some(KeyOf(all[taken - 1])), limit);
            && page == Take(all[taken..], limit)
            && all[..taken] + page == Take(all, taken + limit)
            && (Full(page, limit) <==> taken + limit <= |all|)
  {
    var all := Matching(t, status, None);
    BelowIsRest(t, status, taken);
    if |all| - taken > limit {
      assert all[taken..][..limit] == all[taken..taken + limit];
    }
  }

  /** How many rows so many full pages hold. */
  function Seen(limit: nat, pages: nat): nat {
    if pages == 0 then 0 else Seen(limit, pages - 1) + limit
  }

  lemma {:induction false} SeenIsProduct(limit: nat, pages: nat)
    ensures Seen(limit, pages) == limit * pages
  {
    if pages > 0 {
      SeenIsProduct(limit, pages - 1);
      assert limit * pages == limit * (pages - 1) + limit;
    }
  }

  /** What the pages of a walk over a still table add up to. */
  ghost predicate FirstRows(walk: seq<Fetch>, t: Table, limit: nat, status: Option<string>)
    requires walk != [] && Keyed(t)
  {
    var all, n := Matching(t, status, None), |walk|;
    && Rows(walk) == Take(all, Seen(limit, n))
    && Seen(limit, n - 1) <= |all|
    && (Full(walk[n - 1].rows, limit) <==> Seen(limit, n) <= |all|)
  }

  lemma {:induction false} StillRows(walk: seq<Fetch>, t: Table, limit: nat, status: Option<string>)
    requires Keyed(t) && Chained(walk, limit, status) && Still(walk, t)
    ensures FirstRows(walk, t, limit, status)
  {
    if |walk| == 1 {
      StillFirst(walk, t, limit, status);
    } else {
      ChainedPrefix(walk, limit, status);
      StillRows(walk[..|walk| - 1], t, limit, status);
      StillNext(walk, t, limit, status);
    }
  }

  lemma StillFirst(walk: seq<Fetch>, t: Table, limit: nat, status: Option<string>)
    requires Keyed(t) && Chained(walk, limit, status) && Still(walk, t) && |walk| == 1
    ensures FirstRows(walk, t, limit, status)
  {
    assert PageAt(walk, limit, status, 0);
    OnePage(walk);
    assert Seen(limit, 1) == limit;
  }

  lemma StillNext(walk: seq<Fetch>, t: Table, limit: nat, status: Option<string>)
    requires Keyed(t) && Chained(walk, limit, status) && Still(walk, t) && |walk| > 1
    requires FirstRows(walk[..|walk| - 1], t, limit, status)
    ensures FirstRows(walk, t, limit, status)
  {
    var n := |walk| - 1;
    var before := Rows(walk[..n]);
    assert PageAt(walk, limit, status, n);
    assert Full(walk[..n][n - 1].rows, limit);
    assert 0 < Seen(limit, n) <= |Matching(t, status, None)| && before == Take(Matching(t, status, None), Seen(limit, n));
    EndOfPrefix(walk, limit, status);
    NextRows(walk, before, t, limit, status, Seen(limit, n));
  }

  lemma EndOfPrefix(walk: seq<Fetch>, limit: nat, status: Option<string>)
    requires Chained(walk, limit, status) && |walk| > 1
    ensures EndsWith(Rows(walk[..|walk| - 1]), walk[..|walk| - 1], limit)
  {
    ChainedPrefix(walk, limit, status);
    WalkDescends(walk[..|walk| - 1], limit, status);
  }

  lemma NextRows(walk: seq<Fetch>, before: seq<Policy>, t: Table, limit: nat, status: Option<string>, taken: nat)
    requires Keyed(t) && |walk| > 1 && limit >= 1 && PageAt(walk, limit, status, |walk| - 1) && walk[|walk| - 1].table == t
    requires 0 < taken <= |Matching(t, status, None)| && before == Take(Matching(t, status, None), taken)
    requires EndsWith(before, walk[..|walk| - 1], limit)
    ensures before + walk[|walk| - 1].rows == Take(Matching(t, status, None), taken + limit)
    ensures Full(walk[|walk| - 1].rows, limit) <==> taken + limit <= |Matching(t, status, None)|
  {
    assert walk[..|walk| - 1][|walk| - 2] == walk[|walk| - 2];
    assert BelowAt(walk, |walk| - 1) == Some(KeyOf(Matching(t, status, None)[taken - 1]));
    NextStretch(t, status, taken, limit);
  }

  lemma Multiples(limit: nat, a: nat, b: nat)
    requires a <= b
    ensures limit * a <= limit * b
  {
    assert limit * b == limit * a + limit * (b - a);
  }

  lemma Quotient(total: nat, limit: nat, pages: nat)
    requires limit >= 1 && pages >= 1 && limit * (pages - 1) <= total
    ensures total / limit >= pages - 1
    ensures total / limit == pages - 1 <==> total < limit * pages
  {
    var q := total / limit;
    assert limit * q <= total < limit * (q + 1);
    if q < pages - 1 {
      Multiples(limit, q + 1, pages - 1);
    } else if q >= pages {
      Multiples(limit, pages, q);
    }
  }

  /** Over a table that stands still with n matching rows and page size L, the pages so far are
      the first rows of the one sorted and filtered table; a walk never needs more than n / L + 1
      requests, is completed by exactly that many, and has then returned every matching row. */
  lemma WalkOverStillTable(walk: seq<Fetch>, limit: string, status: string, t: Table)
    requires Keyed(t) && IsWalk(walk, limit, status) && Still(walk, t)
    ensures var all, size := Matching(t, StatusFilter(status), None), RequestedLimit(limit);
            && size >= 1
            && Rows(walk) == Take(all, size * |walk|)
            && |walk| <= |all| / size + 1
            && (Completed(walk, limit) <==> |walk| == |all| / size + 1)
            && (Completed(walk, limit) ==> Rows(walk) == all)
  {
    WalkByKeys(walk, limit, status);
    var size: nat, filter := RequestedLimit(limit), StatusFilter(status);
    StillRows(walk, t, size, filter);
    SeenIsProduct(size, |walk|);
    SeenIsProduct(size, |walk| - 1);
    Quotient(|Matching(t, filter, None)|, size, |walk|);
  }

  /** An uncompleted walk never gets stuck: the returned cursor is accepted, by any later table. */
  lemma WalkContinues(walk: seq<Fetch>, limit: string, status: string, next: Table)
    requires IsWalk(walk, limit, status) && !Completed(walk, limit) && Keyed(next) && Printable(next)
    ensures var cursor := NextCursor(walk[|walk| - 1].rows, RequestedLimit(limit));
            var listed := Listed(next, ParamsOf(cursor, limit, status));
            listed.Success? && IsWalk(walk + [Fetch(next, cursor, listed.value)], limit, status)
  {
    WalkByKeys(walk, limit, status);
    var n: nat := RequestedLimit(limit);
    var last := walk[|walk| - 1];
    var cursor := NextCursor(last.rows, n);
    assert PageAt(walk, n, StatusFilter(status), |walk| - 1) && Answered(last, limit, status);
    PrintablePage(last, n);
    NextCursorText(last.rows, n, cursor);
    AcceptedCursor(next, cursor, limit, status, KeyOf(last.rows[n - 1]));
    var f := Fetch(next, cursor, Listed(next, ParamsOf(cursor, limit, status)).value);
    WalkExtends(walk, f, limit, status);
  }

  lemma AcceptedCursor(t: Table, cursor: string, limit: string, status: string, key: Key)
    requires Keyed(t) && Cursor.Decode(cursor) == Success((key.createdAt, key.id))
    ensures Listed(t, ParamsOf(cursor, limit, status)).Success?
  {
  }

  lemma WalkExtends(walk: seq<Fetch>, f: Fetch, limit: string, status: string)
    requires IsWalk(walk, limit, status) && Answered(f, limit, status) && Resumes(walk[|walk| - 1], f, limit)
    ensures IsWalk(walk + [f], limit, status)
  {
    var longer := walk + [f];
    forall i | 0 <= i < |longer|
      ensures Answered(longer[i], limit, status)
      ensures i > 0 ==> Resumes(longer[i - 1], longer[i], limit)
    {
      if i < |walk| {
        assert Answered(walk[i], limit, status);
        assert i > 0 ==> Resumes(walk[i - 1], walk[i], limit);
      }
    }
  }
}
