/** Keyset listing of policies: the four queries, one specification for all of them, and the
    handler that turns query parameters into a page and the cursor of the next one. */
module Listing {
  import opened Wrappers
  import opened Calendar
  import opened Lifecycle
  import opened Policy
  import Cursor
  import Decimal
  import Timestamp
  import Uuid

  type Table = map<Uuid.Id, Policy>

  datatype Key = Key(createdAt: Nanos, id: Uuid.Id)

  function KeyOf(p: Policy): Key {
    Key(p.createdAt, p.id)
  }

  /** The row comparison (created_at, id) < (...). */
  predicate Before(a: Key, b: Key) {
    a.createdAt < b.createdAt || (a.createdAt == b.createdAt && a.id < b.id)
  }

  predicate Descending(rows: seq<Policy>) {
    forall i, j :: 0 <= i < j < |rows| ==> Before(KeyOf(rows[j]), KeyOf(rows[i]))
  }

  /** Every row is stored under its own id. */
  predicate Keyed(t: Table) {
    forall id :: id in t ==> t[id].id == id
  }

  predicate DistinctIds(rows: set<Policy>) {
    forall p, q :: p in rows && q in rows && p.id == q.id ==> p == q
  }

  // ---- ORDER BY created_at DESC, id DESC --------------------------------------------------

  lemma {:induction false} NewestExists(rows: set<Policy>)
    requires rows != {} && DistinctIds(rows)
    ensures exists p :: p in rows && forall q :: q in rows ==> q == p || Before(KeyOf(q), KeyOf(p))
    decreases |rows|
  {
    var p :| p in rows;
    var rest := rows - {p};
    if rest == {} {
      assert rows == {p};
    } else {
      NewestExists(rest);
      var m :| m in rest && forall q :: q in rest ==> q == m || Before(KeyOf(q), KeyOf(m));
      var newest := if Before(KeyOf(p), KeyOf(m)) then m else p;
      assert forall q :: q in rows ==> q == p || q in rest;
      assert newest in rows && forall q :: q in rows ==> q == newest || Before(KeyOf(q), KeyOf(newest));
    }
  }

  function Newest(rows: set<Policy>): (p: Policy)
    requires rows != {} && DistinctIds(rows)
    ensures p in rows && forall q :: q in rows ==> q == p || Before(KeyOf(q), KeyOf(p))
  {
    NewestExists(rows);
    var p :| p in rows && forall q :: q in rows ==> q == p || Before(KeyOf(q), KeyOf(p));
    p
  }

  function Sorted(rows: set<Policy>): seq<Policy>
    requires DistinctIds(rows)
    decreases |rows|
  {
    if rows == {} then []
    else
      var p := Newest(rows);
      [p] + Sorted(rows - {p})
  }

  lemma {:induction false} SortedRows(rows: set<Policy>)
    requires DistinctIds(rows)
    ensures Descending(Sorted(rows))
    ensures forall p :: p in Sorted(rows) <==> p in rows
    ensures |Sorted(rows)| == |rows|
    decreases |rows|
  {
    if rows != {} {
      var p := Newest(rows);
      var rest := Sorted(rows - {p});
      SortedRows(rows - {p});
      forall i | 0 <= i < |rest|
        ensures Before(KeyOf(rest[i]), KeyOf(p))
      {
        assert rest[i] in rest;
      }
      assert rows == (rows - {p}) + {p};
    }
  }

  lemma SomeRow(rows: seq<Policy>)
    ensures rows != [] ==> exists p :: p in rows
  {
    if rows != [] {
      assert rows[0] in rows;
    }
  }

  /** A descending sequence is determined by the rows it holds. */
  lemma {:induction false} DescendingUnique(a: seq<Policy>, b: seq<Policy>)
    requires Descending(a) && Descending(b) && forall p :: p in a <==> p in b
    ensures a == b
  {
    SomeRow(a);
    SomeRow(b);
    if a != [] {
      assert a[0] in b && (b == [] || b[0] in a);
      var i :| 0 <= i < |b| && b[i] == a[0];
      var j :| 0 <= j < |a| && a[j] == b[0];
      assert a[0] == b[0];
      forall p
        ensures p in a[1..] <==> p in b[1..]
      {
        TailRows(a, p);
        TailRows(b, p);
      }
      DescendingUnique(a[1..], b[1..]);
    }
  }

  lemma TailRows(a: seq<Policy>, p: Policy)
    requires Descending(a) && a != []
    ensures p in a[1..] <==> p in a && p != a[0]
  {
  }

  // ---- the specification ------------------------------------------------------------------

  /** The rows a listing is about: the asked status if any, strictly below the cursor if any. */
  predicate Wanted(p: Policy, status: Option<string>, below: Option<Key>) {
    && (status.Some? ==> StatusText(p.status) == status.value)
    && (below.Some? ==> Before(KeyOf(p), below.value))
  }

  function Filter(rows: seq<Policy>, status: Option<string>, below: Option<Key>): seq<Policy> {
    if rows == [] then []
    else (if Wanted(rows[0], status, below) then [rows[0]] else []) + Filter(rows[1..], status, below)
  }

  function Take(rows: seq<Policy>, limit: nat): seq<Policy> {
    if |rows| <= limit then rows else rows[..limit]
  }

  lemma RowsDistinct(t: Table)
    requires Keyed(t)
    ensures DistinctIds(t.Values)
  {
  }

  /** The whole table in order, filtered: what a complete listing must show. */
  function Matching(t: Table, status: Option<string>, below: Option<Key>): seq<Policy>
    requires Keyed(t)
  {
    RowsDistinct(t);
    Filter(Sorted(t.Values), status, below)
  }

  function Page(t: Table, status: Option<string>, below: Option<Key>, limit: nat): seq<Policy>
    requires Keyed(t)
  {
    Take(Matching(t, status, below), limit)
  }

  lemma {:induction false} FilterRows(rows: seq<Policy>, status: Option<string>, below: Option<Key>)
    requires Descending(rows)
    ensures Descending(Filter(rows, status, below))
    ensures forall p :: p in Filter(rows, status, below) <==> p in rows && Wanted(p, status, below)
  {
    if rows != [] {
      var rest := Filter(rows[1..], status, below);
      FilterRows(rows[1..], status, below);
      forall i | 0 <= i < |rest|
        ensures Before(KeyOf(rest[i]), KeyOf(rows[0]))
      {
        assert rest[i] in rest;
      }
      assert rows == [rows[0]] + rows[1..];
    }
  }

  lemma MatchingRows(t: Table, status: Option<string>, below: Option<Key>)
    requires Keyed(t)
    ensures Descending(Matching(t, status, below))
    ensures forall p :: p in Matching(t, status, below) <==> p in t.Values && Wanted(p, status, below)
  {
    RowsDistinct(t);
    SortedRows(t.Values);
    FilterRows(Sorted(t.Values), status, below);
  }

  // ---- the four queries -------------------------------------------------------------------

  /** The WHERE clauses of the listing queries. */
  datatype Where =
    | AllRows
    | StatusIs(status: string)
    | KeyBelow(key: Key)
    | StatusIsAndKeyBelow(status: string, key: Key)

  predicate Holds(w: Where, p: Policy) {
    match w
    case AllRows => true
    case StatusIs(status) => StatusText(p.status) == status
    case KeyBelow(key) => Before(KeyOf(p), key)
    case StatusIsAndKeyBelow(status, key) => StatusText(p.status) == status && Before(KeyOf(p), key)
  }

  function Selected(t: Table, w: Where): set<Policy> {
    set p | p in t.Values && Holds(w, p)
  }

  /** SELECT ... WHERE w ORDER BY created_at DESC, id DESC LIMIT limit. */
  function Answer(t: Table, w: Where, limit: nat): seq<Policy>
    requires Keyed(t)
  {
    Take(Sorted(Selected(t, w)), limit)
  }

  /** Selecting before sorting gives the same rows in the same order as filtering the sorted
      table, whichever of the four clauses is used. */
  lemma QueryIsFilteredSort(t: Table, w: Where, status: Option<string>, below: Option<Key>)
    requires Keyed(t)
    requires forall p :: p in t.Values ==> (Holds(w, p) <==> Wanted(p, status, below))
    ensures Sorted(Selected(t, w)) == Matching(t, status, below)
  {
    SortedRows(Selected(t, w));
    MatchingRows(t, status, below);
    DescendingUnique(Sorted(Selected(t, w)), Matching(t, status, below));
  }

  // ---- one page -----------------------------------------------------------------------------

  predicate Full(rows: seq<Policy>, limit: nat) {
    |rows| == limit
  }

  /** A page is in strict order, holds only wanted rows, and misses a wanted row only when it
      is full and the row lies below its last one. */
  ghost predicate PageLike(page: seq<Policy>, t: Table, status: Option<string>, below: Option<Key>, limit: nat)
    requires limit >= 1
  {
    && Descending(page) && |page| <= limit
    && (forall p :: p in page ==> p in t.Values && Wanted(p, status, below))
    && (forall p :: p in t.Values && Wanted(p, status, below) ==>
          p in page || (Full(page, limit) && Before(KeyOf(p), KeyOf(page[limit - 1]))))
  }

  lemma PageShape(t: Table, status: Option<string>, below: Option<Key>, limit: nat)
    requires Keyed(t) && limit >= 1
    ensures PageLike(Page(t, status, below, limit), t, status, below, limit)
  {
    var all, page := Matching(t, status, below), Page(t, status, below, limit);
    MatchingRows(t, status, below);
    forall p | p in page
      ensures p in all
    {
      var i :| 0 <= i < |page| && page[i] == p;
      assert all[i] == p;
    }
    forall p | p in all
      ensures p in page || (Full(page, limit) && Before(KeyOf(p), KeyOf(page[limit - 1])))
    {
      var i :| 0 <= i < |all| && all[i] == p;
      if i < limit {
        assert page[i] == p;
      }
    }
  }

  /** The rows a listing is asked for: of the status, if any, and older than the cursor's key. */
  predicate Asked(p: Policy, params: ListParams) {
    && (params.status.Some? ==> StatusText(p.status) == params.status.value)
    && (params.cursor != "" ==>
          match Cursor.Decode(params.cursor)
          case Success((createdAt, id)) => p.createdAt < createdAt || (p.createdAt == createdAt && p.id < id)
          case Failure(_) => false)
  }

  /** Newest first, the later id first on equal times; only asked rows, at most a page of them;
      and an asked row is missing only from a full page, and is then older than its last row. */
  ghost predicate IsPage(rows: seq<Policy>, t: Table, params: ListParams) {
    var limit := if 1 <= params.limit <= 100 then params.limit else 20;
    && |rows| <= limit
    && (forall i, j :: 0 <= i < j < |rows| ==>
          rows[j].createdAt < rows[i].createdAt || (rows[j].createdAt == rows[i].createdAt && rows[j].id < rows[i].id))
    && (forall p :: p in rows ==> p in t.Values && Asked(p, params))
    && (forall p :: p in t.Values && Asked(p, params) ==>
          p in rows || (|rows| == limit
                        && (p.createdAt < rows[limit - 1].createdAt
                            || (p.createdAt == rows[limit - 1].createdAt && p.id < rows[limit - 1].id))))
  }

  // ---- the repository ---------------------------------------------------------------------

  datatype ListParams = ListParams(status: Option<string>, cursor: string, limit: int)

  /** The limit the repository applies. */
  function EffectiveLimit(limit: int): nat {
    if limit <= 0 || limit > 100 then 20 else limit
  }

  /** What a listing returns. */
  function Listed(t: Table, params: ListParams): Result<seq<Policy>, Cursor.Error>
    requires Keyed(t)
  {
    if params.cursor == "" then Success(Page(t, params.status, None, EffectiveLimit(params.limit)))
    else
      var (createdAt, id) :- Cursor.Decode(params.cursor);
      Success(Page(t, params.status, Some(Key(createdAt, id)), EffectiveLimit(params.limit)))
  }

  lemma ListedIsPage(t: Table, params: ListParams)
    requires Keyed(t)
    ensures Listed(t, params).Failure? <==> params.cursor != "" && Cursor.Decode(params.cursor).Failure?
    ensures Listed(t, params).Failure? ==> Listed(t, params).error == Cursor.Decode(params.cursor).error
    ensures Listed(t, params).Success? ==> IsPage(Listed(t, params).value, t, params)
  {
    if Listed(t, params).Success? {
      var below := if params.cursor == "" then None else Some(KeyOfPair(Cursor.Decode(params.cursor).value));
      PageShape(t, params.status, below, EffectiveLimit(params.limit));
      PageIsAsked(Page(t, params.status, below, EffectiveLimit(params.limit)), t, params, below);
    }
  }

  function KeyOfPair(pair: (Nanos, Uuid.Id)): Key {
    Key(pair.0, pair.1)
  }

  lemma PageIsAsked(rows: seq<Policy>, t: Table, params: ListParams, below: Option<Key>)
    requires PageLike(rows, t, params.status, below, EffectiveLimit(params.limit))
    requires params.cursor == "" ==> below == None
    requires params.cursor != "" ==> Cursor.Decode(params.cursor).Success? && below == Some(KeyOfPair(Cursor.Decode(params.cursor).value))
    ensures IsPage(rows, t, params)
  {
    forall p | p in t.Values
      ensures Asked(p, params) <==> Wanted(p, params.status, below)
    {
    }
    forall i, j | 0 <= i < j < |rows|
      ensures rows[j].createdAt < rows[i].createdAt || (rows[j].createdAt == rows[i].createdAt && rows[j].id < rows[i].id)
    {
      assert Before(KeyOf(rows[j]), KeyOf(rows[i]));
    }
  }

  class PolicyRepo {
    var table: Table

    constructor (table: Table)
      ensures this.table == table
    {
      this.table := table;
    }

    /** Runs one of the four queries and copies its answer out row by row. */
    method Query(w: Where, limit: nat) returns (policies: seq<Policy>)
      requires Keyed(table)
      ensures policies == Answer(table, w, limit)
    {
      var rows := Answer(table, w, limit);
      policies := [];
      for i := 0 to |rows|
        invariant policies == rows[..i]
      {
        policies := policies + [rows[i]];
      }
    }

    method ListFirst(status: Option<string>, limit: nat) returns (policies: seq<Policy>)
      requires Keyed(table)
      ensures policies == Page(table, status, None, limit)
    {
      if status.Some? {
        policies := Query(StatusIs(status.value), limit);
        QueryIsFilteredSort(table, StatusIs(status.value), status, None);
      } else {
        policies := Query(AllRows, limit);
        QueryIsFilteredSort(table, AllRows, status, None);
      }
    }

    method ListBelow(status: Option<string>, key: Key, limit: nat) returns (policies: seq<Policy>)
      requires Keyed(table)
      ensures policies == Page(table, status, Some(key), limit)
    {
      if status.Some? {
        policies := Query(StatusIsAndKeyBelow(status.value, key), limit);
        QueryIsFilteredSort(table, StatusIsAndKeyBelow(status.value, key), status, Some(key));
      } else {
        policies := Query(KeyBelow(key), limit);
        QueryIsFilteredSort(table, KeyBelow(key), status, Some(key));
      }
    }

    /** The page the parameters ask for, or the cursor's error. */
    method List(params: ListParams) returns (result: Result<seq<Policy>, Cursor.Error>)
      requires Keyed(table)
      ensures result == Listed(table, params)
      ensures result.Failure? <==> params.cursor != "" && Cursor.Decode(params.cursor).Failure?
      ensures result.Failure? ==> result.error == Cursor.Decode(params.cursor).error
      ensures result.Success? ==> IsPage(result.value, table, params)
    {
      ListedIsPage(table, params);
      var limit := params.limit;
      if limit <= 0 || limit > 100 {
        limit := 20;
      }
      if params.cursor == "" {
        var policies := ListFirst(params.status, limit);
        return Success(policies);
      }
      var decoded := Cursor.Decode(params.cursor);
      if decoded.Failure? {
        return Failure(decoded.error);
      }
      var policies := ListBelow(params.status, Key(decoded.value.0, decoded.value.1), limit);
      result := Success(policies);
    }
  }

  // ---- the handler ------------------------------------------------------------------------

  const MAX_INT64 := 0x7fff_ffff_ffff_ffff

  /** A decimal integer with an optional sign that fits 64 bits. */
  function Atoi(s: string): Option<int> {
    var signed := s != "" && (s[0] == '-' || s[0] == '+');
    var digits := if signed then s[1..] else s;
    if digits == "" || !Decimal.AllDigits(digits) then None
    else
      var n: int := if signed && s[0] == '-' then 0 - Decimal.Value(digits) else Decimal.Value(digits);
      if -MAX_INT64 - 1 <= n <= MAX_INT64 then Some(n) else None
  }

  /** The page size asked for, or 20 when the text is no number from 1 to 100. */
  function RequestedLimit(text: string): int {
    if text == "" then 20
    else
      match Atoi(text)
      case Some(n) => if 0 < n <= 100 then n else 20
      case None => 20
  }

  /** The handler's page size is the repository's, so both mean the same by a full page. */
  lemma LimitsAgree(text: string)
    ensures 1 <= RequestedLimit(text) <= 100
    ensures EffectiveLimit(RequestedLimit(text)) == RequestedLimit(text)
  {
  }

  /** A text without digits, or with anything but digits behind its sign. */
  predicate NoNumeral(text: string) {
    || text == ""
    || ((text[0] == '+' || text[0] == '-') && |text| == 1)
    || (text[0] != '+' && text[0] != '-' && !Decimal.IsDigit(text[0]))
    || (exists i :: 0 < i < |text| && !Decimal.IsDigit(text[i]))
  }

  /** A numeral, bare or behind a plus, is honoured when it is from 1 to 100; any other number
      and everything that is no number means 20. */
  lemma LimitMeans(text: string, digits: string)
    requires Decimal.AllDigits(digits) && digits != ""
    ensures var n := Decimal.Value(digits);
            RequestedLimit(digits) == RequestedLimit("+" + digits) == if 1 <= n <= 100 then n else 20
    ensures RequestedLimit("-" + digits) == 20
    ensures NoNumeral(text) ==> RequestedLimit(text) == 20
  {
    assert Decimal.IsDigit(digits[0]);
    assert ("+" + digits)[1..] == digits && ("-" + digits)[1..] == digits;
    if NoNumeral(text) {
      NoNumeralNoNumber(text);
    }
  }

  lemma NoNumeralNoNumber(text: string)
    requires NoNumeral(text)
    ensures Atoi(text) == None
  {
    if exists i :: 0 < i < |text| && !Decimal.IsDigit(text[i]) {
      var i :| 0 < i < |text| && !Decimal.IsDigit(text[i]);
      assert text[1..][i - 1] == text[i];
    }
  }

  datatype PolicyResponse = PolicyResponse(
    id: string, number: string, holder: string, product: string, status: string,
    effective: string, expiry: string, createdAt: string, updatedAt: string)

  function ToResponse(p: Policy): PolicyResponse {
    PolicyResponse(Uuid.Text(p.id), p.number, p.holder, p.product, StatusText(p.status),
                   Timestamp.FormatSeconds(p.effective), Timestamp.FormatSeconds(p.expiry),
                   Timestamp.FormatSeconds(p.createdAt), Timestamp.FormatSeconds(p.updatedAt))
  }

  /** The item tells the row, field by field; each printed time tells its second. */
  predicate Shows(item: PolicyResponse, p: Policy) {
    && Uuid.Parse(item.id) == Some(p.id)
    && item.number == p.number && item.holder == p.holder && item.product == p.product
    && StatusOf(item.status) == Some(p.status)
    && Timestamp.SecondText(item.effective, p.effective) && Timestamp.SecondText(item.expiry, p.expiry)
    && Timestamp.SecondText(item.createdAt, p.createdAt) && Timestamp.SecondText(item.updatedAt, p.updatedAt)
  }

  lemma ResponseShows(p: Policy)
    ensures Shows(ToResponse(p), p)
  {
    Uuid.RoundTrip(p.id);
    StatusTextReadsBack(p.status, StatusText(p.status));
    Timestamp.PrintsSecond(p.effective);
    Timestamp.PrintsSecond(p.expiry);
    Timestamp.PrintsSecond(p.createdAt);
    Timestamp.PrintsSecond(p.updatedAt);
  }

  datatype PageResponse = PageResponse(items: seq<PolicyResponse>, nextCursor: string)

  function ParamsOf(cursor: string, limit: string, status: string): ListParams {
    ListParams(if status == "" then None else Some(status), cursor, RequestedLimit(limit))
  }

  /** The cursor of the next page: the last row of a full page, or nothing. */
  function NextCursor(rows: seq<Policy>, limit: int): string
    requires limit >= 1
  {
    if |rows| == limit then Cursor.Encode(rows[|rows| - 1].createdAt, rows[|rows| - 1].id) else ""
  }

  method ReadParams(cursor: string, limit: string, status: string) returns (params: ListParams)
    ensures params == ParamsOf(cursor, limit, status)
  {
    params := ListParams(None, cursor, 20);
    if limit != "" {
      var n := Atoi(limit);
      if n.Some? && n.value > 0 && n.value <= 100 {
        params := params.(limit := n.value);
      }
    }
    if status != "" {
      params := params.(status := Some(status));
    }
  }

  method Respond(p: Policy) returns (item: PolicyResponse)
    ensures Shows(item, p)
  {
    item := ToResponse(p);
    ResponseShows(p);
  }

  method Items(policies: seq<Policy>) returns (items: seq<PolicyResponse>)
    ensures |items| == |policies|
    ensures forall i :: 0 <= i < |policies| ==> Shows(items[i], policies[i])
  {
    items := [];
    for i := 0 to |policies|
      invariant |items| == i
      invariant forall k :: 0 <= k < i ==> Shows(items[k], policies[k])
    {
      var item := Respond(policies[i]);
      items := items + [item];
    }
  }

  /** The response shows the rows in order, and names the last one exactly when the page is full. */
  predicate Lists(page: PageResponse, rows: seq<Policy>, limit: int) {
    && |page.items| == |rows|
    && (forall i :: 0 <= i < |rows| ==> Shows(page.items[i], rows[i]))
    && page.nextCursor == if |rows| == limit && rows != [] then Cursor.Encode(rows[|rows| - 1].createdAt, rows[|rows| - 1].id) else ""
  }

  /** One listing request, from query texts to response. */
  method ListPolicies(repo: PolicyRepo, cursor: string, limit: string, status: string)
    returns (response: Result<PageResponse, Cursor.Error>)
    requires Keyed(repo.table)
    ensures response.Failure? <==> cursor != "" && Cursor.Decode(cursor).Failure?
    ensures response.Failure? ==> response.error == Cursor.Decode(cursor).error
    ensures response.Success? ==>
              && Listed(repo.table, ParamsOf(cursor, limit, status)).Success?
              && var rows := Listed(repo.table, ParamsOf(cursor, limit, status)).value;
                 IsPage(rows, repo.table, ParamsOf(cursor, limit, status)) && Lists(response.value, rows, RequestedLimit(limit))
  {
    var params := ReadParams(cursor, limit, status);
    var listed := repo.List(params);
    if listed.Failure? {
      return Failure(listed.error);
    }
    var policies := listed.value;
    var items := Items(policies);
    var next := "";
    if |policies| == params.limit {
      var last := policies[|policies| - 1];
      next := Cursor.Encode(last.createdAt, last.id);
    }
    response := Success(PageResponse(items, next));
  }
}
