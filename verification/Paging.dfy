/** Keyset paging of the audit log: one row more than the page holds is fetched from the row after the
    cursor's, newest first, and the page hands out a cursor of its last row exactly if more remain.
    Following the cursors from the first page visits every matching row once, in order, in as many
    pages as the rows need. */
module Paging {
  import opened Options
  import opened Sorting
  import opened Text

  type Id = string

  datatype Row = Row(id: Id, createdAt: int, actorId: string, action: string, subjectType: string, subjectId: string)

  datatype Cursor = Cursor(createdAt: string, id: Id)

  datatype Query = Query(
    limit: Option<int>, cursor: Option<string>,
    actorId: string, action: string, subjectType: string, subjectId: string,
    from: Option<int>, to: Option<int>)

  datatype Page = Page(items: seq<Row>, nextCursor: Option<string>, hasMore: bool)

  datatype Error = InvalidCursor

  const DEFAULT_PAGE_SIZE := 24
  const MAX_PAGE_SIZE := 100

  // ---------------------------------------------------------------- page size and cursor

  function ResolvePageSize(raw: Option<int>): (size: nat)
    ensures raw.Some? && 1 <= raw.value <= 100 ==> size == raw.value
    ensures raw.Some? && raw.value > 100 ==> size == 100
    ensures raw.None? || raw.value < 1 ==> size == 24
  {
    if raw == None || raw.value == 0 || raw.value < 1 then DEFAULT_PAGE_SIZE
    else if raw.value < MAX_PAGE_SIZE then raw.value else MAX_PAGE_SIZE
  }

  /** The text form of a cursor: JSON in base64url, taken as a pair of inverse functions that never
      gives the empty string; `iso` prints a date. */
  datatype Codec = Codec(encode: Cursor -> string, decode: string -> Option<Cursor>, iso: int -> string) {
    ghost predicate Faithful() {
      forall c :: encode(c) != "" && decode(encode(c)) == Some(c)
    }
  }

  function DecodeCursor(codec: Codec, raw: Option<string>): Result<Option<Cursor>, Error> {
    if raw.GetOr("") == "" then Ok(None)
    else
      match codec.decode(raw.value)
      case None => Err(InvalidCursor)
      case Some(c) => Ok(Some(c))
  }

  function BuildPage(codec: Codec, rows: seq<Row>, pageSize: nat): Page {
    var hasMore := |rows| > pageSize;
    var items := if hasMore then rows[..pageSize] else rows;
    if hasMore && |items| > 0 then
      var last := items[|items| - 1];
      Page(items, Some(codec.encode(Cursor(codec.iso(last.createdAt), last.id))), hasMore)
    else Page(items, None, hasMore)
  }

  // ---------------------------------------------------------------- the query

  /** Empty filter strings are absent filters. */
  predicate Matches(q: Query, r: Row) {
    && (q.actorId != "" ==> r.actorId == q.actorId)
    && (q.action != "" ==> r.action == q.action)
    && (q.subjectType != "" ==> r.subjectType == q.subjectType)
    && (q.subjectId != "" ==> r.subjectId == q.subjectId)
    && (q.from.Some? ==> q.from.value <= r.createdAt)
    && (q.to.Some? ==> r.createdAt <= q.to.value)
  }

  predicate NewestFirst(a: Row, b: Row) {
    a.createdAt > b.createdAt || (a.createdAt == b.createdAt && StrLe(b.id, a.id))
  }

  function Filtered(table: seq<Row>, q: Query): seq<Row> {
    if |table| == 0 then []
    else
      var rest := Filtered(table[1..], q);
      if Matches(q, table[0]) then [table[0]] + rest else rest
  }

  function PositionOf(rows: seq<Row>, id: Id): (r: Option<nat>)
    ensures r.Some? ==> r.value < |rows| && rows[r.value].id == id
    ensures r == None ==> forall x :: x in rows ==> x.id != id
  {
    if |rows| == 0 then None
    else if rows[0].id == id then Some(0)
    else
      match PositionOf(rows[1..], id)
      case None => None
      case Some(i) => Some(i + 1)
  }

  /** `findMany` with `cursor`, `skip: 1` and `take`: the rows after the one with the cursor's id;
      no rows when that row does not match. */
  function FindMany(ordered: seq<Row>, cursor: Option<Cursor>, take: nat): seq<Row> {
    var from :=
      match cursor
      case None => ordered
      case Some(c) =>
        match PositionOf(ordered, c.id)
        case None => []
        case Some(i) => ordered[i + 1..];
    if |from| <= take then from else from[..take]
  }

  function Ordered(table: seq<Row>, q: Query): seq<Row> {
    Sort(NewestFirst, Filtered(table, q))
  }

  method List(table: seq<Row>, codec: Codec, q: Query) returns (r: Result<Page, Error>)
    ensures r == ListPage(table, codec, q)
  {
    var limit := ResolvePageSize(q.limit);
    var cursor := DecodeCursor(codec, q.cursor);
    if cursor.Err? {
      return Err(cursor.error);
    }
    var rows := FindMany(Ordered(table, q), cursor.value, limit + 1);
    var hasMore := |rows| > limit;
    var slice := if |rows| <= limit then rows else rows[..limit];
    var nextCursor := None;
    if hasMore && |slice| > 0 {
      var last := slice[|slice| - 1];
      nextCursor := Some(codec.encode(Cursor(codec.iso(last.createdAt), last.id)));
    }
    return Ok(Page(slice, nextCursor, hasMore));
  }

  /** The audit list builds its envelope in line, exactly as the shared helper does. */
  function PageOf(rows: seq<Row>, codec: Codec, limit: nat, raw: Option<string>): Result<Page, Error> {
    match DecodeCursor(codec, raw)
    case Err(e) => Err(e)
    case Ok(cursor) => Ok(BuildPage(codec, FindMany(rows, cursor, limit + 1), limit))
  }

  function ListPage(table: seq<Row>, codec: Codec, q: Query): Result<Page, Error> {
    PageOf(Ordered(table, q), codec, ResolvePageSize(q.limit), q.cursor)
  }

  // ---------------------------------------------------------------- the rows in order

  ghost predicate DistinctIds(rows: seq<Row>) {
    forall i, j :: 0 <= i < j < |rows| ==> rows[i].id != rows[j].id
  }

  lemma {:induction false} FilteredMembers(table: seq<Row>, q: Query)
    ensures forall r :: r in Filtered(table, q) <==> r in table && Matches(q, r)
    ensures DistinctIds(table) ==> DistinctIds(Filtered(table, q))
  {
    if |table| > 0 {
      FilteredMembers(table[1..], q);
      assert table == [table[0]] + table[1..];
      if DistinctIds(table) {
        assert forall r :: r in table[1..] ==> r.id != table[0].id;
      }
    }
  }

  /** The row is not ruled out by any filter that is given. */
  ghost predicate Wanted(q: Query, r: Row) {
    && q.actorId in {"", r.actorId} && q.action in {"", r.action}
    && q.subjectType in {"", r.subjectType} && q.subjectId in {"", r.subjectId}
    && !(q.from.Some? && r.createdAt < q.from.value) && !(q.to.Some? && r.createdAt > q.to.value)
  }

  /** Later rows first, and of rows of one moment those with the greater id. */
  ghost predicate Newest(rows: seq<Row>) {
    forall i, j :: 0 <= i < j < |rows| ==>
      rows[i].createdAt > rows[j].createdAt || (rows[i].createdAt == rows[j].createdAt && StrLe(rows[j].id, rows[i].id))
  }

  lemma NewestFirstTotal()
    ensures TotalPreorder(NewestFirst)
  {
    StrLeTotal();
  }

  /** The ordered rows are the matching rows of the table, newest first, each once. */
  lemma OrderedRows(table: seq<Row>, q: Query)
    requires DistinctIds(table)
    ensures Newest(Ordered(table, q)) && DistinctIds(Ordered(table, q))
    ensures forall r :: r in Ordered(table, q) <==> r in table && Wanted(q, r)
  {
    var rows := Filtered(table, q);
    FilteredMembers(table, q);
    NewestFirstTotal();
    SortSorts(NewestFirst, rows);
    SortPermutes(NewestFirst, rows);
    SameElements(rows, Sort(NewestFirst, rows));
    var differ := (a: Row, b: Row) => a.id != b.id;
    assert forall i, j :: 0 <= i < j < |rows| ==> differ(rows[i], rows[j]) && differ(rows[j], rows[i]);
    PairwisePermutes(differ, rows, Sort(NewestFirst, rows));
    assert forall i, j :: 0 <= i < j < |rows| ==> differ(Sort(NewestFirst, rows)[i], Sort(NewestFirst, rows)[j]);
  }

  // ---------------------------------------------------------------- following the cursor

  /** The pages a client sees that asks at `cursor` and then follows `nextCursor`; `fuel` bounds
      how many it asks for. */
  function Follow(answer: Option<string> -> Result<Page, Error>, cursor: Option<string>, fuel: nat): seq<Page>
    decreases fuel
  {
    if fuel == 0 then []
    else
      match answer(cursor)
      case Err(_) => []
      case Ok(page) => [page] + (if page.nextCursor.Some? then Follow(answer, page.nextCursor, fuel - 1) else [])
  }

  /** The list as a function of the cursor, all other parameters kept. */
  function Endpoint(table: seq<Row>, codec: Codec, q: Query): Option<string> -> Result<Page, Error> {
    (cursor: Option<string>) => ListPage(table, codec, q.(cursor := cursor))
  }

  function AllItems(pages: seq<Page>): seq<Row> {
    if |pages| == 0 then [] else pages[0].items + AllItems(pages[1..])
  }

  /** Pages needed for `n` rows. */
  function PageCount(n: nat, limit: nat): nat
    requires limit > 0
  {
    if n <= limit then 1 else 1 + PageCount(n - limit, limit)
  }

  lemma {:induction false} PageCountIsCeiling(n: nat, limit: nat)
    requires limit > 0
    ensures var p := PageCount(n, limit);
      1 <= p && n <= p * limit && (p == 1 || (p - 1) * limit < n)
  {
    if n > limit {
      PageCountIsCeiling(n - limit, limit);
      var p := PageCount(n - limit, limit);
      assert (p + 1) * limit == p * limit + limit;
      assert p * limit == (p - 1) * limit + limit;
    }
  }

  lemma {:induction false} PositionFound(rows: seq<Row>, i: nat)
    requires DistinctIds(rows) && i < |rows|
    ensures PositionOf(rows, rows[i].id) == Some(i)
  {
    if i > 0 {
      PositionFound(rows[1..], i - 1);
    }
  }

  /** The cursor text that stands for "the first `k` rows were seen". */
  ghost predicate StartsAt(rows: seq<Row>, codec: Codec, cursor: Option<string>, k: nat)
    requires k <= |rows|
  {
    if k == 0 then cursor.GetOr("") == ""
    else cursor == Some(codec.encode(Cursor(codec.iso(rows[k - 1].createdAt), rows[k - 1].id)))
  }

  lemma FoundFrom(rows: seq<Row>, codec: Codec, cursor: Option<string>, k: nat, take: nat)
    requires codec.Faithful() && DistinctIds(rows) && k <= |rows| && StartsAt(rows, codec, cursor, k)
    ensures DecodeCursor(codec, cursor).Ok?
    ensures FindMany(rows, DecodeCursor(codec, cursor).value, take) == if |rows| - k <= take then rows[k..] else rows[k..k + take]
  {
    if k > 0 {
      PositionFound(rows, k - 1);
    }
  }

  lemma SameRows(table: seq<Row>, q: Query, cursor: Option<string>)
    ensures Ordered(table, q.(cursor := cursor)) == Ordered(table, q)
  {
    FilteredSame(table, q, cursor);
  }

  lemma {:induction false} FilteredSame(table: seq<Row>, q: Query, cursor: Option<string>)
    ensures Filtered(table, q.(cursor := cursor)) == Filtered(table, q)
  {
    if |table| > 0 {
      FilteredSame(table[1..], q, cursor);
    }
  }

  /** The page shows the next `limit` rows, says more remain exactly if some do, and hands out the
      cursor of its last row. */
  ghost predicate Continues(rows: seq<Row>, codec: Codec, limit: nat, k: nat, r: Result<Page, Error>)
    requires k <= |rows|
  {
    && r.Ok?
    && (r.value.hasMore <==> |rows| - k > limit)
    && r.value.items == (if |rows| - k > limit then rows[k..k + limit] else rows[k..])
    && r.value.nextCursor.Some? == r.value.hasMore
    && (r.value.hasMore ==> StartsAt(rows, codec, r.value.nextCursor, k + limit))
  }

  lemma PageFrom(rows: seq<Row>, codec: Codec, limit: nat, cursor: Option<string>, k: nat)
    requires codec.Faithful() && DistinctIds(rows) && limit > 0
    requires k <= |rows| && StartsAt(rows, codec, cursor, k)
    ensures Continues(rows, codec, limit, k, PageOf(rows, codec, limit, cursor))
  {
    FoundFrom(rows, codec, cursor, k, limit + 1);
    PageBuilt(rows, codec, k, limit);
  }

  lemma PageBuilt(rows: seq<Row>, codec: Codec, k: nat, limit: nat)
    requires k <= |rows| && limit > 0
    ensures var page := BuildPage(codec, if |rows| - k <= limit + 1 then rows[k..] else rows[k..k + (limit + 1)], limit);
      && (page.hasMore <==> |rows| - k > limit)
      && page.items == (if |rows| - k > limit then rows[k..k + limit] else rows[k..])
      && page.nextCursor.Some? == page.hasMore
      && (page.hasMore ==> StartsAt(rows, codec, page.nextCursor, k + limit))
  {
    var found := if |rows| - k <= limit + 1 then rows[k..] else rows[k..k + (limit + 1)];
    if |rows| - k > limit {
      assert found[..limit] == rows[k..k + limit];
    }
  }

  /** Whether the last page, and only it, says that nothing follows. */
  ghost predicate OnlyLastEnds(pages: seq<Page>) {
    |pages| > 0 && forall i :: 0 <= i < |pages| ==> (pages[i].hasMore <==> i < |pages| - 1)
  }

  /** Whatever was seen so far, the endpoint goes on from there. */
  ghost predicate Serves(answer: Option<string> -> Result<Page, Error>, rows: seq<Row>, codec: Codec, limit: nat) {
    forall c, j: nat {:trigger Continues(rows, codec, limit, j, answer(c))} ::
      j <= |rows| && StartsAt(rows, codec, c, j) ==> Continues(rows, codec, limit, j, answer(c))
  }

  ghost predicate ShowsFrom(rows: seq<Row>, k: nat, limit: nat, pages: seq<Page>)
    requires k <= |rows| && limit > 0
  {
    AllItems(pages) == rows[k..] && |pages| == PageCount(|rows| - k, limit) && OnlyLastEnds(pages)
  }

  lemma {:induction false} FollowFrom(answer: Option<string> -> Result<Page, Error>, rows: seq<Row>, codec: Codec, limit: nat,
                                      cursor: Option<string>, k: nat, fuel: nat)
    requires limit > 0 && k <= |rows| && StartsAt(rows, codec, cursor, k) && Serves(answer, rows, codec, limit)
    requires fuel >= PageCount(|rows| - k, limit)
    ensures ShowsFrom(rows, k, limit, Follow(answer, cursor, fuel))
    decreases fuel
  {
    var r := answer(cursor);
    assert Continues(rows, codec, limit, k, r);
    CountStep(|rows|, k, limit);
    if |rows| - k > limit {
      FollowFrom(answer, rows, codec, limit, r.value.nextCursor, k + limit, fuel - 1);
      FollowNext(answer, rows, codec, limit, cursor, k, fuel, r);
    } else {
      FollowLast(answer, rows, codec, limit, cursor, k, fuel, r);
    }
  }

  lemma FollowNext(answer: Option<string> -> Result<Page, Error>, rows: seq<Row>, codec: Codec, limit: nat,
                   cursor: Option<string>, k: nat, fuel: nat, r: Result<Page, Error>)
    requires limit > 0 && k + limit < |rows| && fuel > 0 && r == answer(cursor) && Continues(rows, codec, limit, k, r)
    requires ShowsFrom(rows, k + limit, limit, Follow(answer, r.value.nextCursor, fuel - 1))
    ensures ShowsFrom(rows, k, limit, Follow(answer, cursor, fuel))
  {
    FollowUnfolds(answer, cursor, fuel, r.value);
    NextPage(rows, codec, k, limit, r, Follow(answer, r.value.nextCursor, fuel - 1), Follow(answer, cursor, fuel));
  }

  lemma FollowLast(answer: Option<string> -> Result<Page, Error>, rows: seq<Row>, codec: Codec, limit: nat,
                   cursor: Option<string>, k: nat, fuel: nat, r: Result<Page, Error>)
    requires limit > 0 && k <= |rows| <= k + limit && fuel > 0 && r == answer(cursor) && Continues(rows, codec, limit, k, r)
    ensures ShowsFrom(rows, k, limit, Follow(answer, cursor, fuel))
  {
    FollowUnfolds(answer, cursor, fuel, r.value);
    FinalPage(rows, k, limit, r.value, Follow(answer, cursor, fuel));
  }

  lemma FollowUnfolds(answer: Option<string> -> Result<Page, Error>, cursor: Option<string>, fuel: nat, page: Page)
    requires fuel > 0 && answer(cursor) == Ok(page)
    ensures Follow(answer, cursor, fuel) ==
      if page.nextCursor.Some? then [page] + Follow(answer, page.nextCursor, fuel - 1) else [page]
  {
  }

  lemma CountStep(n: nat, k: nat, limit: nat)
    requires limit > 0 && k <= n
    ensures PageCount(n - k, limit) == if n - k <= limit then 1 else 1 + PageCount(n - (k + limit), limit)
  {
  }

  lemma FirstPage(rows: seq<Row>, k: nat, limit: nat, page: Page, rest: seq<Page>, pages: seq<Page>)
    requires 0 < limit && k + limit < |rows| && page.items == rows[k..k + limit] && ShowsFrom(rows, k + limit, limit, rest)
    requires page.hasMore && pages == [page] + rest
    ensures ShowsFrom(rows, k, limit, pages)
  {
    EndsLater(page, rest, pages);
    assert pages[1..] == rest;
    CountStep(|rows|, k, limit);
    Cut(rows, k, k + limit);
  }

  lemma NextPage(rows: seq<Row>, codec: Codec, k: nat, limit: nat, r: Result<Page, Error>, rest: seq<Page>, pages: seq<Page>)
    requires 0 < limit && k + limit < |rows| && Continues(rows, codec, limit, k, r) && ShowsFrom(rows, k + limit, limit, rest)
    requires pages == [r.value] + rest
    ensures ShowsFrom(rows, k, limit, pages)
  {
    FirstPage(rows, k, limit, r.value, rest, pages);
  }

  lemma EndsLater(page: Page, rest: seq<Page>, pages: seq<Page>)
    requires page.hasMore && OnlyLastEnds(rest) && pages == [page] + rest
    ensures OnlyLastEnds(pages)
  {
    forall i | 0 <= i < |pages| ensures pages[i].hasMore <==> i < |pages| - 1 {
      if i > 0 {
        assert pages[i] == rest[i - 1];
      }
    }
  }

  lemma Cut<T>(s: seq<T>, i: nat, j: nat)
    requires i <= j <= |s|
    ensures s[i..] == s[i..j] + s[j..]
  {
  }

  lemma FinalPage(rows: seq<Row>, k: nat, limit: nat, page: Page, pages: seq<Page>)
    requires 0 < limit && k <= |rows| <= k + limit && page.items == rows[k..]
    requires !page.hasMore && pages == [page]
    ensures ShowsFrom(rows, k, limit, pages)
  {
    assert pages[1..] == [];
  }

  /** Following `nextCursor` from the first page visits every matching row exactly once, newest
      first, and stops after the ceiling of rows over page size, or one page when there are none;
      `hasMore` is true on every page but the last. */
  lemma VisitsAll(table: seq<Row>, codec: Codec, q: Query, first: Option<string>, fuel: nat)
    requires codec.Faithful() && DistinctIds(table) && first.GetOr("") == ""
    requires fuel >= PageCount(|Ordered(table, q)|, ResolvePageSize(q.limit))
    ensures var pages := Follow(Endpoint(table, codec, q), first, fuel);
      && |pages| == PageCount(|Ordered(table, q)|, ResolvePageSize(q.limit))
      && OnlyLastEnds(pages)
      && Newest(AllItems(pages)) && DistinctIds(AllItems(pages))
      && forall r :: r in AllItems(pages) <==> r in table && Wanted(q, r)
  {
    var rows, limit := Ordered(table, q), ResolvePageSize(q.limit);
    OrderedRows(table, q);
    EndpointContinues(table, codec, q, rows, limit);
    FollowFrom(Endpoint(table, codec, q), rows, codec, limit, first, 0, fuel);
    assert rows[0..] == rows;
  }

  lemma EndpointContinues(table: seq<Row>, codec: Codec, q: Query, rows: seq<Row>, limit: nat)
    requires codec.Faithful() && DistinctIds(rows) && rows == Ordered(table, q) && limit == ResolvePageSize(q.limit)
    ensures Serves(Endpoint(table, codec, q), rows, codec, limit)
  {
    forall c, j: nat | j <= |rows| && StartsAt(rows, codec, c, j)
      ensures Continues(rows, codec, limit, j, Endpoint(table, codec, q)(c))
    {
      SameRows(table, q, c);
      PageFrom(rows, codec, limit, c, j);
    }
  }
}
