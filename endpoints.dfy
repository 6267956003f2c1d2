/**
 * The lookup endpoints of getmsisdn.js: request validation, the statement text
 * and parameter list each one sends, and the response each one gives. The
 * caller is taken to be authenticated already; a statement the storage rejects
 * (`Down`) is the catch branch that answers 500.
 */
module Endpoints {
  import opened Options
  import opened Schema
  import opened SqlText
  import opened Selection
  import opened Projection

  /** The JSON body of a POST; `None` is a property the body does not have. */
  datatype Body = Body(msisdns: Option<Json>, eventName: Option<Json>)

  /** A statement as handed to pool.query: text with `?` placeholders and the values for them. */
  datatype Query = Query(text: string, params: seq<Json>)

  /** The database: either it answers with the table's rows, or the query fails. */
  datatype Store = Up(events: seq<Event>) | Down

  datatype Response =
    | Rows(rows: seq<Record>)                                        // 200, res.json(results)
    | Listing(page: int, limit: int, total: nat, data: seq<SqlValue>) // 200, the paged MSISDN list
    | Values(data: seq<SqlValue>)                                     // 200, a list of MSISDNs
    | BadRequest(error: string)                                       // 400
    | NotFound(message: string)                                       // 404
    | InternalError                                                   // 500 "Internal Server Error"

  /** What a request leads to: the statement sent to the database, if any, and the answer. */
  datatype Exchange = Exchange(issued: Option<Query>, response: Response)

  const LatestInputError := "Invalid input. Please send an array of MSISDN values."
  const LatestNotFound := "No records found for the given MSISDNs and eventName."
  const GetDataInputError := "Invalid input, send msisdns array and eventName."
  const AllDataInputError := "Invalid input, please send an array of MSISDN values."
  const SearchInputError := "Search term is required"

  /** `Array.isArray(msisdns) && msisdns.length !== 0`. */
  predicate IsKeyArray(msisdns: Option<Json>)
  {
    msisdns.Some? && msisdns.value.JArray? && |msisdns.value.items| > 0
  }

  // ----- statement texts -----

  /** `AND <column> = ?`. */
  function EqualsClause(column: string): (tokens: seq<string>)
    requires '?' !in column
    ensures Marks(tokens) == 1
  {
    MarksAppend(["AND", column, "="], ["?"]);
    MarksFree(["AND", column, "="]);
    QuestionMarkCount();
    ["AND", column, "="] + ["?"]
  }

  /** `(` + placeholders + `)`: the IN list, `?` once per key. */
  function InListText<T>(keys: seq<T>): (s: string)
    ensures Placeholders(s) == |keys|
  {
    var marks := QuestionMarks(keys);
    PlaceholdersAppend("(", marks);
    PlaceholdersAppend("(" + marks, ")");
    PlaceholdersFree("(");
    PlaceholdersFree(")");
    "(" + marks + ")"
  }

  /** A selected column list such as `e.timestamp, e.eventName, ...`. */
  function ColumnList(view: seq<string>, prefix: string): (s: string)
    requires forall k | 0 <= k < |view| :: '?' !in view[k]
    requires '?' !in prefix
    ensures Placeholders(s) == 0
  {
    ColumnListFree(view, prefix, ", ");
    Join(Qualify(view, prefix), ", ")
  }

  /*
   * The fixed words of the statements, grouped into the runs that appear
   * between their spliced-in parts. For each run, one lemma checks that no
   * word contains `?` and a second turns that into a placeholder count of 0.
   * The check is kept apart from the count because counting placeholders
   * directly on literal text makes the solver unfold the count character by
   * character.
   */
  const LatestFrom: seq<string> := ["FROM", "events", "e", "JOIN", "(", "SELECT", "MSISDN,", "MAX(timestamp)",
                                     "AS", "latest_timestamp", "FROM", "events", "WHERE", "MSISDN", "IN"]
  const LatestOn: seq<string> := ["GROUP", "BY", "MSISDN", ")", "latest_events", "ON", "e.MSISDN", "=",
                                   "latest_events.MSISDN", "AND", "e.timestamp", "=", "latest_events.latest_timestamp"]
  const EventsWhereIn: seq<string> := ["FROM", "events", "WHERE", "MSISDN", "IN"]
  const DistinctFrom: seq<string> := ["SELECT", "DISTINCT", "MSISDN", "FROM", "events"]
  const LikeTail: seq<string> := ["WHERE", "MSISDN", "LIKE"]

  lemma LatestFromFree() ensures forall k | 0 <= k < |LatestFrom| :: '?' !in LatestFrom[k] {}
  lemma LatestFromMarks() ensures Marks(LatestFrom) == 0 { LatestFromFree(); MarksFree(LatestFrom); }
  lemma LatestOnFree() ensures forall k | 0 <= k < |LatestOn| :: '?' !in LatestOn[k] {}
  lemma LatestOnMarks() ensures Marks(LatestOn) == 0 { LatestOnFree(); MarksFree(LatestOn); }
  lemma EventsWhereInFree() ensures forall k | 0 <= k < |EventsWhereIn| :: '?' !in EventsWhereIn[k] {}
  lemma EventsWhereInMarks() ensures Marks(EventsWhereIn) == 0 { EventsWhereInFree(); MarksFree(EventsWhereIn); }
  lemma DistinctFromFree() ensures forall k | 0 <= k < |DistinctFrom| :: '?' !in DistinctFrom[k] {}
  lemma DistinctFromMarks() ensures Marks(DistinctFrom) == 0 { DistinctFromFree(); MarksFree(DistinctFrom); }
  lemma LikeTailFree() ensures forall k | 0 <= k < |LikeTail| :: '?' !in LikeTail[k] {}
  lemma LikeTailMarks() ensures Marks(LikeTail) == 0 { LikeTailFree(); MarksFree(LikeTail); }

  /**
   * The single keywords (`SELECT`, `*`, `;`, `LIMIT`, `OFFSET`, `100`) carry no
   * placeholder and `(?)` carries one; `Keywords` only collects the keywords
   * for the check above.
   */
  const Keywords: seq<string> := ["SELECT", "*", ";", "LIMIT", "OFFSET", "100"]
  lemma KeywordsFree() ensures forall k | 0 <= k < |Keywords| :: '?' !in Keywords[k] {}
  lemma SelectMarks() ensures Marks(["SELECT"]) == 0 && Marks(["SELECT", "*"]) == 0
  {
    KeywordsFree();
    assert Keywords[0] == "SELECT" && Keywords[1] == "*";
    MarksFree(["SELECT"]);
    MarksFree(["SELECT", "*"]);
  }
  lemma SemicolonMarks() ensures Marks([";"]) == 0 { KeywordsFree(); assert Keywords[2] == ";"; MarksFree([";"]); }
  lemma LimitMarks() ensures Marks(["LIMIT"]) == 0 && Marks(["OFFSET"]) == 0
  {
    KeywordsFree();
    assert Keywords[3] == "LIMIT" && Keywords[4] == "OFFSET";
    MarksFree(["LIMIT"]);
    MarksFree(["OFFSET"]);
  }
  lemma LimitHundredMarks() ensures Marks(["LIMIT", "100"]) == 0
  {
    KeywordsFree();
    assert Keywords[3] == "LIMIT" && Keywords[5] == "100";
    MarksFree(["LIMIT", "100"]);
  }
  lemma ArrayMarkMarks() ensures Marks(["(?)"]) == 1
  {
    assert "(?)"[1..] == "?)" && "?)"[1..] == ")" && ")"[1..] == [];
    MarksSingle("(?)");
  }

  /** The aliases and column names the statements splice in carry no placeholder. */
  lemma NamesFree() ensures '?' !in "" && '?' !in "e." && '?' !in "eventName" && '?' !in "e.eventName" {}

  // ----- /api/getLatestDataByMSISDNs -----

  /** `SELECT e.<columns> FROM events e JOIN (SELECT MSISDN, MAX(timestamp) ... WHERE MSISDN IN`: no placeholder. */
  function LatestHead(view: seq<string>): (tokens: seq<string>)
    requires forall k | 0 <= k < |view| :: '?' !in view[k]
    ensures Marks(tokens) == 0
  {
    NamesFree();
    var cols := ColumnList(view, "e.");
    SelectMarks();
    LatestFromMarks();
    MarksSingle(cols);
    MarksAppend(["SELECT"], [cols]);
    MarksAppend(["SELECT"] + [cols], LatestFrom);
    ["SELECT"] + [cols] + LatestFrom
  }

  /** `[AND eventName = ?] GROUP BY MSISDN) latest_events ON ... [AND e.eventName = ?] ;`: two placeholders when filtered. */
  function LatestTail(filtered: bool): (tokens: seq<string>)
    ensures Marks(tokens) == if filtered then 2 else 0
  {
    NamesFree();
    var inner := if filtered then EqualsClause("eventName") else [];
    var outer := if filtered then EqualsClause("e.eventName") else [];
    SemicolonMarks();
    LatestOnMarks();
    assert Marks([]) == 0;
    MarksAppend(inner, LatestOn);
    MarksAppend(inner + LatestOn, outer);
    MarksAppend(inner + LatestOn + outer, [";"]);
    inner + LatestOn + outer + [";"]
  }

  /** The tokens of the group-max statement; `filtered` adds `AND eventName = ?` to the subquery and `AND e.eventName = ?` to the join. */
  function LatestStatement(view: seq<string>, keys: seq<Json>, filtered: bool): (tokens: seq<string>)
    requires forall k | 0 <= k < |view| :: '?' !in view[k]
    ensures Marks(tokens) == |keys| + if filtered then 2 else 0
  {
    var head := LatestHead(view);
    var list := InListText(keys);
    var tail := LatestTail(filtered);
    MarksSingle(list);
    MarksAppend(head, [list]);
    MarksAppend(head + [list], tail);
    head + [list] + tail
  }

  /** The statement `getLatestDataByMSISDNs` sends: placeholders and parameters agree in number. */
  function LatestQuery(view: seq<string>, keys: seq<Json>, eventName: Option<Json>): (q: Query)
    requires forall k | 0 <= k < |view| :: '?' !in view[k]
    ensures Placeholders(q.text) == |q.params|
    ensures |q.params| == |keys| + if eventName.Some? then 2 else 0
    ensures q.params[..|keys|] == keys
    ensures eventName.Some? ==> q.params[|keys|] == eventName.value && q.params[|keys| + 1] == eventName.value
  {
    var tokens := LatestStatement(view, keys, eventName.Some?);
    RenderPlaceholders(tokens);
    var params := if eventName.Some? then keys + [eventName.value, eventName.value] else keys;
    Query(Render(tokens), params)
  }

  /**
   * Running the group-max statement: the placeholders are filled by position,
   * the first n parameters into the IN list, then one into the subquery's
   * eventName test and the last into the join's.
   */
  function RunLatest(d: Dialect, events: seq<Event>, params: seq<Json>, n: nat, filtered: bool): seq<Event>
    requires |params| == n + if filtered then 2 else 0
  {
    GroupMaxJoin(d, events, params[..n],
                 if filtered then Some(params[n]) else None,
                 if filtered then Some(params[n + 1]) else None)
  }

  function GetLatestDataByMsisdns(d: Dialect, store: Store, body: Body): (x: Exchange)
    ensures x.issued.None? <==> !IsKeyArray(body.msisdns)
    ensures x.issued.None? ==> x.response == BadRequest(LatestInputError)
    ensures x.issued.Some? ==> Placeholders(x.issued.value.text) == |x.issued.value.params|
    ensures x.issued.Some? && store.Down? ==> x.response == InternalError
  {
    if !IsKeyArray(body.msisdns) then Exchange(None, BadRequest(LatestInputError))
    else
      var keys := body.msisdns.value.items;
      var q := LatestQuery(ViewFor(body.eventName), keys, body.eventName);
      var response :=
        match store
        case Down => InternalError
        case Up(events) =>
          var rows := RunLatest(d, events, q.params, |keys|, body.eventName.Some?);
          if |rows| == 0 then NotFound(LatestNotFound) else Rows(ProjectAll(rows, ViewFor(body.eventName)));
      Exchange(Some(q), response)
  }

  /**
   * `getLatestDataByMSISDNs` answers with exactly the rows that are the latest
   * of their MSISDN among the rows matching the request, projected by the view
   * `eventName` selects; with no such row it answers 404.
   */
  lemma LatestEndpointCorrect(d: Dialect, events: seq<Event>, body: Body)
    requires IsKeyArray(body.msisdns)
    ensures var keys := body.msisdns.value.items;
      var latest := Filter(events, (e: Event) => IsLatest(d, events, keys, body.eventName, e));
      var x := GetLatestDataByMsisdns(d, Up(events), body);
      && (latest == [] ==> x.response == NotFound(LatestNotFound))
      && (latest != [] ==> x.response == Rows(ProjectAll(latest, ViewFor(body.eventName))))
  {
    var keys := body.msisdns.value.items;
    var q := LatestQuery(ViewFor(body.eventName), keys, body.eventName);
    assert RunLatest(d, events, q.params, |keys|, body.eventName.Some?)
        == GroupMaxJoin(d, events, keys, body.eventName, body.eventName);
    GroupMaxJoinMeaning(d, events, keys, body.eventName);
  }

  // ----- /api/getData -----

  /** The driver writes an array parameter as a comma-separated list. */
  function Expand(p: Json): seq<Json>
  {
    if p.JArray? then p.items else [p]
  }

  /** `SELECT <view> FROM events WHERE MSISDN IN (?) AND eventName = ?` with the array and the eventName. */
  function GetDataQuery(view: seq<string>, msisdns: Json, eventName: Json): (q: Query)
    requires forall k | 0 <= k < |view| :: '?' !in view[k]
    ensures Placeholders(q.text) == |q.params| == 2
    ensures q.params == [msisdns, eventName]
  {
    NamesFree();
    var cols := ColumnList(view, "");
    var tail := EqualsClause("eventName");
    SelectMarks();
    ArrayMarkMarks();
    EventsWhereInMarks();
    MarksSingle(cols);
    MarksAppend(["SELECT"], [cols]);
    MarksAppend(["SELECT"] + [cols], EventsWhereIn);
    MarksAppend(["SELECT"] + [cols] + EventsWhereIn, ["(?)"]);
    MarksAppend(["SELECT"] + [cols] + EventsWhereIn + ["(?)"], tail);
    var tokens := ["SELECT"] + [cols] + EventsWhereIn + ["(?)"] + tail;
    RenderPlaceholders(tokens);
    Query(Render(tokens), [msisdns, eventName])
  }

  function GetData(d: Dialect, store: Store, body: Body): (x: Exchange)
    ensures x.issued.None? <==> !IsKeyArray(body.msisdns) || body.eventName.None?
    ensures x.issued.None? ==> x.response == BadRequest(GetDataInputError)
    ensures x.issued.Some? ==> Placeholders(x.issued.value.text) == |x.issued.value.params| == 2
    ensures x.issued.Some? && store.Down? ==> x.response == InternalError
  {
    if !IsKeyArray(body.msisdns) || body.eventName.None? then Exchange(None, BadRequest(GetDataInputError))
    else
      var view := ViewFor(body.eventName);
      var q := GetDataQuery(view, body.msisdns.value, body.eventName.value);
      var response :=
        match store
        case Down => InternalError
        case Up(events) =>
          Rows(ProjectAll(Filter(events, (e: Event) => InList(d, e.msisdn, Expand(q.params[0])) && SqlEquals(d, e.eventName, q.params[1])), view));
      Exchange(Some(q), response)
  }

  /** `getData` answers with every row whose MSISDN is requested and whose eventName equals the given one, possibly none. */
  lemma GetDataCorrect(d: Dialect, events: seq<Event>, body: Body)
    requires IsKeyArray(body.msisdns) && body.eventName.Some?
    ensures var keys := body.msisdns.value.items;
      var matching := Filter(events, (e: Event) => Where(d, e, keys, body.eventName));
      && GetData(d, Up(events), body).response == Rows(ProjectAll(matching, ViewFor(body.eventName)))
      && forall e :: e in matching <==> e in events && InList(d, e.msisdn, keys) && SqlEquals(d, e.eventName, body.eventName.value)
  {
    var keys := body.msisdns.value.items;
    FilterAgrees(events, (e: Event) => InList(d, e.msisdn, Expand(body.msisdns.value)) && SqlEquals(d, e.eventName, body.eventName.value),
                 (e: Event) => Where(d, e, keys, body.eventName));
    forall e {
      FilterMembers(events, (e: Event) => Where(d, e, keys, body.eventName), e);
    }
  }

  // ----- /api/getAllDataByMSISDNs -----

  /** `SELECT * FROM events WHERE MSISDN IN (?,...,?)` with the keys. */
  function AllDataQuery(keys: seq<Json>): (q: Query)
    ensures Placeholders(q.text) == |q.params|
    ensures q.params == keys
  {
    var list := InListText(keys);
    SelectMarks();
    EventsWhereInMarks();
    MarksSingle(list);
    MarksAppend(["SELECT", "*"], EventsWhereIn);
    MarksAppend(["SELECT", "*"] + EventsWhereIn, [list]);
    var tokens := ["SELECT", "*"] + EventsWhereIn + [list];
    RenderPlaceholders(tokens);
    Query(Render(tokens), keys)
  }

  function GetAllDataByMsisdns(d: Dialect, store: Store, body: Body): (x: Exchange)
    ensures x.issued.None? <==> !IsKeyArray(body.msisdns)
    ensures x.issued.None? ==> x.response == BadRequest(AllDataInputError)
    ensures x.issued.Some? ==> |x.issued.value.params| == |body.msisdns.value.items|
    ensures x.issued.Some? ==> Placeholders(x.issued.value.text) == |x.issued.value.params|
    ensures x.issued.Some? && store.Down? ==> x.response == InternalError
  {
    if !IsKeyArray(body.msisdns) then Exchange(None, BadRequest(AllDataInputError))
    else
      var keys := body.msisdns.value.items;
      var q := AllDataQuery(keys);
      var response :=
        match store
        case Down => InternalError
        case Up(events) => Rows(ProjectAll(Filter(events, (e: Event) => InList(d, e.msisdn, q.params)), Columns));
      Exchange(Some(q), response)
  }

  /** `getAllDataByMSISDNs` answers with every column of every row whose MSISDN is requested, and of no other row. */
  lemma AllDataCorrect(d: Dialect, events: seq<Event>, body: Body)
    requires IsKeyArray(body.msisdns)
    ensures var keys := body.msisdns.value.items;
      var matching := Filter(events, (e: Event) => Where(d, e, keys, None));
      && GetAllDataByMsisdns(d, Up(events), body).response == Rows(ProjectAll(matching, Columns))
      && forall e :: e in matching <==> e in events && InList(d, e.msisdn, keys)
  {
    var keys := body.msisdns.value.items;
    FilterAgrees(events, (e: Event) => InList(d, e.msisdn, keys), (e: Event) => Where(d, e, keys, None));
    forall e {
      FilterMembers(events, (e: Event) => Where(d, e, keys, None), e);
    }
  }

  // ----- /api/msisdns -----

  /** The distinct MSISDNs of the table, NULL included, in the order DISTINCT yields them. */
  function DistinctMsisdns(events: seq<Event>): seq<SqlValue>
  {
    Distinct(MsisdnColumn(events))
  }

  /** `SELECT DISTINCT MSISDN FROM events LIMIT ? OFFSET ?` with the limit and the offset. */
  function ListQuery(limit: int, offset: int): (q: Query)
    ensures Placeholders(q.text) == |q.params| == 2
    ensures q.params == [JNumber(limit as real), JNumber(offset as real)]
  {
    LimitMarks();
    DistinctFromMarks();
    QuestionMarkCount();
    MarksAppend(DistinctFrom, ["LIMIT"]);
    MarksAppend(DistinctFrom + ["LIMIT"], ["?"]);
    MarksAppend(DistinctFrom + ["LIMIT"] + ["?"], ["OFFSET"]);
    MarksAppend(DistinctFrom + ["LIMIT"] + ["?"] + ["OFFSET"], ["?"]);
    var tokens := DistinctFrom + ["LIMIT"] + ["?"] + ["OFFSET"] + ["?"];
    RenderPlaceholders(tokens);
    Query(Render(tokens), [JNumber(limit as real), JNumber(offset as real)])
  }

  /** `GET /api/msisdns?page&limit`, with page 1 and limit 100 when absent; MySQL rejects a negative LIMIT or OFFSET. */
  function ListMsisdns(store: Store, page: Option<int>, limit: Option<int>): (x: Exchange)
    ensures x.issued.Some? && Placeholders(x.issued.value.text) == |x.issued.value.params| == 2
  {
    var p := if page.Some? then page.value else 1;
    var l := if limit.Some? then limit.value else 100;
    var offset := (p - 1) * l;
    var q := ListQuery(l, offset);
    var response :=
      if store.Down? || l < 0 || offset < 0 then InternalError
      else
        var data := Selection.Page(DistinctMsisdns(store.events), offset, l);
        Listing(p, l, |data|, data);
    Exchange(Some(q), response)
  }

  /** Page p holds the distinct MSISDNs at positions (p-1)*limit up to p*limit, each once. */
  lemma ListMsisdnsCorrect(events: seq<Event>, page: int, limit: int)
    requires limit >= 0 && (page - 1) * limit >= 0
    ensures var x := ListMsisdns(Up(events), Some(page), Some(limit));
      var all := DistinctMsisdns(events);
      var offset := (page - 1) * limit;
      && x.response.Listing?
      && x.response.page == page && x.response.limit == limit
      && x.response.total == |x.response.data| <= limit
      && |x.response.data| == (if offset >= |all| then 0 else if limit < |all| - offset then limit else |all| - offset)
      && (forall j | 0 <= j < |x.response.data| :: x.response.data[j] == all[offset + j])
      && (offset + limit <= |all| ==> |x.response.data| == limit)
  {
  }

  /** Page and limit default to 1 and 100 when the query string leaves them out. */
  lemma ListDefaults(store: Store, page: Option<int>, limit: Option<int>)
    ensures ListMsisdns(store, None, limit) == ListMsisdns(store, Some(1), limit)
    ensures ListMsisdns(store, page, None) == ListMsisdns(store, page, Some(100))
  {
  }

  /** The listing fails with 500 exactly when the database fails or the driver is handed a negative LIMIT or OFFSET. */
  lemma ListErrors(store: Store, page: int, limit: int)
    ensures ListMsisdns(store, Some(page), Some(limit)).response.InternalError?
        <==> store.Down? || limit < 0 || (page - 1) * limit < 0
  {
  }

  /** Every distinct MSISDN of the table is listed on some page, for any positive limit; the lemma names that page. */
  lemma EveryMsisdnHasAPage(events: seq<Event>, limit: int, v: SqlValue) returns (page: int)
    requires limit > 0
    requires v in MsisdnColumn(events)
    ensures 1 <= page <= |events|
    ensures v in ListMsisdns(Up(events), Some(page), Some(limit)).response.data
  {
    var all := DistinctMsisdns(events);
    var i :| 0 <= i < |all| && all[i] == v;
    DistinctShorter(MsisdnColumn(events));
    page := Window(i, limit);
    ListedAt(events, page, limit, i - (page - 1) * limit);
  }

  /** The entry at position r of page p's window is listed on page p. */
  lemma ListedAt(events: seq<Event>, page: int, limit: int, r: nat)
    requires page >= 1 && r < limit
    requires (page - 1) * limit + r < |DistinctMsisdns(events)|
    ensures DistinctMsisdns(events)[(page - 1) * limit + r] in ListMsisdns(Up(events), Some(page), Some(limit)).response.data
  {
    var offset := (page - 1) * limit;
    ListMsisdnsCorrect(events, page, limit);
    PageCovers(DistinctMsisdns(events), offset, limit, r);
    assert ListMsisdns(Up(events), Some(page), Some(limit)).response.data[r] == DistinctMsisdns(events)[offset + r];
  }

  /** Position i falls in the window of the given size that page `page` starts at, (page - 1) * size. */
  lemma Window(i: nat, size: int) returns (page: int)
    requires size > 0
    ensures 1 <= page <= i + 1 && (page - 1) * size <= i < (page - 1) * size + size
  {
    var q := i / size;
    assert q * size >= q;
    page := q + 1;
    assert page - 1 == q;
  }

  /** A position within the window of a page lies among the page's entries. */
  lemma PageCovers<T>(s: seq<T>, offset: nat, count: nat, r: nat)
    requires r < count && offset + r < |s|
    ensures r < |Selection.Page(s, offset, count)|
  {
  }

  /** DISTINCT never lengthens a list. */
  lemma {:induction false} DistinctShorter<T>(s: seq<T>)
    ensures |Distinct(s)| <= |s|
    decreases |s|
  {
    if s != [] {
      DistinctShorter(s[..|s| - 1]);
    }
  }

  // ----- /api/msisdns/search -----

  /** The rows whose MSISDN contains the term. */
  function Matching(events: seq<Event>, term: string): seq<Event>
  {
    Filter(events, (e: Event) => e.msisdn.Some? && Contains(e.msisdn.value, term))
  }

  /** `SELECT DISTINCT MSISDN FROM events WHERE MSISDN LIKE ? LIMIT 100` with the pattern `%term%`. */
  function SearchQuery(term: string): (q: Query)
    ensures Placeholders(q.text) == |q.params| == 1
    ensures q.params == [JString("%" + term + "%")]
  {
    LimitHundredMarks();
    DistinctFromMarks();
    LikeTailMarks();
    QuestionMarkCount();
    MarksAppend(DistinctFrom, LikeTail);
    MarksAppend(DistinctFrom + LikeTail, ["?"]);
    MarksAppend(DistinctFrom + LikeTail + ["?"], ["LIMIT", "100"]);
    var tokens := DistinctFrom + LikeTail + ["?"] + ["LIMIT", "100"];
    RenderPlaceholders(tokens);
    Query(Render(tokens), [JString("%" + term + "%")])
  }

  /** `GET /api/msisdns/search?q=term`: distinct MSISDNs containing the term, at most 100. */
  function SearchMsisdns(store: Store, term: Option<string>): (x: Exchange)
    ensures x.issued.None? <==> term.None? || term.value == ""
    ensures x.issued.None? ==> x.response == BadRequest(SearchInputError)
    ensures x.issued.Some? ==> Placeholders(x.issued.value.text) == |x.issued.value.params| == 1
    ensures x.issued.Some? && store.Down? ==> x.response == InternalError
  {
    if term.None? || term.value == "" then Exchange(None, BadRequest(SearchInputError))
    else
      var q := SearchQuery(term.value);
      var response :=
        match store
        case Down => InternalError
        case Up(events) => Values(Selection.Page(DistinctMsisdns(Matching(events, term.value)), 0, 100));
      Exchange(Some(q), response)
  }

  /**
   * Search answers with at most 100 MSISDNs, each containing the term, each once,
   * each from some row; and with fewer than 100, every MSISDN containing the term.
   */
  lemma SearchCorrect(events: seq<Event>, term: string)
    requires term != ""
    ensures var x := SearchMsisdns(Up(events), Some(term));
      && x.response.Values?
      && |x.response.data| <= 100
      && (forall j | 0 <= j < |x.response.data| ::
            x.response.data[j].SqlText? && Contains(x.response.data[j].text, term)
            && exists i | 0 <= i < |events| :: events[i].msisdn == Some(x.response.data[j].text))
      && (forall i, j | 0 <= i < j < |x.response.data| :: x.response.data[i] != x.response.data[j])
      && (|x.response.data| < 100 ==>
            forall i | 0 <= i < |events| && events[i].msisdn.Some? && Contains(events[i].msisdn.value, term) ::
              SqlText(events[i].msisdn.value) in x.response.data)
  {
    var m := Matching(events, term);
    var p := (e: Event) => e.msisdn.Some? && Contains(e.msisdn.value, term);
    var all := DistinctMsisdns(m);
    var data := Selection.Page(all, 0, 100);
    forall j | 0 <= j < |data|
      ensures data[j].SqlText? && Contains(data[j].text, term)
      ensures exists i | 0 <= i < |events| :: events[i].msisdn == Some(data[j].text)
    {
      assert data[j] in MsisdnColumn(m);
      var k :| 0 <= k < |m| && MsisdnColumn(m)[k] == data[j];
      assert m[k] in m;
      FilterMembers(events, p, m[k]);
    }
    if |data| < 100 {
      forall i | 0 <= i < |events| && events[i].msisdn.Some? && Contains(events[i].msisdn.value, term)
        ensures SqlText(events[i].msisdn.value) in data
      {
        FilterMembers(events, p, events[i]);
        var k :| 0 <= k < |m| && m[k] == events[i];
        assert MsisdnColumn(m)[k] == SqlText(events[i].msisdn.value);
        assert data == all;
      }
    }
  }
}
