/**
  The events API route. `GET` answers from a time-limited response cache, or builds a
  database query from the URL parameters, runs it and caches the rows; `POST` checks the
  required fields of a new event and inserts it. The database is outside this model: running a
  query or an insert is a function parameter whose result stands for what the backend returns.
  Instants are milliseconds, as `Date.now()` returns them.
 */
module EventsRoute {
  import opened Wrappers
  import Text
  import opened EventFilter

  /** How long a cached response lives, in seconds. */
  const CACHE_DURATION: int := 300

  /** The URL search parameters `GET` reads; `None` is a parameter that is absent. */
  datatype QueryParams = QueryParams(
    category: Option<string>,
    subcategories: Option<string>,
    startDate: Option<string>,
    endDate: Option<string>)

  /** `param || 'all'`: an absent or empty parameter is written `all`. */
  function OrAll(param: Option<string>): string {
    if Truthy(param) then param.value else "all"
  }

  /** The five dash-separated fields of a key. */
  function KeyFields(params: QueryParams): seq<string> {
    ["events", OrAll(params.category), OrAll(params.subcategories), OrAll(params.startDate), OrAll(params.endDate)]
  }

  /** The cache key `events-<category>-<subcategories>-<startDate>-<endDate>`: the fields joined by `-`. */
  function CacheKey(params: QueryParams): string {
    Text.Join(KeyFields(params), '-')
  }

  /** Parameters none of which holds a dash. */
  predicate DashFree(params: QueryParams) {
    var fields := KeyFields(params);
    forall k :: 0 <= k < |fields| ==> '-' !in fields[k]
  }

  /** When no parameter holds a dash, splitting the key on `-` reads back the five fields. */
  lemma CacheKeyFields(params: QueryParams)
    requires DashFree(params)
    ensures Text.Split(CacheKey(params), '-') == KeyFields(params)
  {
    Text.SplitJoin(KeyFields(params), '-');
  }

  /**
    Dash-free parameters that share a key agree on every parameter, up to the reading of an
    absent or empty parameter as `all`.
   */
  lemma CacheKeySeparates(p: QueryParams, q: QueryParams)
    requires DashFree(p) && DashFree(q)
    requires CacheKey(p) == CacheKey(q)
    ensures OrAll(p.category) == OrAll(q.category)
    ensures OrAll(p.subcategories) == OrAll(q.subcategories)
    ensures OrAll(p.startDate) == OrAll(q.startDate)
    ensures OrAll(p.endDate) == OrAll(q.endDate)
  {
    CacheKeyFields(p);
    CacheKeyFields(q);
    assert KeyFields(p) == KeyFields(q);
  }

  /** An absent parameter, an empty one and the literal `all` share one cache entry. */
  lemma AbsentIsAll(params: QueryParams)
    ensures CacheKey(params.(category := None)) == CacheKey(params.(category := Some("")))
    ensures CacheKey(params.(category := None)) == CacheKey(params.(category := Some("all")))
  {
  }

  /**
    A dash inside a parameter lets two different requests share a key: `category=Sci-Fi&subcategories=X`
    and `category=Sci&subcategories=Fi-X` read each other's cached rows.
   */
  lemma DashedParametersCollide(a: string, b: string, c: string)
    requires a != "" && b != "" && c != ""
    ensures CacheKey(QueryParams(Some(a + "-" + b), Some(c), None, None))
         == CacheKey(QueryParams(Some(a), Some(b + "-" + c), None, None))
  {
    var p := KeyFields(QueryParams(Some(a + "-" + b), Some(c), None, None));
    var q := KeyFields(QueryParams(Some(a), Some(b + "-" + c), None, None));
    var rest := Text.Join(["all", "all"], '-');
    assert p[3..] == ["all", "all"] && q[3..] == ["all", "all"];
    assert p[2..][1..] == p[3..] && q[2..][1..] == q[3..];
    assert p[1..][1..] == p[2..] && q[1..][1..] == q[2..];
    assert Text.Join(p[3..], '-') == rest && Text.Join(q[3..], '-') == rest;
    assert Text.Join(p[2..], '-') == c + "-" + rest;
    assert Text.Join(q[2..], '-') == (b + "-" + c) + "-" + rest;
    assert Text.Join(p[1..], '-') == (a + "-" + b) + "-" + (c + "-" + rest);
    assert Text.Join(q[1..], '-') == a + "-" + ((b + "-" + c) + "-" + rest);
    assert Text.Join(p, '-') == "events" + "-" + ((a + "-" + b) + "-" + (c + "-" + rest));
    assert Text.Join(q, '-') == "events" + "-" + (a + "-" + ((b + "-" + c) + "-" + rest));
    assert (a + "-" + b) + "-" + (c + "-" + rest) == a + "-" + ((b + "-" + c) + "-" + rest);
  }

  /** A cached value with its expiry instant: the JSON `{ value, expires }` kept under a key. */
  datatype CacheEntry = CacheEntry(value: seq<Event>, expires: int)

  /** What a cache lookup at instant `now` answers: the value of an entry that has not expired. */
  function Lookup(available: bool, store: map<string, CacheEntry>, key: string, now: int): Option<seq<Event>> {
    if available && key in store && store[key].expires > now then Some(store[key].value) else None
  }

  /** The store after a lookup at instant `now`: an expired entry under the key is removed. */
  function AfterLookup(available: bool, store: map<string, CacheEntry>, key: string, now: int)
    : map<string, CacheEntry>
  {
    if available && key in store && store[key].expires <= now then store - {key} else store
  }

  /** The store after caching `value` for `duration` seconds at instant `now`. */
  function AfterStore(available: bool, store: map<string, CacheEntry>, key: string, value: seq<Event>,
                      duration: int, now: int): map<string, CacheEntry>
  {
    if available then store[key := CacheEntry(value, now + duration * 1000)] else store
  }

  /** A value cached at `now` is answered until its duration has passed, and not afterwards. */
  lemma CachedUntilExpiry(store: map<string, CacheEntry>, key: string, value: seq<Event>,
                          duration: int, now: int, later: int)
    ensures Lookup(true, AfterStore(true, store, key, value, duration, now), key, later)
         == if later < now + duration * 1000 then Some(value) else None
  {
  }

  /** A lookup that misses leaves no entry under its key; entries under other keys are untouched. */
  lemma MissClearsKey(store: map<string, CacheEntry>, key: string, now: int)
    requires Lookup(true, store, key, now).None?
    ensures key !in AfterLookup(true, store, key, now)
    ensures forall k :: k != key ==> (k in AfterLookup(true, store, key, now) <==> k in store)
    ensures forall k :: k != key && k in store ==> AfterLookup(true, store, key, now)[k] == store[k]
  {
  }

  /** Without `localStorage` the cache never answers and is never written. */
  lemma UnavailableCacheInert(store: map<string, CacheEntry>, key: string, value: seq<Event>,
                              duration: int, now: int)
    ensures Lookup(false, store, key, now).None?
    ensures AfterLookup(false, store, key, now) == store
    ensures AfterStore(false, store, key, value, duration, now) == store
  {
  }

  /**
    The `localStorage` cache `getCachedResponse` and `cacheResponse` use. It only exists in a
    browser, so `available` is false when the route runs on the server.
   */
  class ResponseCache {
    const available: bool
    var store: map<string, CacheEntry>

    constructor(available: bool)
      ensures this.available == available && store == map[]
    {
      this.available := available;
      store := map[];
    }

    /** `getCachedResponse(key)` at instant `now`. */
    method GetCachedResponse(key: string, now: int) returns (cached: Option<seq<Event>>)
      modifies this
      ensures cached == Lookup(available, old(store), key, now)
      ensures store == AfterLookup(available, old(store), key, now)
    {
      if available && key in store {
        var entry := store[key];
        if entry.expires > now {
          return Some(entry.value);
        }
        store := store - {key};
      }
      return None;
    }

    /** `cacheResponse(key, value, duration)` at instant `now`. */
    method CacheResponse(key: string, value: seq<Event>, duration: int, now: int)
      modifies this
      ensures store == AfterStore(available, old(store), key, value, duration, now)
    {
      if available {
        store := store[key := CacheEntry(value, now + duration * 1000)];
      }
    }
  }

  /** One filter of the database query. */
  datatype RowFilter =
    | Eq(column: string, value: string)
    | In(column: string, values: seq<string>)
    | Gte(column: string, value: string)
    | Lte(column: string, value: string)

  /** A query on `table` with its filters in the order they were added, optionally ordered ascending by a column. */
  datatype Query = Query(table: string, filters: seq<RowFilter>, ascendingBy: Option<string>)

  /** The filter a truthy parameter adds, as a zero- or one-element list. */
  function FilterIf(param: Option<string>, make: string -> RowFilter): seq<RowFilter> {
    if Truthy(param) then [make(param.value)] else []
  }

  function EqCategory(value: string): RowFilter { Eq("category", value) }
  function InCategories(value: string): RowFilter { In("category", Text.Split(value, ',')) }
  function ReleasedFrom(value: string): RowFilter { Gte("release_date", value) }
  function ReleasedUntil(value: string): RowFilter { Lte("release_date", value) }

  /**
    The query `GET` runs: all events, each truthy parameter adding one filter, ordered by
    release date. The subcategory list filters the `category` column.
   */
  function QueryFor(params: QueryParams): (q: Query)
    ensures q.table == "events" && q.ascendingBy == Some("release_date")
  {
    Query("events",
          FilterIf(params.category, EqCategory) + FilterIf(params.subcategories, InCategories)
          + FilterIf(params.startDate, ReleasedFrom) + FilterIf(params.endDate, ReleasedUntil),
          Some("release_date"))
  }

  /** A filter is in the query exactly when it is the filter of a truthy parameter. */
  lemma QueryForMembers(params: QueryParams)
    ensures forall x :: x in QueryFor(params).filters
              <==> ((Truthy(params.category) && x == EqCategory(params.category.value))
                    || (Truthy(params.subcategories) && x == InCategories(params.subcategories.value))
                    || (Truthy(params.startDate) && x == ReleasedFrom(params.startDate.value))
                    || (Truthy(params.endDate) && x == ReleasedUntil(params.endDate.value)))
  {
    var f1, f2 := FilterIf(params.category, EqCategory), FilterIf(params.subcategories, InCategories);
    var f3, f4 := FilterIf(params.startDate, ReleasedFrom), FilterIf(params.endDate, ReleasedUntil);
    assert QueryFor(params).filters == f1 + f2 + f3 + f4;
  }

  /**
    Every filter is on `category` or `release_date`, never on the subcategory columns, and there
    is one filter per truthy parameter.
   */
  lemma QueryForColumns(params: QueryParams)
    ensures var fs := QueryFor(params).filters;
      && (forall k :: 0 <= k < |fs| ==> fs[k].column == "category" || fs[k].column == "release_date")
      && |fs| == (if Truthy(params.category) then 1 else 0) + (if Truthy(params.subcategories) then 1 else 0)
                 + (if Truthy(params.startDate) then 1 else 0) + (if Truthy(params.endDate) then 1 else 0)
  {
    var fs := QueryFor(params).filters;
    QueryForMembers(params);
    forall k | 0 <= k < |fs| ensures fs[k].column == "category" || fs[k].column == "release_date" {
      assert fs[k] in fs;
    }
  }

  /**
    A truthy `category` adds exactly its equality filter, and truthy `subcategories` add exactly
    one membership filter on `category` with the comma-separated list.
   */
  lemma QueryForCategoryFilters(params: QueryParams)
    ensures var fs := QueryFor(params).filters;
      && (forall v :: Eq("category", v) in fs <==> Truthy(params.category) && v == params.category.value)
      && (forall vs :: In("category", vs) in fs
            <==> Truthy(params.subcategories) && vs == Text.Split(params.subcategories.value, ','))
  {
    QueryForMembers(params);
  }

  /** Truthy `startDate` and `endDate` add exactly their lower and upper bounds on `release_date`. */
  lemma QueryForDateFilters(params: QueryParams)
    ensures var fs := QueryFor(params).filters;
      && (forall v :: Gte("release_date", v) in fs <==> Truthy(params.startDate) && v == params.startDate.value)
      && (forall v :: Lte("release_date", v) in fs <==> Truthy(params.endDate) && v == params.endDate.value)
  {
    QueryForMembers(params);
  }

  /** The query built step by step, one reassignment per truthy parameter. */
  method BuildQuery(params: QueryParams) returns (query: Query)
    ensures query == QueryFor(params)
  {
    query := Query("events", [], None);
    if Truthy(params.category) {
      query := query.(filters := query.filters + [Eq("category", params.category.value)]);
    }
    assert query.filters == FilterIf(params.category, EqCategory);
    if Truthy(params.subcategories) {
      var categories := Text.Split(params.subcategories.value, ',');
      query := query.(filters := query.filters + [In("category", categories)]);
    }
    assert query.filters == FilterIf(params.category, EqCategory) + FilterIf(params.subcategories, InCategories);
    if Truthy(params.startDate) {
      query := query.(filters := query.filters + [Gte("release_date", params.startDate.value)]);
    }
    if Truthy(params.endDate) {
      query := query.(filters := query.filters + [Lte("release_date", params.endDate.value)]);
    }
    query := query.(ascendingBy := Some("release_date"));
  }

  /** What the backend returns for a query: rows, an error object, or an exception. */
  datatype QueryOutcome = Rows(rows: seq<Event>) | QueryFailed(message: string) | Crashed

  /** A JSON response body. */
  datatype Body = Events(events: seq<Event>) | Created(event: Event) | Error(message: string)

  datatype Response = Response(status: int, body: Body)

  /**
    The response and the new cache store of `GET` with the cache looked up at `now` and
    written at `storedAt` (the two `Date.now()` readings); `run` answers the query.
   */
  function HandleGet(available: bool, store: map<string, CacheEntry>, params: QueryParams,
                     now: int, storedAt: int, run: Query -> QueryOutcome): (Response, map<string, CacheEntry>)
  {
    var key := CacheKey(params);
    var cached := Lookup(available, store, key, now);
    var store' := AfterLookup(available, store, key, now);
    if cached.Some? then (Response(200, Events(cached.value)), store')
    else match run(QueryFor(params))
      case Rows(rows) => (Response(200, Events(rows)), AfterStore(available, store', key, rows, CACHE_DURATION, storedAt))
      case QueryFailed(message) => (Response(500, Error(message)), store')
      case Crashed => (Response(500, Error("Internal Server Error")), store')
  }

  /** A cache hit is answered with the cached rows whatever the database would return. */
  lemma CacheHitSkipsDatabase(available: bool, store: map<string, CacheEntry>, params: QueryParams,
                              now: int, storedAt: int, run1: Query -> QueryOutcome, run2: Query -> QueryOutcome)
    requires Lookup(available, store, CacheKey(params), now).Some?
    ensures HandleGet(available, store, params, now, storedAt, run1)
         == HandleGet(available, store, params, now, storedAt, run2)
    ensures HandleGet(available, store, params, now, storedAt, run1).0
         == Response(200, Events(Lookup(available, store, CacheKey(params), now).value))
    ensures HandleGet(available, store, params, now, storedAt, run1).1 == store
  {
  }

  /**
    After a `GET` that read rows from the database, the same request within the cache duration
    is answered with those rows without asking the database again.
   */
  lemma RepeatedGetServedFromCache(store: map<string, CacheEntry>, params: QueryParams, now: int, storedAt: int,
                                   run: Query -> QueryOutcome, now2: int, storedAt2: int, run2: Query -> QueryOutcome)
    requires Lookup(true, store, CacheKey(params), now).None?
    requires run(QueryFor(params)).Rows?
    requires now2 < storedAt + CACHE_DURATION * 1000
    ensures HandleGet(true, HandleGet(true, store, params, now, storedAt, run).1, params, now2, storedAt2, run2).0
         == Response(200, Events(run(QueryFor(params)).rows))
  {
    var first := HandleGet(true, store, params, now, storedAt, run);
    assert first.1[CacheKey(params)] == CacheEntry(run(QueryFor(params)).rows, storedAt + CACHE_DURATION * 1000);
  }

  /** A failed `GET` answers 500 with an error body and caches nothing. */
  lemma FailedGetNotCached(available: bool, store: map<string, CacheEntry>, params: QueryParams,
                           now: int, storedAt: int, run: Query -> QueryOutcome)
    requires Lookup(available, store, CacheKey(params), now).None?
    requires !run(QueryFor(params)).Rows?
    ensures HandleGet(available, store, params, now, storedAt, run).0.status == 500
    ensures HandleGet(available, store, params, now, storedAt, run).0.body.Error?
    ensures HandleGet(available, store, params, now, storedAt, run).1
         == AfterLookup(available, store, CacheKey(params), now)
  {
  }

  /** The `GET` handler: cache lookup, query building, the backend call, and caching of the rows. */
  method Get(cache: ResponseCache, params: QueryParams, now: int, storedAt: int, run: Query -> QueryOutcome)
    returns (response: Response)
    modifies cache
    ensures (response, cache.store) == HandleGet(cache.available, old(cache.store), params, now, storedAt, run)
  {
    var key := CacheKey(params);
    var cached := cache.GetCachedResponse(key, now);
    if cached.Some? {
      return Response(200, Events(cached.value));
    }
    var query := BuildQuery(params);
    var outcome := run(query);
    match outcome
    case QueryFailed(message) =>
      response := Response(500, Error(message));
    case Crashed =>
      response := Response(500, Error("Internal Server Error"));
    case Rows(rows) =>
      response := Response(200, Events(rows));
      cache.CacheResponse(key, rows, CACHE_DURATION, storedAt);
  }

  /** The fields of a `POST` body; `None` is a field that is absent. */
  datatype PostBody = PostBody(
    title: Option<string>,
    description: Option<string>,
    release_date: Option<string>,
    category: Option<string>,
    subcategory1: Option<string>,
    subcategory2: Option<string>,
    link: Option<string>)

  /** The row handed to the insert. */
  datatype NewEvent = NewEvent(
    title: string,
    description: Option<string>,
    release_date: string,
    category: string,
    subcategory1: Option<string>,
    subcategory2: Option<string>,
    link: Option<string>)

  /** What the backend returns for an insert: the stored row, an error object, or an exception. */
  datatype InsertOutcome = Inserted(row: Event) | InsertFailed(message: string) | InsertCrashed

  /** `!title || !release_date || !category`. */
  predicate MissingRequired(body: PostBody) {
    !Truthy(body.title) || !Truthy(body.release_date) || !Truthy(body.category)
  }

  /**
    The `POST` handler: the response, and the row it asked the database to insert, if any.
    `request` is `None` when the body is not valid JSON or is JSON `null`: destructuring
    either throws, and the handler answers 500.
   */
  function HandlePost(request: Option<PostBody>, insert: NewEvent -> InsertOutcome): (r: (Response, Option<NewEvent>))
    ensures r.1.Some? <==> request.Some? && !MissingRequired(request.value)
    ensures request.None? ==> r.0 == Response(500, Error("Internal server error"))
    ensures request.Some? && MissingRequired(request.value) ==> r.0 == Response(400, Error("Missing required fields"))
    ensures r.1.Some? ==> var b, row := request.value, r.1.value;
              && row.title == b.title.value && row.release_date == b.release_date.value
              && row.category == b.category.value && row.description == b.description
              && row.subcategory1 == b.subcategory1 && row.subcategory2 == b.subcategory2 && row.link == b.link
    ensures r.1.Some? ==> match insert(r.1.value)
              case Inserted(e) => r.0 == Response(200, Created(e))
              case InsertFailed(message) => r.0 == Response(500, Error(message))
              case InsertCrashed => r.0 == Response(500, Error("Internal server error"))
  {
    match request
    case None => (Response(500, Error("Internal server error")), None)
    case Some(b) =>
      if MissingRequired(b) then (Response(400, Error("Missing required fields")), None)
      else
        var row := NewEvent(b.title.value, b.description, b.release_date.value, b.category.value,
                            b.subcategory1, b.subcategory2, b.link);
        match insert(row)
        case Inserted(e) => (Response(200, Created(e)), Some(row))
        case InsertFailed(message) => (Response(500, Error(message)), Some(row))
        case InsertCrashed => (Response(500, Error("Internal server error")), Some(row))
  }

  /** Description, subcategories and link are optional: they never decide a 400. */
  lemma OptionalFieldsNeverRejected(b: PostBody, description: Option<string>, subcategory1: Option<string>,
                                    subcategory2: Option<string>, link: Option<string>,
                                    insert: NewEvent -> InsertOutcome)
    ensures var b' := b.(description := description, subcategory1 := subcategory1,
                         subcategory2 := subcategory2, link := link);
            (HandlePost(Some(b), insert).0.status == 400) == (HandlePost(Some(b'), insert).0.status == 400)
  {
  }

  /** A successful insert answers 200 with the stored row; every failure answers 400 or 500. */
  lemma PostStatuses(request: Option<PostBody>, insert: NewEvent -> InsertOutcome)
    ensures HandlePost(request, insert).0.status in {200, 400, 500}
    ensures HandlePost(request, insert).0.status == 200
        <==> HandlePost(request, insert).1.Some? && insert(HandlePost(request, insert).1.value).Inserted?
  {
  }
}
