/**
 * The search-configuration service: the filters a user submits, the columns of
 * the "searches" table that hold them, the conversions between the two, and the
 * create / update / delete / list sequences with their ownership checks. The
 * table is a class over the rows in insertion order; how each call through the
 * database client ends is a parameter, and the user id is the one the auth
 * service resolved from the session token.
 */
module SearchService {
  import opened Wrappers
  import opened Text
  import opened Dates
  import opened DatabaseClient

  /** SearchFilters: the filters of one saved search, as the client sends them. */
  datatype SearchFilters = SearchFilters(
    location: string, maxPrice: int, minSize: int, dateRange: string,
    propertyTypes: seq<string>, rentTypes: seq<string>, wgTypes: seq<string>, districts: seq<string>,
    gender: string, smoking: string)

  /** The value of gender and smoking when the client leaves them out. */
  const AnyPreference := "egal"

  datatype SearchConfig = SearchConfig(name: string, filters: SearchFilters)

  /** The filter columns of a "searches" row, named as the table names them. */
  datatype SearchColumns = SearchColumns(
    location: string, propertyTypes: seq<string>, rentTypes: seq<string>,
    dateRangeStart: string, dateRangeEnd: string, districts: seq<string>,
    maxPrice: int, minSize: int, wgTypes: seq<string>,
    genderPreference: string, smokingPreference: string)

  /** The columns the service reads but never writes: active, total_found, new_listings, last_run. */
  datatype RunStats = RunStats(active: bool, totalFound: int, newListings: int, lastRun: Option<string>)

  /** A whole "searches" row. */
  datatype StoredSearch = StoredSearch(id: nat, userId: string, name: string, columns: SearchColumns, stats: RunStats)

  /** What the client gets back for one row. */
  datatype Stats = Stats(totalFound: int, newListings: int, lastRun: Option<string>)
  datatype SearchView = SearchView(id: string, name: string, filters: SearchFilters, active: bool, stats: Stats)

  // ---------------------------------------------------------------- _parse_date_range

  const RangeSeparator := " - "

  /** Why a date range does not parse: not exactly two halves around " - ", or a half strptime refuses. */
  datatype DateRangeError = NotTwoHalves | BadHalf(dateError: DateError)

  /** _parse_date_range: split at " - " into exactly two halves, each read as "%d.%m.%Y". */
  function ParseDateRange(range: string): (r: Result<(Date, Date), DateRangeError>)
    ensures r.Ok? ==> ValidDate(r.value.0) && ValidDate(r.value.1)
  {
    var halves := Split(range, RangeSeparator);
    if |halves| != 2 then Err(NotTwoHalves)
    else
      match ParseDate(halves[0])
      case Err(e) => Err(BadHalf(e))
      case Ok(start) =>
        match ParseDate(halves[1])
        case Err(e) => Err(BadHalf(e))
        case Ok(end) => Ok((start, end))
  }

  /** The range as the converters write it back: both dates zero-padded, around " - ". */
  function RenderRange(start: Date, end: Date): string
    requires ValidDate(start) && ValidDate(end)
  {
    RenderDate(start) + RangeSeparator + RenderDate(end)
  }

  /** A rendered range (four-digit years) parses back to its two dates. */
  lemma ParseRenderRange(start: Date, end: Date)
    requires ValidDate(start) && ValidDate(end) && start.year >= 1000 && end.year >= 1000
    ensures ParseDateRange(RenderRange(start, end)) == Ok((start, end))
  {
    var x, y := RenderDate(start), RenderDate(end);
    RenderDateNoSpace(start);
    RenderDateNoSpace(end);
    assert FreeOf([x, y], ' ');
    JoinTwo(x, y, RangeSeparator);
    SplitJoin([x, y], RangeSeparator);
    ParseRenderDate(start);
    ParseRenderDate(end);
  }

  /** A range without " - " (no space at all) is refused: the unpacking into two halves fails. */
  lemma RangeWithoutSeparator(range: string)
    requires ' ' !in range
    ensures ParseDateRange(range) == Err(NotTwoHalves)
  {
    SplitAbsent(range, RangeSeparator);
  }

  // ---------------------------------------------------------------- the two converters

  /** _convert_filters_to_db: each filter under its column name, the range as two ISO dates. */
  function ConvertFiltersToDb(f: SearchFilters): (r: Result<SearchColumns, DateRangeError>)
    ensures r.Ok? <==> ParseDateRange(f.dateRange).Ok?
    ensures r.Err? ==> r.error == ParseDateRange(f.dateRange).error
    ensures r.Ok? ==>
      ParseIso(r.value.dateRangeStart) == Ok(DateTime(ParseDateRange(f.dateRange).value.0, 0, 0, 0))
      && ParseIso(r.value.dateRangeEnd) == Ok(DateTime(ParseDateRange(f.dateRange).value.1, 0, 0, 0))
  {
    match ParseDateRange(f.dateRange)
    case Err(e) => Err(e)
    case Ok((start, end)) =>
      ParseIsoFormat(start);
      ParseIsoFormat(end);
      Ok(SearchColumns(f.location, f.propertyTypes, f.rentTypes, IsoFormat(start), IsoFormat(end),
                       f.districts, f.maxPrice, f.minSize, f.wgTypes, f.gender, f.smoking))
  }

  /** fromisoformat(text).strftime("%d.%m.%Y") */
  function DisplayDate(iso: string): Result<string, DateError> {
    match ParseIso(iso)
    case Err(e) => Err(e)
    case Ok(t) => Ok(RenderDate(t.date))
  }

  /** The lastRun of a view: None for a missing or empty last_run, else "%d.%m.%Y %H:%M". */
  function LastRunText(lastRun: Option<string>): (r: Result<Option<string>, DateError>)
    ensures lastRun.None? || lastRun == Some("") ==> r == Ok(None)
    ensures r.Ok? && r.value.Some? ==> lastRun.Some? && lastRun.value != ""
    ensures lastRun.Some? && lastRun.value != "" ==>
      match ParseIso(lastRun.value)
      case Ok(t) => r == Ok(Some(RenderDateTime(t)))
      case Err(e) => r == Err(e)
  {
    if lastRun.None? || lastRun.value == "" then Ok(None)
    else
      match ParseIso(lastRun.value)
      case Err(e) => Err(e)
      case Ok(t) => Ok(Some(RenderDateTime(t)))
  }

  /** _convert_db_to_filters: the row under the client's field names, id as text, dates re-rendered. */
  function ConvertDbToFilters(row: StoredSearch): (r: Result<SearchView, DateError>)
    ensures r.Ok? <==>
      DisplayDate(row.columns.dateRangeStart).Ok? && DisplayDate(row.columns.dateRangeEnd).Ok? && LastRunText(row.stats.lastRun).Ok?
    ensures r.Ok? ==>
      r.value.id == IntToString(row.id) && r.value.name == row.name && r.value.active == row.stats.active
      && r.value.filters.location == row.columns.location && r.value.filters.maxPrice == row.columns.maxPrice
      && r.value.filters.minSize == row.columns.minSize && r.value.filters.districts == row.columns.districts
      && r.value.stats == Stats(row.stats.totalFound, row.stats.newListings, LastRunText(row.stats.lastRun).value)
  {
    var c := row.columns;
    match DisplayDate(c.dateRangeStart)
    case Err(e) => Err(e)
    case Ok(start) =>
      match DisplayDate(c.dateRangeEnd)
      case Err(e) => Err(e)
      case Ok(end) =>
        match LastRunText(row.stats.lastRun)
        case Err(e) => Err(e)
        case Ok(lastRun) =>
          Ok(SearchView(IntToString(row.id), row.name,
                        SearchFilters(c.location, c.maxPrice, c.minSize, start + RangeSeparator + end,
                                      c.propertyTypes, c.rentTypes, c.wgTypes, c.districts,
                                      c.genderPreference, c.smokingPreference),
                        row.stats.active, Stats(row.stats.totalFound, row.stats.newListings, lastRun)))
  }

  /**
   * Storing filters and reading the row back gives every filter back, with the
   * range re-rendered zero-padded; the id comes back as text and the run columns
   * as they are.
   */
  lemma RoundTrip(f: SearchFilters, start: Date, end: Date, id: nat, userId: string, name: string, stats: RunStats)
    requires ParseDateRange(f.dateRange) == Ok((start, end))
    requires LastRunText(stats.lastRun).Ok?
    ensures ConvertFiltersToDb(f).Ok?
    ensures ConvertDbToFilters(StoredSearch(id, userId, name, ConvertFiltersToDb(f).value, stats))
            == Ok(SearchView(IntToString(id), name, f.(dateRange := RenderRange(start, end)), stats.active,
                             Stats(stats.totalFound, stats.newListings, LastRunText(stats.lastRun).value)))
  {
    ParseIsoFormat(start);
    ParseIsoFormat(end);
  }

  /** For a range already written zero-padded with four-digit years, the round trip gives the filters back unchanged. */
  lemma RoundTripExact(f: SearchFilters, start: Date, end: Date, id: nat, userId: string, name: string, stats: RunStats)
    requires ValidDate(start) && ValidDate(end) && start.year >= 1000 && end.year >= 1000
    requires f.dateRange == RenderRange(start, end)
    requires LastRunText(stats.lastRun).Ok?
    ensures ConvertFiltersToDb(f).Ok?
    ensures ConvertDbToFilters(StoredSearch(id, userId, name, ConvertFiltersToDb(f).value, stats)).Ok?
    ensures ConvertDbToFilters(StoredSearch(id, userId, name, ConvertFiltersToDb(f).value, stats)).value.filters == f
  {
    ParseRenderRange(start, end);
    RoundTrip(f, start, end, id, userId, name, stats);
  }

  /** retrieve_all_searches' list comprehension: one view per row, in row order; the first bad row fails it. */
  method ConvertRows(rows: seq<StoredSearch>) returns (r: Result<seq<SearchView>, DateError>)
    ensures r.Ok? ==> |r.value| == |rows| && forall i | 0 <= i < |rows| :: ConvertDbToFilters(rows[i]) == Ok(r.value[i])
    ensures r.Err? ==> exists i | 0 <= i < |rows| ::
      ConvertDbToFilters(rows[i]) == Err(r.error) && forall k | 0 <= k < i :: ConvertDbToFilters(rows[k]).Ok?
  {
    var views: seq<SearchView> := [];
    for i := 0 to |rows|
      invariant |views| == i
      invariant forall k | 0 <= k < i :: ConvertDbToFilters(rows[k]) == Ok(views[k])
    {
      var v := ConvertDbToFilters(rows[i]);
      if v.Err? {
        return Err(v.error);
      }
      views := views + [v.value];
    }
    r := Ok(views);
  }

  // ---------------------------------------------------------------- the table

  /** The user's rows, in table order: what `select ... where user_id = ...` returns. */
  function OwnedBy(rows: seq<StoredSearch>, userId: string): (r: seq<StoredSearch>)
    ensures forall x :: x in r <==> x in rows && x.userId == userId
    decreases |rows|
  {
    if rows == [] then []
    else (if rows[0].userId == userId then [rows[0]] else []) + OwnedBy(rows[1..], userId)
  }

  /** A row with this id belongs to this user: the ownership select returns a row. */
  predicate Owns(rows: seq<StoredSearch>, userId: string, id: nat) {
    exists i | 0 <= i < |rows| :: rows[i].id == id && rows[i].userId == userId
  }

  /** The id of the most recently created row of this user with this name. */
  function LatestId(rows: seq<StoredSearch>, userId: string, name: string): (r: Option<nat>)
    ensures r.Some? ==> exists i | 0 <= i < |rows| :: rows[i].id == r.value && rows[i].userId == userId && rows[i].name == name
    decreases |rows|
  {
    if rows == [] then None
    else if rows[|rows| - 1].userId == userId && rows[|rows| - 1].name == name then Some(rows[|rows| - 1].id)
    else LatestId(rows[..|rows| - 1], userId, name)
  }

  /** The rows after `update searches set name, filters where id = ...`. */
  function Updated(rows: seq<StoredSearch>, id: nat, name: string, columns: SearchColumns): (r: seq<StoredSearch>)
    ensures |r| == |rows|
    ensures forall i | 0 <= i < |rows| :: r[i] == (if rows[i].id == id then rows[i].(name := name, columns := columns) else rows[i])
  {
    seq(|rows|, i requires 0 <= i < |rows| => if rows[i].id == id then rows[i].(name := name, columns := columns) else rows[i])
  }

  /** The rows after `delete from searches where id = ...`. */
  function Deleted(rows: seq<StoredSearch>, id: nat): (r: seq<StoredSearch>)
    ensures forall x :: x in r <==> x in rows && x.id != id
    ensures |r| <= |rows|
    decreases |rows|
  {
    if rows == [] then []
    else (if rows[0].id == id then [] else [rows[0]]) + Deleted(rows[1..], id)
  }

  predicate IdsIncreasing(rows: seq<StoredSearch>) {
    forall i, j | 0 <= i < j < |rows| :: rows[i].id < rows[j].id
  }

  /** A new row is listed last among its owner's rows and is the latest of its name. */
  lemma CreatedListedLast(rows: seq<StoredSearch>, row: StoredSearch)
    ensures OwnedBy(rows + [row], row.userId) == OwnedBy(rows, row.userId) + [row]
    ensures LatestId(rows + [row], row.userId, row.name) == Some(row.id)
  {
    OwnedAppend(rows, row);
    assert (rows + [row])[|rows|] == row;
  }

  /** Appending a row of this user lists it after the user's earlier rows. */
  lemma {:induction false} OwnedAppend(rows: seq<StoredSearch>, row: StoredSearch)
    ensures OwnedBy(rows + [row], row.userId) == OwnedBy(rows, row.userId) + [row]
    decreases |rows|
  {
    if rows == [] {
      assert ([] + [row])[1..] == [];
    } else {
      assert (rows + [row])[1..] == rows[1..] + [row];
      OwnedAppend(rows[1..], row);
    }
  }

  /** A row numbered with the next id keeps the ids increasing and below the next id after it. */
  lemma AppendKeepsIds(rows: seq<StoredSearch>, row: StoredSearch, nextId: nat)
    requires IdsIncreasing(rows) && forall i | 0 <= i < |rows| :: rows[i].id < nextId
    requires row.id == nextId
    ensures IdsIncreasing(rows + [row]) && forall i | 0 <= i < |rows + [row]| :: (rows + [row])[i].id < nextId + 1
  {
  }

  /** An update keeps every id, rewrites only the target row's name and filters, and keeps the ids increasing. */
  lemma UpdatedOnlyTarget(rows: seq<StoredSearch>, id: nat, name: string, columns: SearchColumns)
    requires IdsIncreasing(rows)
    ensures IdsIncreasing(Updated(rows, id, name, columns))
    ensures forall i | 0 <= i < |rows| ::
      (Updated(rows, id, name, columns)[i].id == rows[i].id
       && Updated(rows, id, name, columns)[i].userId == rows[i].userId
       && Updated(rows, id, name, columns)[i].stats == rows[i].stats)
    ensures forall i | 0 <= i < |rows| && rows[i].id != id :: Updated(rows, id, name, columns)[i] == rows[i]
  {
  }

  /** A deletion keeps the ids increasing and leaves no row with the deleted id. */
  lemma {:induction false} DeletedKeepsOrder(rows: seq<StoredSearch>, id: nat)
    requires IdsIncreasing(rows)
    ensures IdsIncreasing(Deleted(rows, id))
    ensures forall i | 0 <= i < |Deleted(rows, id)| :: Deleted(rows, id)[i].id != id
    decreases |rows|
  {
    if rows != [] {
      var tail := rows[1..];
      TailIncreasing(rows);
      DeletedKeepsOrder(tail, id);
      DeletedAbove(tail, id, rows[0].id);
      if rows[0].id != id {
        assert Deleted(rows, id) == [rows[0]] + Deleted(tail, id);
        ConsIncreasing(rows[0], Deleted(tail, id));
      } else {
        assert Deleted(rows, id) == Deleted(tail, id);
      }
    }
    forall i | 0 <= i < |Deleted(rows, id)| ensures Deleted(rows, id)[i].id != id {
      assert Deleted(rows, id)[i] in Deleted(rows, id);
    }
  }

  /** The rows after the first keep increasing ids, all above the first row's. */
  lemma TailIncreasing(rows: seq<StoredSearch>)
    requires rows != [] && IdsIncreasing(rows)
    ensures IdsIncreasing(rows[1..])
    ensures forall i | 0 <= i < |rows[1..]| :: rows[0].id < rows[1..][i].id
  {
    var tail := rows[1..];
    forall i, j | 0 <= i < j < |tail| ensures tail[i].id < tail[j].id {
      assert tail[i] == rows[i + 1] && tail[j] == rows[j + 1];
    }
    forall i | 0 <= i < |tail| ensures rows[0].id < tail[i].id {
      assert tail[i] == rows[i + 1];
    }
  }

  /** A row below every id of an increasing sequence can be put in front of it. */
  lemma ConsIncreasing(x: StoredSearch, d: seq<StoredSearch>)
    requires IdsIncreasing(d)
    requires forall k | 0 <= k < |d| :: x.id < d[k].id
    ensures IdsIncreasing([x] + d)
  {
    var r := [x] + d;
    forall i, j | 0 <= i < j < |r| ensures r[i].id < r[j].id {
      assert r[j] == d[j - 1];
      if i > 0 {
        assert r[i] == d[i - 1];
      }
    }
  }

  /** Deleting keeps every id above a bound that all ids were above. */
  lemma {:induction false} DeletedAbove(rows: seq<StoredSearch>, id: nat, bound: int)
    requires forall i | 0 <= i < |rows| :: bound < rows[i].id
    ensures forall k | 0 <= k < |Deleted(rows, id)| :: bound < Deleted(rows, id)[k].id
    decreases |rows|
  {
    if rows != [] {
      DeletedAbove(rows[1..], id, bound);
    }
  }

  // ---------------------------------------------------------------- the CRUD sequences

  /**
   * The HTTPException a step raises, a ValueError from a range that does not
   * parse, or one from a stored date.
   */
  datatype ServiceError = Http(status: int, detail: string) | BadRange(rangeError: DateRangeError) | BadStoredDate(dateError: DateError)

  /**
   * The service catches nothing: the client's HTTPException reaches the caller as
   * it is. The service's own checks of `result["success"]` never see False, since
   * the client raises instead of returning such a reply.
   */
  function Raised<T>(reply: Reply<T>): ServiceError
    requires !reply.Answered?
  {
    Http(Status(reply), Detail(reply))
  }

  const NotFound := "Search configuration not found"

  /**
   * What auth_client.get_user_id gives for the session token, the first call of
   * every operation below: the user id, or the HTTPException its request raises
   * (the auth API's status and detail, such as a 401 for a token it rejects, or a
   * 500 when the API cannot be reached).
   */
  datatype SessionUser = User(id: string) | Rejected(status: int, detail: string)

  /** The "searches" table; its ids are handed out in increasing order. */
  class SearchTable {
    var rows: seq<StoredSearch>
    var nextId: nat
    /** The values the table gives the run columns of a new row. */
    const defaults: RunStats

    ghost predicate Valid()
      reads this
    {
      IdsIncreasing(rows) && forall i | 0 <= i < |rows| :: rows[i].id < nextId
    }

    constructor (defaults: RunStats)
      ensures Valid() && rows == [] && nextId == 0 && this.defaults == defaults
    {
      rows := [];
      nextId := 0;
      this.defaults := defaults;
    }

    /**
     * create_search: convert the filters, insert the row, then look up the newest
     * row of this user and name and return its id as text. A call the client
     * cannot complete raises its exception; the lookup after a successful insert
     * always finds the row just inserted. A rejected session token fails first.
     */
    method CreateSearch(session: SessionUser, config: SearchConfig, insert: Reply<()>, lookup: Reply<()>)
      returns (r: Result<string, ServiceError>)
      requires Valid()
      modifies this
      ensures Valid()
      ensures session.Rejected? ==> r == Err(Http(session.status, session.detail)) && rows == old(rows) && nextId == old(nextId)
      ensures session.User? && ConvertFiltersToDb(config.filters).Err? ==>
        r == Err(BadRange(ConvertFiltersToDb(config.filters).error)) && rows == old(rows) && nextId == old(nextId)
      ensures session.User? && ConvertFiltersToDb(config.filters).Ok? && !insert.Answered? ==>
        r == Err(Raised(insert)) && rows == old(rows) && nextId == old(nextId)
      ensures session.User? && ConvertFiltersToDb(config.filters).Ok? && insert.Answered? ==>
        rows == old(rows) + [StoredSearch(old(nextId), session.id, config.name, ConvertFiltersToDb(config.filters).value, defaults)]
        && nextId == old(nextId) + 1
        && r == (if lookup.Answered? then Ok(IntToString(old(nextId))) else Err(Raised(lookup)))
    {
      if session.Rejected? {
        return Err(Http(session.status, session.detail));
      }
      var userId := session.id;
      var columns := ConvertFiltersToDb(config.filters);
      if columns.Err? {
        return Err(BadRange(columns.error));
      }
      if !insert.Answered? {
        return Err(Raised(insert));
      }
      var row := StoredSearch(nextId, userId, config.name, columns.value, defaults);
      CreatedListedLast(rows, row);
      AppendKeepsIds(rows, row, nextId);
      rows := rows + [row];
      nextId := nextId + 1;
      assert Valid();
      if !lookup.Answered? {
        return Err(Raised(lookup));
      }
      var found := LatestId(rows, userId, config.name);
      assert found == Some(row.id);
      r := Ok(IntToString(found.value));
    }

    /**
     * update_search: the ownership select first (the client's exception, or 404 if
     * it finds no row of this user with this id), then the conversion, then the
     * update, all after the session lookup.
     */
    method UpdateSearch(session: SessionUser, searchId: nat, config: SearchConfig, select: Reply<()>, update: Reply<()>)
      returns (r: Result<(), ServiceError>)
      requires Valid()
      modifies this
      ensures Valid() && nextId == old(nextId)
      ensures session.Rejected? ==> r == Err(Http(session.status, session.detail))
      ensures session.User? && !select.Answered? ==> r == Err(Raised(select))
      ensures session.User? && select.Answered? && !Owns(old(rows), session.id, searchId) ==> r == Err(Http(404, NotFound))
      ensures session.User? && select.Answered? && Owns(old(rows), session.id, searchId) && ConvertFiltersToDb(config.filters).Err? ==>
        r == Err(BadRange(ConvertFiltersToDb(config.filters).error))
      ensures session.User? && select.Answered? && Owns(old(rows), session.id, searchId) && ConvertFiltersToDb(config.filters).Ok? ==>
        r == (if update.Answered? then Ok(()) else Err(Raised(update)))
      ensures r.Ok? ==> rows == Updated(old(rows), searchId, config.name, ConvertFiltersToDb(config.filters).value)
      ensures r.Err? ==> rows == old(rows)
    {
      if session.Rejected? {
        return Err(Http(session.status, session.detail));
      }
      var userId := session.id;
      if !select.Answered? {
        return Err(Raised(select));
      }
      if !Owns(rows, userId, searchId) {
        return Err(Http(404, NotFound));
      }
      var columns := ConvertFiltersToDb(config.filters);
      if columns.Err? {
        return Err(BadRange(columns.error));
      }
      if !update.Answered? {
        return Err(Raised(update));
      }
      UpdatedOnlyTarget(rows, searchId, config.name, columns.value);
      rows := Updated(rows, searchId, config.name, columns.value);
      r := Ok(());
    }

    /**
     * delete_search: the ownership select first (the client's exception, or 404),
     * then the delete, both after the session lookup. Afterwards no row carries the
     * id.
     */
    method DeleteSearch(session: SessionUser, searchId: nat, select: Reply<()>, delete: Reply<()>)
      returns (r: Result<(), ServiceError>)
      requires Valid()
      modifies this
      ensures Valid() && nextId == old(nextId)
      ensures session.Rejected? ==> r == Err(Http(session.status, session.detail))
      ensures session.User? && !select.Answered? ==> r == Err(Raised(select))
      ensures session.User? && select.Answered? && !Owns(old(rows), session.id, searchId) ==> r == Err(Http(404, NotFound))
      ensures session.User? && select.Answered? && Owns(old(rows), session.id, searchId) ==>
        r == (if delete.Answered? then Ok(()) else Err(Raised(delete)))
      ensures r.Ok? ==> session.User? && rows == Deleted(old(rows), searchId) && !Owns(rows, session.id, searchId)
      ensures r.Err? ==> rows == old(rows)
    {
      if session.Rejected? {
        return Err(Http(session.status, session.detail));
      }
      var userId := session.id;
      if !select.Answered? {
        return Err(Raised(select));
      }
      if !Owns(rows, userId, searchId) {
        return Err(Http(404, NotFound));
      }
      if !delete.Answered? {
        return Err(Raised(delete));
      }
      DeletedKeepsOrder(rows, searchId);
      rows := Deleted(rows, searchId);
      r := Ok(());
    }

    /**
     * retrieve_all_searches: the user's rows, each converted, in table order; the
     * client's exception if the select fails; the first row that does not convert
     * fails the whole list. A rejected session token fails first.
     */
    method RetrieveAllSearches(session: SessionUser, select: Reply<()>) returns (r: Result<seq<SearchView>, ServiceError>)
      ensures session.Rejected? ==> r == Err(Http(session.status, session.detail))
      ensures session.User? && !select.Answered? ==> r == Err(Raised(select))
      ensures r.Ok? ==> session.User? && |r.value| == |OwnedBy(rows, session.id)|
      ensures r.Ok? ==> forall i | 0 <= i < |r.value| :: ConvertDbToFilters(OwnedBy(rows, session.id)[i]) == Ok(r.value[i])
      ensures session.User? && select.Answered? && r.Err? ==> r.error.BadStoredDate?
      ensures session.User? && select.Answered? && r.Err? ==>
        exists i | 0 <= i < |OwnedBy(rows, session.id)| ::
          ConvertDbToFilters(OwnedBy(rows, session.id)[i]) == Err(r.error.dateError)
          && forall k | 0 <= k < i :: ConvertDbToFilters(OwnedBy(rows, session.id)[k]).Ok?
    {
      if session.Rejected? {
        return Err(Http(session.status, session.detail));
      }
      var userId := session.id;
      if !select.Answered? {
        return Err(Raised(select));
      }
      var views := ConvertRows(OwnedBy(rows, userId));
      if views.Err? {
        return Err(BadStoredDate(views.error));
      }
      r := Ok(views.value);
    }
  }
}
