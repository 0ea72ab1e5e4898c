/**
 * The parameter rules of `nowcasting_api/database.py`: which rows each read
 * asks the datamodel for, which errors a combination of parameters raises,
 * how the rows that come back are converted, and the logging of API calls
 * through a database session.
 *
 * Every datamodel read is an uninterpreted function from the arguments of
 * the read to the rows it returns; the clock is the parameter `now` and the
 * calendar default of `get_start_datetime` is the parameter `fallback`.
 */
module Database {
  import opened Common
  import opened Models
  import opened Grouping
  import TimeFloor
  import Utils
  import PydanticModels
  import PvLive

  // ---------------------------------------------------------------------
  // save_api_call_to_db

  /** The part of a datamodel user the service reads. */
  datatype User = User(email: string)

  /** An `APIRequestSQL` row: the URL called and the email of its user. */
  datatype ApiRequest = ApiRequest(url: string, userEmail: string)

  /** The email recorded for a call: the user's, or "unknown" without one. */
  function EmailOf(user: Option<User>): (email: string)
    ensures user.None? ==> email == "unknown"
    ensures user.Some? ==> email == user.value.email
  {
    if user.None? then "unknown" else user.value.email
  }

  /** A database session: the rows added since the last commit and the rows
      committed so far. */
  class Session {
    var pending: seq<ApiRequest>
    var committed: seq<ApiRequest>

    constructor ()
      ensures pending == [] && committed == []
    {
      pending := [];
      committed := [];
    }

    /** `session.add(row)`. */
    method Add(row: ApiRequest)
      modifies this
      ensures pending == old(pending) + [row]
      ensures committed == old(committed)
    {
      pending := pending + [row];
    }

    /** `session.commit()`: every pending row becomes committed, in order. */
    method Commit()
      modifies this
      ensures pending == []
      ensures committed == old(committed) + old(pending)
    {
      committed := committed + pending;
      pending := [];
    }
  }

  /** `save_api_call_to_db`: one row holding the request's URL and the
      caller's email (or "unknown") is added and committed. */
  method SaveApiCallToDb(request: HttpRequest, session: Session, user: Option<User>)
    modifies session
    ensures session.pending == []
    ensures session.committed == old(session.committed) + old(session.pending)
      + [ApiRequest(request.url, EmailOf(user))]
  {
    var url := request.url;
    var email: string;
    if user.None? {
      email := "unknown";
    } else {
      email := user.value.email;
    }
    var row := ApiRequest(url, email);
    session.Add(row);
    session.Commit();
  }

  // ---------------------------------------------------------------------
  // get_forecasts_from_database

  const TWELVE_HOURS: int := 12 * HOUR

  const HISTORIC_LIMIT_DETAIL: string := "creation_utc_limit is not supported for historic=True forecasts. "
    + "These forecast are continuously updated, compare to a forecast made a particular time."

  /** The arguments of one `get_all_gsp_ids_latest_forecast` read;
      `includeNational` is None where the call leaves the library default;
      the gsp ids are the ints the routes pass, whatever the annotation. */
  datatype ForecastsRead = ForecastsRead(
    startCreated: Option<Instant>,
    endCreated: Option<Instant>,
    startTarget: Option<Instant>,
    endTarget: Option<Instant>,
    historic: bool,
    includeNational: Option<bool>,
    modelName: string,
    gspIds: Option<seq<int>>)

  /** The read to make, and the start handed on to the converters. */
  datatype ForecastsPlan = ForecastsPlan(read: ForecastsRead, start: Option<Instant>)

  /** `floor_30_minutes_dt(now - 12 hours)`, the default of both the start
      and the creation lower bound. */
  function TwelveHoursAgo(now: Instant): (t: Instant)
    ensures now - TWELVE_HOURS - 30 * MINUTE < t <= now - TWELVE_HOURS
    ensures t % (30 * MINUTE) == 0
  {
    TimeFloor.Floor30MinutesBounds(now - TWELVE_HOURS);
    TimeFloor.Floor30Minutes(now - TWELVE_HOURS)
  }

  /** The parameter rules of `get_forecasts_from_database`: a historic
      request with a creation limit is refused with HTTP 400; a historic
      read starts at `get_start_datetime(start)` and excludes the national
      gsp, while the converters keep the start as given; a non-historic read
      defaults the start to twelve hours ago and bounds the creation time
      from twelve hours before the limit (or twelve hours ago) up to the
      limit. */
  function PlanForecasts(historic: bool, start: Option<Instant>, end: Option<Instant>,
      gspIds: Option<seq<int>>, limit: Option<Instant>, now: Instant, fallback: Instant)
    : (r: Result<ForecastsPlan>)
    ensures r.Err? <==> historic && limit.Some?
    ensures r.Err? ==> r.error.Http? && r.error.status == 400
    ensures r.Ok? ==> var read := r.value.read;
      && read.historic == historic && read.modelName == "blend"
      && read.endTarget == end && read.gspIds == gspIds
    ensures r.Ok? && historic ==> var read := r.value.read;
      && read.startTarget == Some(Utils.GetStartDatetime(start, now, 3, fallback))
      && read.startCreated.None? && read.endCreated.None?
      && read.includeNational == Some(false)
      && r.value.start == start
    ensures r.Ok? && !historic ==> var read := r.value.read;
      && r.value.start.Some? && read.startTarget == r.value.start
      && (start.Some? ==> r.value.start == start)
      && (start.None? ==> r.value.start == Some(TwelveHoursAgo(now)))
      && read.startCreated == Some(if limit.Some? then limit.value - TWELVE_HOURS else TwelveHoursAgo(now))
      && read.endCreated == limit
      && read.includeNational.None?
  {
    if historic then
      if limit.Some? then
        Err(Http(400, HISTORIC_LIMIT_DETAIL))
      else
        var startTarget := Utils.GetStartDatetime(start, now, 3, fallback);
        Ok(ForecastsPlan(ForecastsRead(None, None, Some(startTarget), end, true, Some(false), "blend", gspIds), start))
    else
      var startTarget := if start.None? then TwelveHoursAgo(now) else start.value;
      var startCreated := if limit.None? then TwelveHoursAgo(now) else limit.value - TWELVE_HOURS;
      Ok(ForecastsPlan(ForecastsRead(Some(startCreated), limit, Some(startTarget), end, false, None, "blend", gspIds), Some(startTarget)))
  }

  /** A non-historic read asks for forecasts created in a window of twelve
      hours (with a limit) or of twelve hours and a half at most (without),
      and never for target times before the plan's start. */
  lemma NonHistoricCreationWindow(start: Option<Instant>, end: Option<Instant>,
      gspIds: Option<seq<int>>, limit: Option<Instant>, now: Instant, fallback: Instant)
    ensures var r := PlanForecasts(false, start, end, gspIds, limit, now, fallback);
      && r.Ok?
      && (limit.Some? ==> r.value.read.endCreated.value - r.value.read.startCreated.value == TWELVE_HOURS)
      && (limit.None? ==> now - r.value.read.startCreated.value < TWELVE_HOURS + 30 * MINUTE)
      && (start.None? ==> r.value.read.startTarget.value <= now - TWELVE_HOURS)
  {
  }

  /** The two shapes `get_forecasts_from_database` returns. */
  datatype ForecastsResponse =
    | CompactForecasts(byDatetime: seq<PydanticModels.ByDatetime>)
    | ManyForecasts(forecasts: seq<Forecast>)

  /** `Forecast.from_orm_latest` for historic reads, `Forecast.from_orm` otherwise. */
  function FromOrmAll(forecasts: seq<Forecast>, latest: bool): (r: seq<Forecast>)
    ensures |r| == |forecasts|
    ensures forall i :: 0 <= i < |r| ==> r[i] == FromOrm(forecasts[i], latest)
  {
    Map(forecasts, f => FromOrm(f, latest))
  }

  /** The answer of `get_forecasts_from_database`: the plan's error, or the
      rows of the planned read either grouped by target time or converted
      and trimmed to the target-time window. */
  function ForecastsAnswer(historic: bool, start: Option<Instant>, end: Option<Instant>, compact: bool,
      gspIds: Option<seq<int>>, limit: Option<Instant>, now: Instant, fallback: Instant, adjustLimit: real,
      db: ForecastsRead -> seq<Forecast>): (r: Result<ForecastsResponse>)
    ensures r.Err? <==> historic && limit.Some?
    ensures r.Err? ==> r.error == PlanForecasts(historic, start, end, gspIds, limit, now, fallback).error
    ensures r.Ok? ==> var plan := PlanForecasts(historic, start, end, gspIds, limit, now, fallback).value;
      && (compact ==> r.value == CompactForecasts(
            Grouped(PydanticModels.ForecastCells(db(plan.read), historic, plan.start, end, adjustLimit))))
      && (!compact ==> r.value == ManyForecasts(
            Utils.FilteredForecasts(FromOrmAll(db(plan.read), historic), plan.start, end)))
  {
    var planned := PlanForecasts(historic, start, end, gspIds, limit, now, fallback);
    if planned.Err? then Err(planned.error)
    else
      var plan := planned.value;
      if compact then
        Ok(CompactForecasts(Grouped(PydanticModels.ForecastCells(db(plan.read), historic, plan.start, end, adjustLimit))))
      else
        Ok(ManyForecasts(Utils.FilteredForecasts(FromOrmAll(db(plan.read), historic), plan.start, end)))
  }

  /** `get_forecasts_from_database`: plan the read, read the rows from `db`,
      and either group them by target time or convert and trim them to the
      target-time window. */
  method GetForecastsFromDatabase(historic: bool, start: Option<Instant>, end: Option<Instant>, compact: bool,
      gspIds: Option<seq<int>>, limit: Option<Instant>, now: Instant, fallback: Instant, adjustLimit: real,
      db: ForecastsRead -> seq<Forecast>)
    returns (r: Result<ForecastsResponse>)
    ensures r == ForecastsAnswer(historic, start, end, compact, gspIds, limit, now, fallback, adjustLimit, db)
  {
    var planned := PlanForecasts(historic, start, end, gspIds, limit, now, fallback);
    if planned.Err? {
      return Err(planned.error);
    }
    var plan := planned.value;
    var forecasts := db(plan.read);
    if compact {
      var grouped := PydanticModels.ConvertForecastsToManyDatetimeManyGeneration(forecasts, historic, plan.start, end, adjustLimit);
      r := Ok(CompactForecasts(grouped));
    } else {
      var converted := FromOrmAll(forecasts, historic);
      var filtered := Utils.FilterForecastValues(converted, end, plan.start);
      r := Ok(ManyForecasts(filtered));
    }
  }

  /** Whatever the read returns, a non-historic compact answer holds only
      target times at or after the start (twelve hours ago by default) and
      up to the end. */
  lemma CompactForecastsInWindow(start: Option<Instant>, end: Option<Instant>,
      gspIds: Option<seq<int>>, limit: Option<Instant>, now: Instant, fallback: Instant, adjustLimit: real,
      forecasts: seq<Forecast>)
    ensures var plan := PlanForecasts(false, start, end, gspIds, limit, now, fallback).value;
      var g := Grouped(PydanticModels.ForecastCells(forecasts, false, plan.start, end, adjustLimit));
      forall i :: 0 <= i < |g| ==>
        (start.None? ==> g[i].0 >= TwelveHoursAgo(now)) && (end.Some? ==> g[i].0 <= end.value)
  {
    var plan := PlanForecasts(false, start, end, gspIds, limit, now, fallback).value;
    PydanticModels.ForecastsInWindow(forecasts, false, plan.start, end, adjustLimit);
  }

  // ---------------------------------------------------------------------
  // get_forecasts_for_a_specific_gsp_from_database

  /** `get_forecasts_for_a_specific_gsp_from_database`: the latest forecast
      of the gsp from the default start on, with its latest values when
      historic; `latest` reads the datamodel. */
  function ForecastForGsp(gspId: int, historic: bool, fallback: Instant,
      latest: (int, bool, Instant) -> Forecast): (r: Forecast)
    ensures r.location == latest(gspId, historic, fallback).location
    ensures r.values == if historic then latest(gspId, historic, fallback).latestValues
      else latest(gspId, historic, fallback).values
  {
    FromOrm(latest(gspId, historic, fallback), historic)
  }

  // ---------------------------------------------------------------------
  // get_latest_forecast_values_for_a_specific_gsp_from_database

  /** The two value reads: `get_forecast_values_latest`, or
      `get_forecast_values` on a chosen table with a creation limit. */
  datatype ValuesRead =
    | LatestValuesRead(gspId: int, start: Instant, end: Option<Instant>, modelName: string)
    | HistoryValuesRead(gspId: int, start: Instant, end: Option<Instant>, modelName: string,
        horizon: Option<int>, table: Table, createdLimit: Option<Instant>, onlyLatest: bool)

  /** The read of `get_latest_forecast_values_for_a_specific_gsp_from_database`. */
  function PlanLatestValues(gspId: int, horizon: Option<int>, start: Option<Instant>, end: Option<Instant>,
      limit: Option<Instant>, now: Instant, fallback: Instant): (r: ValuesRead)
    ensures r.LatestValuesRead? <==> horizon.None? && limit.None?
    ensures r.gspId == gspId && r.end == end && r.modelName == "blend"
    ensures r.start == Utils.GetStartDatetime(start, now, 365, fallback)
    ensures r.HistoryValuesRead? ==> (
      && r.table == SevenDayTable(limit, start, now)
      && r.horizon == horizon && r.onlyLatest
      && r.createdLimit == (if limit.Some? then limit else Some(now - horizon.value * MINUTE)))
  {
    var readStart := Utils.GetStartDatetime(start, now, 365, fallback);
    if horizon.None? && limit.None? then
      LatestValuesRead(gspId, readStart, end, "blend")
    else
      var table := SevenDayTable(limit, start, now);
      var createdLimit := if limit.None? && horizon.Some? then Some(now - horizon.value * MINUTE) else limit;
      HistoryValuesRead(gspId, readStart, end, "blend", horizon, table, createdLimit, true)
  }

  /** A request for the values made `h` (>= 0) minutes ahead never reads a
      forecast created after `now - h` minutes, and a start set within the
      last year is read unchanged. */
  lemma LatestValuesHorizon(gspId: int, h: int, start: Option<Instant>, end: Option<Instant>,
      now: Instant, fallback: Instant)
    requires h >= 0
    ensures var r := PlanLatestValues(gspId, Some(h), start, end, None, now, fallback);
      && r.HistoryValuesRead? && r.createdLimit.value <= now
      && (start.Some? && start.value <= now && now - start.value <= 365 * DAY ==> r.start == start.value)
  {
    assert h * MINUTE >= 0;
    if start.Some? && start.value <= now && now - start.value <= 365 * DAY {
      Utils.GetStartDatetimeRecent(start.value, now, 365, fallback);
    }
  }

  /** `get_latest_forecast_values_for_a_specific_gsp_from_database`: the
      values of the planned read (its empty case returns the empty list, the
      same value). */
  function LatestForecastValuesForGsp(gspId: int, horizon: Option<int>, start: Option<Instant>, end: Option<Instant>,
      limit: Option<Instant>, now: Instant, fallback: Instant, db: ValuesRead -> seq<ForecastValue>)
    : (r: seq<ForecastValue>)
    ensures r == db(PlanLatestValues(gspId, horizon, start, end, limit, now, fallback))
  {
    db(PlanLatestValues(gspId, horizon, start, end, limit, now, fallback))
  }

  // ---------------------------------------------------------------------
  // get_truth_values_for_a_specific_gsp_from_database

  /** The filters of the yield read for one gsp as written: the gsp, and the
      inclusive datetime bounds, each only when given. */
  function OneGspYieldSelected(gspId: int, start: Option<Instant>, end: Option<Instant>): PvLive.YieldRecord -> bool
  {
    (y: PvLive.YieldRecord) => y.gspId == gspId && InWindow(y.datetimeUtc, start, end)
  }

  /** `GSPYield.from_orm`. */
  function AsGspYield(y: PvLive.YieldRecord): GspYield
  {
    GspYield(y.datetimeUtc, y.solarGenerationKw, y.regime)
  }

  /** `get_truth_values_for_a_specific_gsp_from_database` as written: the
      stored yields of the gsp within the bounds; the regime it is given is not
      used, and a missing start reads from the first yield on. */
  function TruthValuesForGsp(gspId: int, regime: Option<string>, start: Option<Instant>, end: Option<Instant>,
      stored: seq<PvLive.YieldRecord>): (r: seq<GspYield>)
    ensures |r| <= |stored|
    ensures forall i :: 0 <= i < |r| ==> InWindow(r[i].datetimeUtc, start, end)
  {
    Map(Filter(stored, OneGspYieldSelected(gspId, start, end)), AsGspYield)
  }

  /** Each yield returned is a stored yield of the gsp within the bounds. */
  lemma TruthValuesForGspSelected(gspId: int, regime: Option<string>, start: Option<Instant>, end: Option<Instant>,
      stored: seq<PvLive.YieldRecord>, i: int)
    requires 0 <= i < |TruthValuesForGsp(gspId, regime, start, end, stored)|
    ensures var r := TruthValuesForGsp(gspId, regime, start, end, stored);
      && InWindow(r[i].datetimeUtc, start, end)
      && exists j :: 0 <= j < |stored| && stored[j].gspId == gspId && AsGspYield(stored[j]) == r[i]
  {
    var kept := Filter(stored, OneGspYieldSelected(gspId, start, end));
    assert kept[i] in stored && OneGspYieldSelected(gspId, start, end)(kept[i]);
  }

  /** A stored yield of another regime than the requested one is returned:
      a single yield of the gsp within the bounds comes back whatever
      regime was asked for. */
  lemma TruthValuesRegimeIgnored(gspId: int, regime: string, start: Option<Instant>, end: Option<Instant>,
      y: PvLive.YieldRecord)
    requires y.gspId == gspId && InWindow(y.datetimeUtc, start, end) && y.regime != regime
    ensures var r := TruthValuesForGsp(gspId, Some(regime), start, end, [y]);
      r == [AsGspYield(y)] && r[0].regime != regime
  {
    var p := OneGspYieldSelected(gspId, start, end);
    assert p(y);
    assert [y][..0] == [];
    assert Filter([y], p) == Filter([], p) + [y];
  }

  /** The filters with the regime the function documents: the given one,
      "in-day" by default. */
  function OneGspRegimeSelected(gspId: int, regime: Option<string>, start: Option<Instant>, end: Option<Instant>)
    : PvLive.YieldRecord -> bool
  {
    (y: PvLive.YieldRecord) => y.gspId == gspId && y.regime == PvLive.RegimeOrDefault(regime)
      && InWindow(y.datetimeUtc, start, end)
  }

  /** The truth values of one gsp with the regime filter applied. */
  function TruthValuesForGspCorrected(gspId: int, regime: Option<string>, start: Option<Instant>, end: Option<Instant>,
      stored: seq<PvLive.YieldRecord>): (r: seq<GspYield>)
    ensures |r| <= |stored|
    ensures forall i :: 0 <= i < |r| ==> r[i].regime == PvLive.RegimeOrDefault(regime) && InWindow(r[i].datetimeUtc, start, end)
  {
    Map(Filter(stored, OneGspRegimeSelected(gspId, regime, start, end)), AsGspYield)
  }

  /** With the filter, every yield returned carries the requested regime
      ("in-day" without one), lies within the bounds and is a stored yield
      of the gsp; and every such stored yield is returned. */
  lemma TruthValuesCorrectedSelected(gspId: int, regime: Option<string>, start: Option<Instant>,
      end: Option<Instant>, stored: seq<PvLive.YieldRecord>, i: int)
    requires 0 <= i < |TruthValuesForGspCorrected(gspId, regime, start, end, stored)|
    ensures var r := TruthValuesForGspCorrected(gspId, regime, start, end, stored);
      && r[i].regime == PvLive.RegimeOrDefault(regime)
      && InWindow(r[i].datetimeUtc, start, end)
      && exists j :: 0 <= j < |stored| && stored[j].gspId == gspId && AsGspYield(stored[j]) == r[i]
  {
    var kept := Filter(stored, OneGspRegimeSelected(gspId, regime, start, end));
    assert kept[i] in stored && OneGspRegimeSelected(gspId, regime, start, end)(kept[i]);
  }

  lemma TruthValuesCorrectedComplete(gspId: int, regime: Option<string>, start: Option<Instant>,
      end: Option<Instant>, stored: seq<PvLive.YieldRecord>, j: int)
    requires 0 <= j < |stored| && OneGspRegimeSelected(gspId, regime, start, end)(stored[j])
    ensures AsGspYield(stored[j]) in TruthValuesForGspCorrected(gspId, regime, start, end, stored)
  {
    var kept := Filter(stored, OneGspRegimeSelected(gspId, regime, start, end));
    assert stored[j] in kept;
    var i :| 0 <= i < |kept| && kept[i] == stored[j];
    assert TruthValuesForGspCorrected(gspId, regime, start, end, stored)[i] == AsGspYield(stored[j]);
  }

  // ---------------------------------------------------------------------
  // get_truth_values_for_all_gsps_from_database

  /** The gsps whose yields are read: the given list, or 1..nGsp, which
      leaves out the national gsp 0. */
  function TruthGspIds(gspIds: Option<seq<int>>, nGsp: nat): (r: seq<int>)
    ensures gspIds.Some? ==> r == gspIds.value
    ensures gspIds.None? ==> |r| == nGsp && forall i :: 0 <= i < nGsp ==> r[i] == i + 1
  {
    if gspIds.Some? then gspIds.value else seq(nGsp, i => i + 1)
  }

  /** Without a list every gsp from 1 to nGsp is read and the national one
      is not. */
  lemma TruthGspIdsDefault(nGsp: nat, k: int)
    ensures k in TruthGspIds(None, nGsp) <==> 1 <= k <= nGsp
  {
    var r := TruthGspIds(None, nGsp);
    if 1 <= k <= nGsp {
      assert r[k - 1] == k;
    }
  }

  /** The arguments of `get_gsp_yield_by_location` (and of `get_gsp_yield`);
      the regime is None where the route passes none on. */
  datatype YieldRead = YieldRead(gspIds: seq<int>, start: Instant, end: Option<Instant>, regime: Option<string>)

  /** The two shapes of the truth values of all gsps. */
  datatype TruthResponse =
    | CompactYields(byDatetime: seq<PydanticModels.ByDatetime>)
    | LocationsWithYields(locations: seq<LocationWithYields>)

  /** `get_truth_values_for_all_gsps_from_database`. */
  method GetTruthValuesForAllGsps(regime: Option<string>, start: Option<Instant>, end: Option<Instant>, compact: bool,
      gspIds: Option<seq<int>>, nGsp: nat, now: Instant, fallback: Instant, db: YieldRead -> seq<LocationWithYields>)
    returns (r: TruthResponse)
    ensures var read := YieldRead(TruthGspIds(gspIds, nGsp), Utils.GetStartDatetime(start, now, 3, fallback), end, regime);
      && (compact ==> r == CompactYields(Grouped(PydanticModels.LocationCells(db(read)))))
      && (!compact ==> r == LocationsWithYields(db(read)))
  {
    var readStart := Utils.GetStartDatetime(start, now, 3, fallback);
    var ids := if gspIds.None? then seq(nGsp, i => i + 1) else gspIds.value;
    var locations := db(YieldRead(ids, readStart, end, regime));
    if compact {
      var grouped := PydanticModels.ConvertLocationSqlToManyDatetimeManyGeneration(locations);
      r := CompactYields(grouped);
    } else {
      r := LocationsWithYields(locations);
    }
  }

  // ---------------------------------------------------------------------
  // get_gsp_system

  /** The location reads of `get_gsp_system`. */
  datatype LocationRead = OneLocation(gspId: int, labelText: Option<string>) | AllLocations

  /** The read of `get_gsp_system`: one location, labelled as national
      exactly when it is gsp 0, or all of them. */
  function GspSystemRead(gspId: Option<int>, nationalLabel: string): (r: LocationRead)
    ensures r.AllLocations? <==> gspId.None?
    ensures r.OneLocation? ==> (
      && r.gspId == gspId.value
      && (r.labelText.Some? <==> gspId.value == 0)
      && (r.labelText.Some? ==> r.labelText.value == nationalLabel))
  {
    if gspId.Some? then
      OneLocation(gspId.value, if gspId.value == 0 then Some(nationalLabel) else None)
    else AllLocations
  }

  /** `get_gsp_system`: one location for a given gsp, all locations
      otherwise. */
  function GetGspSystem(gspId: Option<int>, nationalLabel: string,
      getLocation: (int, Option<string>) -> Location, allLocations: seq<Location>): (r: seq<Location>)
    ensures gspId.Some? ==> r == [getLocation(gspId.value, if gspId.value == 0 then Some(nationalLabel) else None)]
    ensures gspId.None? ==> r == allLocations
  {
    match GspSystemRead(gspId, nationalLabel)
    case OneLocation(id, labelText) => [getLocation(id, labelText)]
    case AllLocations => allLocations
  }
}
