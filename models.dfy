/**
 * The records the service reads from the database and returns to clients
 * (the pydantic models of the datamodel package), reduced to the fields the
 * modelled code sets or reads, and the row predicates that every database
 * query of the service is built from.
 */
module Models {
  import opened Common

  /** A dict of probabilistic levels, e.g. {"10": 1.2, "90": 3.4}; a value
      may be None (a SQL NULL). */
  type PlevelMap = map<string, Option<real>>

  /** A `plevels` attribute: a dict, or None (or anything that is not a dict). */
  type Plevels = Option<PlevelMap>

  datatype Location = Location(
    gspId: int,
    labelText: Option<string>,
    gspName: Option<string>,
    gspGroup: Option<string>,
    regionName: Option<string>,
    installedCapacityMw: real)

  datatype MlModel = MlModel(name: string, version: string)

  datatype InputDataLastUpdated = InputDataLastUpdated(gsp: Instant, nwp: Instant, pv: Instant, satellite: Instant)

  /** One forecast value: target time, power, normalised power, the trend
      adjuster's `_adjust_mw` and the `_properties` dict holding the plevels. */
  datatype ForecastValue = ForecastValue(
    targetTime: Instant,
    powerMw: real,
    normalizedPower: real,
    adjustMw: real,
    properties: Plevels)

  /** A forecast value built from a target time and a power alone; the other
      fields take the datamodel's defaults. */
  function PlainValue(targetTime: Instant, powerMw: real): (v: ForecastValue)
    ensures v.targetTime == targetTime && v.powerMw == powerMw
  {
    ForecastValue(targetTime, powerMw, 0.0, 0.0, None)
  }

  /** `NationalForecastValue`: a forecast value with a `plevels` dict. */
  datatype NationalForecastValue = NationalForecastValue(value: ForecastValue, plevels: Plevels)

  /** One measured yield of a gsp, as read from PV_Live. */
  datatype GspYield = GspYield(datetimeUtc: Instant, solarGenerationKw: real, regime: string)

  /** `LocationWithGSPYields`: a location and its yields. */
  datatype LocationWithYields = LocationWithYields(location: Location, gspYields: seq<GspYield>)

  /** The parts of an HTTP request the service reads: the full URL, its path
      and its query parameters in URL order. */
  datatype HttpRequest = HttpRequest(url: string, path: string, query: seq<(string, string)>)

  /** A forecast of one location: `values` is `forecast_values`, `latestValues`
      is `forecast_values_latest`. */
  datatype Forecast = Forecast(
    location: Location,
    model: MlModel,
    creationTime: Instant,
    initializationTime: Option<Instant>,
    historic: bool,
    values: seq<ForecastValue>,
    latestValues: seq<ForecastValue>,
    inputDataLastUpdated: InputDataLastUpdated)

  /** `Forecast.from_orm` (`latest` false) and `Forecast.from_orm_latest`
      (`latest` true): the latter returns the latest values as the values. */
  function FromOrm(f: Forecast, latest: bool): (r: Forecast)
    ensures r.location == f.location && r.creationTime == f.creationTime
    ensures r.values == if latest then f.latestValues else f.values
  {
    if latest then f.(values := f.latestValues) else f
  }

  /** The value tables a forecast read can use. */
  datatype Table = ForecastValueSql | ForecastValueSevenDaysSql | ForecastValueLatestSql

  /** The inclusive target-time window `start <= t <= end`, each bound only
      when it is given. */
  predicate InWindow(t: Instant, start: Option<Instant>, end: Option<Instant>)
  {
    (start.None? || start.value <= t) && (end.None? || t <= end.value)
  }

  /** The window as a predicate on values, and its two halves. */
  function Window(start: Option<Instant>, end: Option<Instant>): ForecastValue -> bool
  {
    (v: ForecastValue) => InWindow(v.targetTime, start, end)
  }

  function NotBefore(start: Instant): ForecastValue -> bool
  {
    (v: ForecastValue) => v.targetTime >= start
  }

  function NotAfter(end: Instant): ForecastValue -> bool
  {
    (v: ForecastValue) => v.targetTime <= end
  }

  /** The gsp filter of the fast reads: no list keeps every gsp but the
      national one (0); a list keeps exactly the listed gsps. */
  predicate GspSelected(gspId: int, gspIds: Option<seq<int>>)
  {
    if gspIds.None? then gspId != 0 else gspId in gspIds.value
  }

  /** The seven-day rule: the full table once the creation limit, or else the
      start, lies more than seven days before now; otherwise the table that
      holds the last seven days. */
  function SevenDayTable(creationLimit: Option<Instant>, start: Option<Instant>, now: Instant): (t: Table)
    ensures t != ForecastValueLatestSql
    ensures t == ForecastValueSql <==>
      (creationLimit.Some? && creationLimit.value < now - 7 * DAY) ||
      (start.Some? && start.value < now - 7 * DAY)
  {
    if creationLimit.Some? && creationLimit.value < now - 7 * DAY then ForecastValueSql
    else if start.Some? && start.value < now - 7 * DAY then ForecastValueSql
    else ForecastValueSevenDaysSql
  }

  /** Subtracting an optional number of minutes. */
  function MinusMinutes(t: Instant, minutes: Option<int>): (r: Instant)
    ensures minutes.None? ==> r == t
    ensures minutes.Some? ==> r == t - minutes.value * MINUTE
  {
    if minutes.Some? then t - minutes.value * MINUTE else t
  }
}
