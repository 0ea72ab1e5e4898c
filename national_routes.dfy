/**
 * `nowcasting_api/national.py`: the national forecast route and the national
 * PV_Live route. The forecast route maps the external model name to the
 * internal one, refuses a horizon together with metadata, reads either the
 * latest full forecast of gsp 0 or its latest values, adjusts them when the
 * trend adjuster is on and formats their plevels when plevels are on.
 */
module NationalRoutes {
  import opened Common
  import opened Models
  import Utils
  import PvLive
  import Database

  // ---------------------------------------------------------------------
  // model names

  /** The `ModelName` enum of the route. */
  datatype ModelName = Blend | PvnetIntraday | PvnetDayAhead | PvnetIntradayEcmwfOnly

  const BLEND: string := "blend"
  const PVNET_INTRADAY: string := "pvnet_intraday"
  const PVNET_DAY_AHEAD: string := "pvnet_day_ahead"
  const PVNET_INTRADAY_ECMWF_ONLY: string := "pvnet_intraday_ecmwf_only"
  const PVNET_V2: string := "pvnet_v2"
  const PVNET_ECMWF: string := "pvnet_ecmwf"

  /** The external name of each enum member, its string value. */
  function External(m: ModelName): string
  {
    match m
    case Blend => BLEND
    case PvnetIntraday => PVNET_INTRADAY
    case PvnetDayAhead => PVNET_DAY_AHEAD
    case PvnetIntradayEcmwfOnly => PVNET_INTRADAY_ECMWF_ONLY
  }

  /** `model_names_external_to_internal`. */
  const MODEL_NAMES: map<string, string> := map[
    BLEND := BLEND,
    PVNET_INTRADAY := PVNET_V2,
    PVNET_DAY_AHEAD := PVNET_DAY_AHEAD,
    PVNET_INTRADAY_ECMWF_ONLY := PVNET_ECMWF]

  /** `dict.get` on the model names: None for a name that is not a key. */
  function LookupModelName(name: string): Option<string>
  {
    if name in MODEL_NAMES then Some(MODEL_NAMES[name]) else None
  }

  /** The internal name of an enum member: every member's name is a key of
      the map, so the lookup never gives None. */
  function InternalModelName(m: ModelName): (r: string)
    ensures LookupModelName(External(m)) == Some(r)
  {
    MODEL_NAMES[External(m)]
  }

  /** The mapping: blend and day-ahead keep their names, the intraday models
      are renamed; distinct members name distinct models. */
  lemma InternalModelNames(m1: ModelName, m2: ModelName)
    ensures InternalModelName(Blend) == "blend" && InternalModelName(PvnetIntraday) == "pvnet_v2"
    ensures InternalModelName(PvnetDayAhead) == "pvnet_day_ahead"
    ensures InternalModelName(PvnetIntradayEcmwfOnly) == "pvnet_ecmwf"
    ensures InternalModelName(m1) == InternalModelName(m2) ==> m1 == m2
  {
    // the four internal names have four different lengths
    assert |BLEND| == 5 && |PVNET_V2| == 8 && |PVNET_DAY_AHEAD| == 15 && |PVNET_ECMWF| == 11;
  }

  // ---------------------------------------------------------------------
  // environment

  /** `bool(os.getenv("GET_PLEVELS", True))`: unset gives True, and so does
      every non-empty string, "False" and "0" included. */
  function GetPlevels(env: Option<string>): (r: bool)
    ensures !r <==> env == Some("")
  {
    match env
    case None => true
    case Some(s) => |s| > 0
  }

  // ---------------------------------------------------------------------
  // get_national_forecast

  const HORIZON_DETAIL: string := "Can not set forecast_horizon_minutes when including metadata"

  /** The arguments of `get_latest_forecast_for_gsps`. */
  datatype NationalForecastsRead = NationalForecastsRead(gspIds: seq<int>, modelName: string, historic: bool,
    startTarget: Option<Instant>, endTarget: Option<Instant>, endCreated: Option<Instant>)

  /** The answer of the route: the full forecast with its values replaced by
      `values`, or the value list alone. */
  datatype NationalAnswer =
    | FullForecast(forecast: Forecast, values: seq<NationalForecastValue>)
    | ValueList(values: seq<NationalForecastValue>)

  /** The read of the latest national forecast: historic when no creation
      limit is given. */
  function MetadataRead(modelName: string, start: Option<Instant>, end: Option<Instant>, limit: Option<Instant>)
    : NationalForecastsRead
  {
    NationalForecastsRead([0], modelName, limit.None?, start, end, limit)
  }

  /** The metadata path: the first forecast read (IndexError when there is
      none), converted from its latest values when historic and from its
      values otherwise, and trimmed to the window. */
  function MetadataForecast(modelName: string, start: Option<Instant>, end: Option<Instant>, limit: Option<Instant>,
      forecastsRead: NationalForecastsRead -> seq<Forecast>): (r: Result<Forecast>)
    ensures r.Err? <==> |forecastsRead(MetadataRead(modelName, start, end, limit))| == 0
    ensures r.Err? ==> r.error == IndexError
    ensures r.Ok? ==> var f := forecastsRead(MetadataRead(modelName, start, end, limit))[0];
      var source := if limit.None? then f.latestValues else f.values;
      && r.value.location == f.location && r.value.creationTime == f.creationTime
      && (forall v :: v in r.value.values <==> v in source && InWindow(v.targetTime, start, end))
      && IsSubsequence(r.value.values, source)
  {
    var rows := forecastsRead(MetadataRead(modelName, start, end, limit));
    if |rows| == 0 then Err(IndexError)
    else
      var f := FromOrm(rows[0], limit.None?);
      Utils.FilteredForecastsSpec([f], start, end);
      Ok(Utils.FilteredForecasts([f], start, end)[0])
  }

  /** The values after the trend adjuster, applied only when it is on. */
  function TrendAdjusted(values: seq<ForecastValue>, on: bool, adjust: ForecastValue -> ForecastValue)
    : seq<ForecastValue>
  {
    if on then Map(values, adjust) else values
  }

  /** A value with its plevels from `_properties`, through `format_plevels`. */
  function PlevelValue(f: ForecastValue): (r: Result<NationalForecastValue>)
    ensures r.Err? ==> r.error == TypeError || r.error == KeyError
    ensures r.Ok? ==> (r.value.value == f && r.value.plevels.Some?
      && "plevel_10" in r.value.plevels.value && "plevel_90" in r.value.plevels.value)
  {
    match Utils.FormatPlevels(f.properties, f.powerMw)
    case Err(e) => Err(e)
    case Ok(m) => Ok(NationalForecastValue(f, Some(m)))
  }

  /** The plevel loop over `vs`: every value formatted, in order, or the
      error of the first value whose formatting fails. */
  function PlevelValues(vs: seq<ForecastValue>): (r: Result<seq<NationalForecastValue>>)
    ensures r.Err? <==> exists i :: 0 <= i < |vs| && PlevelValue(vs[i]).Err?
    ensures r.Ok? ==> |r.value| == |vs|
    ensures r.Ok? ==> forall i :: 0 <= i < |vs| ==> PlevelValue(vs[i]) == Ok(r.value[i])
    ensures r.Err? ==> exists i :: (0 <= i < |vs| && PlevelValue(vs[i]) == Err(r.error)
      && forall j :: 0 <= j < i ==> PlevelValue(vs[j]).Ok?)
  {
    if |vs| == 0 then Ok([])
    else
      var n := |vs| - 1;
      var pre := PlevelValues(vs[..n]);
      assert forall j :: 0 <= j < n ==> vs[..n][j] == vs[j];
      if pre.Err? then pre
      else
        var last := PlevelValue(vs[n]);
        if last.Err? then Err(last.error) else Ok(pre.value + [last.value])
  }

  /** The first value whose formatting fails decides the error. */
  lemma PlevelValuesFirstError(vs: seq<ForecastValue>, i: int)
    requires 0 <= i < |vs| && PlevelValues(vs[..i]).Ok? && PlevelValue(vs[i]).Err?
    ensures PlevelValues(vs) == Err(PlevelValue(vs[i]).error)
  {
    var r := PlevelValues(vs);
    assert forall j :: 0 <= j < i ==> vs[..i][j] == vs[j];
    assert forall j :: 0 <= j < i ==> PlevelValue(vs[j]).Ok?;
    var k :| 0 <= k < |vs| && PlevelValue(vs[k]) == Err(r.error) && forall j :: 0 <= j < k ==> PlevelValue(vs[j]).Ok?;
    assert k == i;
  }

  /** The loop of the route that formats the plevels of each value. */
  method PlevelLoop(vs: seq<ForecastValue>) returns (r: Result<seq<NationalForecastValue>>)
    ensures r == PlevelValues(vs)
  {
    var out: seq<NationalForecastValue> := [];
    for i := 0 to |vs|
      invariant PlevelValues(vs[..i]) == Ok(out)
    {
      assert vs[..i + 1][..i] == vs[..i];
      var f := vs[i];
      var plevels := f.properties;
      var formatted := Utils.FormatPlevels(plevels, f.powerMw);
      if formatted.Err? {
        PlevelValuesFirstError(vs, i);
        return Err(formatted.error);
      }
      out := out + [NationalForecastValue(f, Some(formatted.value))];
    }
    assert vs[..|vs|] == vs;
    r := Ok(out);
  }

  /** A national value without plevels: the default of the model, written
      None here. */
  function NoPlevels(f: ForecastValue): NationalForecastValue
  {
    NationalForecastValue(f, None)
  }

  /** The part of the route after the read: adjust, convert, and shape. */
  function NationalTail(forecast: Option<Forecast>, values: seq<ForecastValue>, trendAdjusterOn: bool,
      getPlevels: bool, adjust: ForecastValue -> ForecastValue): (r: Result<NationalAnswer>)
    ensures r.Ok? ==> (r.value.FullForecast? <==> forecast.Some?)
    ensures r.Ok? && r.value.FullForecast? ==> r.value.forecast == forecast.value
    ensures r.Ok? ==> |r.value.values| == |values|
    ensures r.Ok? ==> forall i :: 0 <= i < |values| ==>
      r.value.values[i].value == (if trendAdjusterOn then adjust(values[i]) else values[i])
    ensures !getPlevels ==> r.Ok? && forall i :: 0 <= i < |values| ==> r.value.values[i].plevels.None?
    ensures getPlevels ==> (r.Err? <==> exists i :: 0 <= i < |values| && PlevelValue(TrendAdjusted(values, trendAdjusterOn, adjust)[i]).Err?)
    ensures getPlevels && r.Ok? ==> forall i :: 0 <= i < |values| ==>
      var f := TrendAdjusted(values, trendAdjusterOn, adjust)[i];
      r.value.values[i].plevels.Some? && Utils.FormatPlevels(f.properties, f.powerMw) == Ok(r.value.values[i].plevels.value)
  {
    var adjusted := TrendAdjusted(values, trendAdjusterOn, adjust);
    var converted := if getPlevels then PlevelValues(adjusted) else Ok(Map(adjusted, NoPlevels));
    if converted.Err? then Err(converted.error)
    else if forecast.Some? then Ok(FullForecast(forecast.value, converted.value))
    else Ok(ValueList(converted.value))
  }

  /** The tail of the route, written as the code runs it. */
  method FinishNational(forecast: Option<Forecast>, values: seq<ForecastValue>, trendAdjusterOn: bool,
      getPlevels: bool, adjust: ForecastValue -> ForecastValue) returns (r: Result<NationalAnswer>)
    ensures r == NationalTail(forecast, values, trendAdjusterOn, getPlevels, adjust)
  {
    var forecastValues := values;
    if trendAdjusterOn {
      forecastValues := Map(forecastValues, adjust);
    }
    var nationalValues: seq<NationalForecastValue>;
    if !getPlevels {
      nationalValues := Map(forecastValues, NoPlevels);
    } else {
      var formatted := PlevelLoop(forecastValues);
      if formatted.Err? {
        return Err(formatted.error);
      }
      nationalValues := formatted.value;
    }
    if forecast.Some? {
      r := Ok(FullForecast(forecast.value, nationalValues));
    } else {
      r := Ok(ValueList(nationalValues));
    }
  }

  /** The route given the values the latest-values read returns: the 404,
      then the metadata path or those values, then the tail. */
  function NationalAnswerFrom(m: ModelName, includeMetadata: bool, horizon: Option<int>, start: Option<Instant>,
      end: Option<Instant>, limit: Option<Instant>, trendAdjusterOn: bool, getPlevels: bool,
      forecastsRead: NationalForecastsRead -> seq<Forecast>, latest: seq<ForecastValue>,
      adjust: ForecastValue -> ForecastValue): (r: Result<NationalAnswer>)
    ensures r == Err(Http(404, HORIZON_DETAIL)) <==> includeMetadata && horizon.Some?
    ensures r == Err(IndexError) <==> (includeMetadata && horizon.None?
      && |forecastsRead(MetadataRead(InternalModelName(m), start, end, limit))| == 0)
    ensures r.Ok? ==> (r.value.FullForecast? <==> includeMetadata)
    ensures r.Ok? && !includeMetadata ==> |r.value.values| == |latest|
    ensures r.Ok? && includeMetadata ==>
      var f := MetadataForecast(InternalModelName(m), start, end, limit, forecastsRead);
      f.Ok? && r.value.forecast == f.value && |r.value.values| == |f.value.values|
  {
    if includeMetadata then
      if horizon.Some? then Err(Http(404, HORIZON_DETAIL))
      else match MetadataForecast(InternalModelName(m), start, end, limit, forecastsRead)
        case Err(e) => Err(e)
        case Ok(f) => NationalTail(Some(f), f.values, trendAdjusterOn, getPlevels, adjust)
    else NationalTail(None, latest, trendAdjusterOn, getPlevels, adjust)
  }

  /** `get_national_forecast` as written: without metadata it reads the
      latest values of gsp 0 through
      `get_latest_forecast_values_for_a_specific_gsp_from_database`, which
      is given no model name and reads "blend". */
  function NationalForecastAnswer(m: ModelName, includeMetadata: bool, horizon: Option<int>, start: Option<Instant>,
      end: Option<Instant>, limit: Option<Instant>, trendAdjusterOn: bool, getPlevels: bool, now: Instant,
      fallback: Instant, forecastsRead: NationalForecastsRead -> seq<Forecast>,
      valuesRead: Database.ValuesRead -> seq<ForecastValue>, adjust: ForecastValue -> ForecastValue)
    : (r: Result<NationalAnswer>)
    ensures r == Err(Http(404, HORIZON_DETAIL)) <==> includeMetadata && horizon.Some?
    ensures r.Ok? && !includeMetadata ==>
      |r.value.values| == |valuesRead(Database.PlanLatestValues(0, horizon, start, end, limit, now, fallback))|
  {
    NationalAnswerFrom(m, includeMetadata, horizon, start, end, limit, trendAdjusterOn, getPlevels, forecastsRead,
      Database.LatestForecastValuesForGsp(0, horizon, start, end, limit, now, fallback, valuesRead), adjust)
  }

  /** The route, written as the code runs it. */
  method GetNationalForecast(m: ModelName, includeMetadata: bool, horizon: Option<int>, start: Option<Instant>,
      end: Option<Instant>, limit: Option<Instant>, trendAdjusterOn: bool, getPlevels: bool, now: Instant,
      fallback: Instant, forecastsRead: NationalForecastsRead -> seq<Forecast>,
      valuesRead: Database.ValuesRead -> seq<ForecastValue>, adjust: ForecastValue -> ForecastValue)
    returns (r: Result<NationalAnswer>)
    ensures r == NationalForecastAnswer(m, includeMetadata, horizon, start, end, limit, trendAdjusterOn, getPlevels,
      now, fallback, forecastsRead, valuesRead, adjust)
  {
    var modelName := InternalModelName(m);
    var forecast: Option<Forecast> := None;
    var forecastValues: seq<ForecastValue>;
    if includeMetadata {
      if horizon.Some? {
        return Err(Http(404, HORIZON_DETAIL));
      }
      var historic := limit.None?;
      var read := forecastsRead(NationalForecastsRead([0], modelName, historic, start, end, limit));
      if |read| == 0 {
        return Err(IndexError);
      }
      var f := FromOrm(read[0], historic);
      var forecasts := Utils.FilterForecastValues([f], end, start);
      forecast := Some(forecasts[0]);
      forecastValues := forecasts[0].values;
      assert forecasts[0] == MetadataForecast(modelName, start, end, limit, forecastsRead).value;
    } else {
      forecastValues := Database.LatestForecastValuesForGsp(0, horizon, start, end, limit, now, fallback, valuesRead);
    }
    r := FinishNational(forecast, forecastValues, trendAdjusterOn, getPlevels, adjust);
  }

  /** As written, the model name has no effect without metadata: every model
      name gives the same answer, the values of the "blend" model. */
  lemma NationalModelNameIgnored(m1: ModelName, m2: ModelName, horizon: Option<int>, start: Option<Instant>,
      end: Option<Instant>, limit: Option<Instant>, trendAdjusterOn: bool, getPlevels: bool, now: Instant,
      fallback: Instant, forecastsRead: NationalForecastsRead -> seq<Forecast>,
      valuesRead: Database.ValuesRead -> seq<ForecastValue>, adjust: ForecastValue -> ForecastValue)
    ensures NationalForecastAnswer(m1, false, horizon, start, end, limit, trendAdjusterOn, getPlevels, now, fallback,
        forecastsRead, valuesRead, adjust)
      == NationalForecastAnswer(m2, false, horizon, start, end, limit, trendAdjusterOn, getPlevels, now, fallback,
        forecastsRead, valuesRead, adjust)
    ensures Database.PlanLatestValues(0, horizon, start, end, limit, now, fallback).modelName == "blend"
  {
  }

  /** The latest-values read the route evidently intends: that of
      `get_latest_forecast_values_for_a_specific_gsp_from_database` for gsp
      0, for the requested model. */
  function NationalValuesRead(m: ModelName, horizon: Option<int>, start: Option<Instant>, end: Option<Instant>,
      limit: Option<Instant>, now: Instant, fallback: Instant): (r: Database.ValuesRead)
    ensures r.modelName == InternalModelName(m) && r.gspId == 0
    ensures r.(modelName := "blend") == Database.PlanLatestValues(0, horizon, start, end, limit, now, fallback)
  {
    Database.PlanLatestValues(0, horizon, start, end, limit, now, fallback).(modelName := InternalModelName(m))
  }

  /** `get_national_forecast` with the model name passed to the latest-values
      read. */
  function NationalForecastAnswerCorrected(m: ModelName, includeMetadata: bool, horizon: Option<int>,
      start: Option<Instant>, end: Option<Instant>, limit: Option<Instant>, trendAdjusterOn: bool, getPlevels: bool,
      now: Instant, fallback: Instant, forecastsRead: NationalForecastsRead -> seq<Forecast>,
      valuesRead: Database.ValuesRead -> seq<ForecastValue>, adjust: ForecastValue -> ForecastValue)
    : (r: Result<NationalAnswer>)
    ensures r == Err(Http(404, HORIZON_DETAIL)) <==> includeMetadata && horizon.Some?
    ensures r.Ok? && !includeMetadata ==>
      |r.value.values| == |valuesRead(NationalValuesRead(m, horizon, start, end, limit, now, fallback))|
  {
    var rows := valuesRead(NationalValuesRead(m, horizon, start, end, limit, now, fallback));
    NationalAnswerFrom(m, includeMetadata, horizon, start, end, limit, trendAdjusterOn, getPlevels, forecastsRead,
      rows, adjust)
  }

  /** With the correction, distinct model names read distinct models, and
      without metadata each answer value is (adjusted from) a value of the
      requested model's read. */
  lemma CorrectedNationalReadsModel(m1: ModelName, m2: ModelName, horizon: Option<int>, start: Option<Instant>,
      end: Option<Instant>, limit: Option<Instant>, getPlevels: bool, now: Instant, fallback: Instant,
      forecastsRead: NationalForecastsRead -> seq<Forecast>, valuesRead: Database.ValuesRead -> seq<ForecastValue>,
      adjust: ForecastValue -> ForecastValue, i: int)
    requires m1 != m2
    ensures NationalValuesRead(m1, horizon, start, end, limit, now, fallback)
      != NationalValuesRead(m2, horizon, start, end, limit, now, fallback)
    ensures var r := NationalForecastAnswerCorrected(m1, false, horizon, start, end, limit, false, getPlevels, now,
        fallback, forecastsRead, valuesRead, adjust);
      r.Ok? && 0 <= i < |r.value.values| ==>
        r.value.values[i].value == valuesRead(NationalValuesRead(m1, horizon, start, end, limit, now, fallback))[i]
  {
    InternalModelNames(m1, m2);
  }

  // ---------------------------------------------------------------------
  // get_national_pvlive

  /** `get_national_pvlive`: the truth values of gsp 0 for the regime, with
      no date bounds; the regime filter is the one the truth read evidently
      intends. */
  method GetNationalPvlive(regime: Option<string>, stored: seq<PvLive.YieldRecord>) returns (r: seq<GspYield>)
    ensures forall i :: 0 <= i < |r| ==> r[i].regime == PvLive.RegimeOrDefault(regime)
    ensures r == Database.TruthValuesForGspCorrected(0, regime, None, None, stored)
  {
    r := Database.TruthValuesForGspCorrected(0, regime, None, None, stored);
    forall i | 0 <= i < |r|
      ensures r[i].regime == PvLive.RegimeOrDefault(regime)
    {
      Database.TruthValuesCorrectedSelected(0, regime, None, None, stored, i);
    }
  }
}
