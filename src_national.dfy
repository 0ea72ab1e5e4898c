/**
 * `src/national.py`: the older national forecast route. It has no model
 * name and no trend-adjuster switch: the metadata read names "blend", and
 * every value is adjusted. The rest of the route is that of
 * `NationalRoutes` with the blend model and the adjuster on.
 */
module SrcNational {
  import opened Common
  import opened Models
  import Utils
  import NationalRoutes

  /** The arguments the route passes to
      `get_latest_forecast_values_for_a_specific_gsp_from_database`. */
  datatype SrcValuesRead = SrcValuesRead(gspId: int, horizon: Option<int>, start: Option<Instant>,
    end: Option<Instant>, limit: Option<Instant>)

  /** `get_national_forecast` of `src/national.py`: the 404 for a horizon
      with metadata; with metadata the latest blend forecast of gsp 0
      (IndexError when there is none), otherwise the values read for gsp 0;
      every value adjusted, then the plevels formatted when they are on. */
  function SrcNationalAnswer(includeMetadata: bool, horizon: Option<int>, start: Option<Instant>,
      end: Option<Instant>, limit: Option<Instant>, getPlevels: bool,
      forecastsRead: NationalRoutes.NationalForecastsRead -> seq<Forecast>,
      valuesRead: SrcValuesRead -> seq<ForecastValue>, adjust: ForecastValue -> ForecastValue)
    : (r: Result<NationalRoutes.NationalAnswer>)
    ensures r == Err(Http(404, NationalRoutes.HORIZON_DETAIL)) <==> includeMetadata && horizon.Some?
    ensures r == Err(IndexError) <==> (includeMetadata && horizon.None?
      && |forecastsRead(NationalRoutes.MetadataRead("blend", start, end, limit))| == 0)
    ensures r.Ok? ==> (r.value.FullForecast? <==> includeMetadata)
    ensures r.Ok? && !includeMetadata ==> var vs := valuesRead(SrcValuesRead(0, horizon, start, end, limit));
      && |r.value.values| == |vs|
      && forall i :: 0 <= i < |vs| ==> r.value.values[i].value == adjust(vs[i])
    ensures r.Ok? && includeMetadata ==>
      var f := NationalRoutes.MetadataForecast("blend", start, end, limit, forecastsRead);
      && f.Ok? && r.value.forecast == f.value && |r.value.values| == |f.value.values|
      && forall i :: 0 <= i < |f.value.values| ==> r.value.values[i].value == adjust(f.value.values[i])
  {
    NationalRoutes.InternalModelNames(NationalRoutes.Blend, NationalRoutes.Blend);
    NationalRoutes.NationalAnswerFrom(NationalRoutes.Blend, includeMetadata, horizon, start, end, limit, true,
      getPlevels, forecastsRead, valuesRead(SrcValuesRead(0, horizon, start, end, limit)), adjust)
  }

  /** The route, written as the code runs it. */
  method GetNationalForecastSrc(includeMetadata: bool, horizon: Option<int>, start: Option<Instant>,
      end: Option<Instant>, limit: Option<Instant>, getPlevels: bool,
      forecastsRead: NationalRoutes.NationalForecastsRead -> seq<Forecast>,
      valuesRead: SrcValuesRead -> seq<ForecastValue>, adjust: ForecastValue -> ForecastValue)
    returns (r: Result<NationalRoutes.NationalAnswer>)
    ensures r == SrcNationalAnswer(includeMetadata, horizon, start, end, limit, getPlevels, forecastsRead,
      valuesRead, adjust)
  {
    NationalRoutes.InternalModelNames(NationalRoutes.Blend, NationalRoutes.Blend);
    var forecast: Option<Forecast> := None;
    var forecastValues: seq<ForecastValue>;
    if includeMetadata {
      if horizon.Some? {
        return Err(Http(404, NationalRoutes.HORIZON_DETAIL));
      }
      var historic := limit.None?;
      var read := forecastsRead(NationalRoutes.NationalForecastsRead([0], "blend", historic, start, end, limit));
      if |read| == 0 {
        return Err(IndexError);
      }
      var f := FromOrm(read[0], historic);
      var forecasts := Utils.FilterForecastValues([f], end, start);
      forecast := Some(forecasts[0]);
      forecastValues := forecasts[0].values;
      assert forecasts[0] == NationalRoutes.MetadataForecast("blend", start, end, limit, forecastsRead).value;
    } else {
      forecastValues := valuesRead(SrcValuesRead(0, horizon, start, end, limit));
    }
    r := NationalRoutes.FinishNational(forecast, forecastValues, true, getPlevels, adjust);
  }
}
