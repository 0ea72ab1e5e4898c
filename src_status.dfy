/**
 * `src/status.py`: the older status routes. The forecast check has no model
 * name but refuses a forecast made `forecast_error_hours` ago or earlier;
 * the input-time route does not check that the file exists before reading
 * its modification time. The stored input times are updated by the same
 * rule as in `Status`.
 */
module SrcStatus {
  import opened Common
  import Status

  /** The default of `FORECAST_ERROR_HOURS`. */
  const FORECAST_ERROR_HOURS: real := 2.0

  const STALE_PREFIX: string := "The last forecast is more than "
  const STALE_MIDDLE: string := " hours ago. It was made at "

  /** The 404 message of a stale forecast, from the texts of the hours and
      of the creation time. */
  function StaleDetail(hoursText: string, madeText: string): string
  {
    STALE_PREFIX + hoursText + STALE_MIDDLE + madeText
  }

  /** A forecast made at `made` is stale when it was made `errorHours`
      hours before `now` or earlier. */
  predicate Stale(made: Instant, now: Instant, errorHours: real)
  {
    made as real <= now as real - errorHours * HOUR as real
  }

  /** `check_last_forecast` of `src/status.py`: the creation time of the
      newest forecast of any model; 404 when there is none, and 404 when it
      is stale. `hoursText` is the text of `errorHours` and `render` that of
      an instant. */
  function CheckLastForecastSrc(rows: seq<Status.ForecastRow>, now: Instant, errorHours: real, hoursText: string,
      render: Instant -> string): (r: Result<Instant>)
    ensures |rows| == 0 <==> r == Err(Http(404, Status.NO_FORECASTS))
    ensures r.Ok? ==> !Stale(r.value, now, errorHours)
    ensures r.Ok? ==> Status.CheckLastForecast(rows, None) == r
    ensures |rows| > 0 ==> var newest := Status.CheckLastForecast(rows, None).value;
      Stale(newest, now, errorHours) <==> r == Err(Http(404, StaleDetail(hoursText, render(newest))))
  {
    match Status.CheckLastForecast(rows, None)
    case Err(e) => Err(e)
    case Ok(made) =>
      if Stale(made, now, errorHours) then Err(Http(404, StaleDetail(hoursText, render(made))))
      else Ok(made)
  }

  /** A stale-forecast message is never the no-forecast message. */
  lemma StaleDetailDiffers(hoursText: string, madeText: string)
    ensures StaleDetail(hoursText, madeText) != Status.NO_FORECASTS
  {
    var d := StaleDetail(hoursText, madeText);
    assert d[..|STALE_PREFIX|] == STALE_PREFIX;
    assert STALE_PREFIX[4] != Status.NO_FORECASTS[4];
  }

  /** With the default of two hours, a forecast made less than two hours
      ago is served and one made two hours ago or earlier is refused. */
  lemma DefaultErrorHours(made: Instant, now: Instant)
    ensures Stale(made, now, FORECAST_ERROR_HOURS) <==> now - made >= 2 * HOUR
  {
  }

  /** The input time of `src/status.py`: as in `Status`, except that a named
      nwp or satellite file that does not exist makes the modification-time
      read raise FileNotFoundError instead of a 404. */
  function ModifiedDateSrc(component: string, file: Option<string>, gspYieldsCreated: seq<Instant>,
      files: map<string, Instant>): (r: Result<Instant>)
    ensures component in [Status.NWP, Status.SATELLITE] && file.Some? && file.value !in files ==>
      r == Err(FileNotFoundError)
    ensures !(component in [Status.NWP, Status.SATELLITE] && file.Some? && file.value !in files) ==>
      r == Status.ModifiedDate(component, file, gspYieldsCreated, files)
    // the only HTTP error left is that of a gsp read with no yields
    ensures r.Err? && r.error.Http? ==> component == Status.GSP && r.error == Http(404, Status.NO_GSP_YIELDS)
  {
    var missing := component in [Status.NWP, Status.SATELLITE] && file.Some? && file.value !in files;
    if missing then Err(FileNotFoundError)
    else
      var r := Status.ModifiedDate(component, file, gspYieldsCreated, files);
      assert Status.ComponentOf(component).Ok? && component != Status.GSP ==>
        component == Status.NWP || component == Status.SATELLITE;
      r
  }

  /** `update_last_data` of `src/status.py` on the stored input times. */
  method UpdateLastDataSrc(store: Status.InputDataStore, component: string, file: Option<string>,
      gspYieldsCreated: seq<Instant>, files: map<string, Instant>) returns (r: Result<Instant>)
    modifies store
    ensures r == ModifiedDateSrc(component, file, gspYieldsCreated, files)
    ensures r.Err? ==> store.latest == old(store.latest)
    ensures r.Ok? ==> store.latest == Status.UpdatedRecord(old(store.latest), Status.ComponentOf(component).value, r.value)
  {
    var c := Status.ComponentOf(component);
    if c.Err? {
      return Err(AssertionError);
    }
    var modifiedDate: Instant;
    if c.value == Status.Gsp {
      if |gspYieldsCreated| == 0 {
        return Err(Http(404, Status.NO_GSP_YIELDS));
      }
      modifiedDate := Status.Latest(gspYieldsCreated);
    } else {
      if file.None? {
        return Err(AssertionError);
      }
      if file.value !in files {
        return Err(FileNotFoundError);
      }
      modifiedDate := files[file.value];
    }
    store.Record(c.value, modifiedDate);
    r := Ok(modifiedDate);
  }
}
