/**
 * `nowcasting_api/database/database_legacy.py`: the older copy of the
 * database layer. Its parameter rules are those of `Database`, proved equal
 * here by imperative renderings of the legacy code; what it adds is the
 * back-fill of a missing initialisation time before the forecasts are
 * converted, a model name for the latest values, and a yield read for one
 * gsp that goes through `get_start_datetime`.
 */
module DatabaseLegacy {
  import opened Common
  import opened Models
  import opened Grouping
  import TimeFloor
  import Utils
  import PydanticModels
  import Database

  // ---------------------------------------------------------------------
  // get_forecasts_from_database

  /** The branches of the legacy `get_forecasts_from_database` before the
      read, written as the code reassigns its arguments; they make the same
      read as the current module. */
  method PlanForecastsLegacy(historic: bool, start: Option<Instant>, end: Option<Instant>,
      gspIds: Option<seq<int>>, limit: Option<Instant>, now: Instant, fallback: Instant)
    returns (r: Result<Database.ForecastsPlan>)
    ensures r == Database.PlanForecasts(historic, start, end, gspIds, limit, now, fallback)
  {
    var startUtc := start;
    if historic {
      if limit.Some? {
        return Err(Http(400, Database.HISTORIC_LIMIT_DETAIL));
      }
      var startTarget := Utils.GetStartDatetime(startUtc, now, 3, fallback);
      var read := Database.ForecastsRead(None, None, Some(startTarget), end, true, Some(false), "blend", gspIds);
      r := Ok(Database.ForecastsPlan(read, startUtc));
    } else {
      if startUtc.None? {
        startUtc := Some(TimeFloor.Floor30Minutes(now - Database.TWELVE_HOURS));
      }
      var startCreated: Instant;
      if limit.None? {
        startCreated := TimeFloor.Floor30Minutes(now - Database.TWELVE_HOURS);
      } else {
        startCreated := limit.value - Database.TWELVE_HOURS;
      }
      var read := Database.ForecastsRead(Some(startCreated), limit, startUtc, end, false, None, "blend", gspIds);
      r := Ok(Database.ForecastsPlan(read, startUtc));
    }
  }

  /** The back-fill of one forecast: a missing initialisation time becomes
      the creation time; a set one, and every other field, is kept. */
  function Backfilled(f: Forecast): (r: Forecast)
    ensures r.initializationTime.Some?
    ensures f.initializationTime.Some? ==> r == f
    ensures f.initializationTime.None? ==> r.initializationTime.value == f.creationTime
    ensures r.(initializationTime := f.initializationTime) == f
  {
    if f.initializationTime.None? then f.(initializationTime := Some(f.creationTime)) else f
  }

  /** The loop that back-fills the read forecasts in place. */
  method BackfillInPlace(a: array<Forecast>)
    modifies a
    ensures forall i :: 0 <= i < a.Length ==> a[i] == Backfilled(old(a[i]))
  {
    for i := 0 to a.Length
      invariant forall l :: 0 <= l < i ==> a[l] == Backfilled(old(a[l]))
      invariant forall l :: i <= l < a.Length ==> a[l] == old(a[l])
    {
      if a[i].initializationTime.None? {
        a[i] := a[i].(initializationTime := Some(a[i].creationTime));
      }
    }
  }

  /** Applying the back-fill twice changes nothing more. */
  lemma {:induction false} BackfillIdempotent(fs: seq<Forecast>)
    ensures Map(Map(fs, Backfilled), Backfilled) == Map(fs, Backfilled)
  {
    if fs != [] {
      BackfillIdempotent(fs[1..]);
      assert Map(fs, Backfilled) == [Backfilled(fs[0])] + Map(fs[1..], Backfilled);
    }
  }

  /** The forecasts of the non-compact answer before duplicates are removed. */
  function LegacyForecasts(forecasts: seq<Forecast>, historic: bool, start: Option<Instant>, end: Option<Instant>)
    : seq<Forecast>
  {
    Utils.FilteredForecasts(Database.FromOrmAll(Map(forecasts, Backfilled), historic), start, end)
  }

  /** Each forecast of the non-compact answer is the read one, with its
      initialisation time set (to the creation time when it was missing)
      and its location and creation time kept. */
  lemma LegacyForecastsInitialised(forecasts: seq<Forecast>, historic: bool, start: Option<Instant>,
      end: Option<Instant>, i: int)
    requires 0 <= i < |forecasts|
    ensures var r := LegacyForecasts(forecasts, historic, start, end);
      && |r| == |forecasts|
      && r[i].location == forecasts[i].location && r[i].creationTime == forecasts[i].creationTime
      && r[i].initializationTime.Some?
      && (forecasts[i].initializationTime.None? ==> r[i].initializationTime.value == forecasts[i].creationTime)
      && (forecasts[i].initializationTime.Some? ==> r[i].initializationTime == forecasts[i].initializationTime)
  {
    var filled := Map(forecasts, Backfilled);
    var converted := Database.FromOrmAll(filled, historic);
    assert converted[i] == FromOrm(Backfilled(forecasts[i]), historic);
    assert converted[i].initializationTime == Backfilled(forecasts[i]).initializationTime;
  }

  /** The legacy `get_forecasts_from_database`: the read of the current
      module; a compact answer is grouped as there; otherwise the forecasts
      are back-filled in place, converted, trimmed to the window and passed
      through `dedup`, the `remove_duplicate_values` of the utilities. */
  method GetForecastsFromDatabaseLegacy(historic: bool, start: Option<Instant>, end: Option<Instant>, compact: bool,
      gspIds: Option<seq<int>>, limit: Option<Instant>, now: Instant, fallback: Instant, adjustLimit: real,
      db: Database.ForecastsRead -> seq<Forecast>, dedup: seq<Forecast> -> seq<Forecast>)
    returns (r: Result<Database.ForecastsResponse>)
    ensures r.Err? <==> historic && limit.Some?
    ensures r.Err? ==> r.error == Http(400, Database.HISTORIC_LIMIT_DETAIL)
    ensures r.Ok? ==> var plan := Database.PlanForecasts(historic, start, end, gspIds, limit, now, fallback).value;
      && (compact ==> r.value == Database.CompactForecasts(
            Grouped(PydanticModels.ForecastCells(db(plan.read), historic, plan.start, end, adjustLimit))))
      && (!compact ==> r.value == Database.ManyForecasts(dedup(LegacyForecasts(db(plan.read), historic, plan.start, end))))
  {
    var planned := PlanForecastsLegacy(historic, start, end, gspIds, limit, now, fallback);
    if planned.Err? {
      return Err(planned.error);
    }
    var plan := planned.value;
    var forecasts := db(plan.read);
    if compact {
      var grouped := PydanticModels.ConvertForecastsToManyDatetimeManyGeneration(forecasts, historic, plan.start, end, adjustLimit);
      r := Ok(Database.CompactForecasts(grouped));
    } else {
      var a := new Forecast[|forecasts|](i requires 0 <= i < |forecasts| => forecasts[i]);
      BackfillInPlace(a);
      assert a[..] == Map(forecasts, Backfilled);
      var converted := Database.FromOrmAll(a[..], historic);
      var filtered := Utils.FilterForecastValues(converted, end, plan.start);
      r := Ok(Database.ManyForecasts(dedup(filtered)));
    }
  }

  // ---------------------------------------------------------------------
  // get_latest_forecast_values_for_a_specific_gsp_from_database

  /** The read of the legacy latest values, written as the code reassigns
      the creation limit: the read of the current module with the given
      model name in place of "blend". */
  method PlanLatestValuesLegacy(gspId: int, horizon: Option<int>, start: Option<Instant>, end: Option<Instant>,
      limit: Option<Instant>, modelName: string, now: Instant, fallback: Instant)
    returns (r: Database.ValuesRead)
    ensures r == Database.PlanLatestValues(gspId, horizon, start, end, limit, now, fallback).(modelName := modelName)
  {
    var readStart := Utils.GetStartDatetime(start, now, 365, fallback);
    if horizon.None? && limit.None? {
      return Database.LatestValuesRead(gspId, readStart, end, modelName);
    }
    var sevenDaysAgo := now - 7 * DAY;
    var table: Table;
    if limit.Some? && limit.value < sevenDaysAgo {
      table := ForecastValueSql;
    } else if start.Some? && start.value < sevenDaysAgo {
      table := ForecastValueSql;
    } else {
      table := ForecastValueSevenDaysSql;
    }
    var createdLimit := limit;
    if createdLimit.None? && horizon.Some? {
      createdLimit := Some(now - horizon.value * MINUTE);
    }
    r := Database.HistoryValuesRead(gspId, readStart, end, modelName, horizon, table, createdLimit, true);
  }

  /** The legacy latest values: the rows of the planned read, none when the
      read finds none. */
  method LatestForecastValuesForGspLegacy(gspId: int, horizon: Option<int>, start: Option<Instant>,
      end: Option<Instant>, limit: Option<Instant>, modelName: string, now: Instant, fallback: Instant,
      db: Database.ValuesRead -> seq<ForecastValue>)
    returns (vs: seq<ForecastValue>)
    ensures var read := Database.PlanLatestValues(gspId, horizon, start, end, limit, now, fallback).(modelName := modelName);
      vs == db(read)
  {
    var read := PlanLatestValuesLegacy(gspId, horizon, start, end, limit, modelName, now, fallback);
    var rows := db(read);
    if |rows| == 0 {
      return [];
    }
    vs := rows;
  }

  // ---------------------------------------------------------------------
  // get_truth_values_for_a_specific_gsp_from_database

  /** The yield read of the legacy truth values of one gsp: that gsp alone,
      from `get_start_datetime(start)`, with the given regime. */
  function TruthReadForGsp(gspId: int, regime: Option<string>, start: Option<Instant>, end: Option<Instant>,
      now: Instant, fallback: Instant): (r: Database.YieldRead)
    ensures r.gspIds == [gspId] && r.end == end && r.regime == regime
    ensures r.start == Utils.GetStartDatetime(start, now, 3, fallback)
  {
    Database.YieldRead([gspId], Utils.GetStartDatetime(start, now, 3, fallback), end, regime)
  }
}
