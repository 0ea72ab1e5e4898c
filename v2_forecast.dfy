/**
 * `nowcasting_api/database/v2_foreacst.py`: the national values read
 * (table choice and creation bounds), the latest-values read and its
 * compact grouping, the query filters, and the assembly of historic
 * forecasts with their values.
 */
module V2Forecast {
  import opened Common
  import opened Models
  import opened Grouping
  import opened LatestValues
  import Utils

  // ---------------------------------------------------------------------
  // filter_gsp_id and filter_start_and_end_datetime

  /** `filter_gsp_id` on the rows of any table, given how a row names its
      gsp: no list drops the national gsp 0, a list keeps its gsps. */
  function FilterGspId<T(==,!new)>(rows: seq<T>, gspIds: Option<seq<int>>, gspOf: T -> int): (r: seq<T>)
    ensures forall x :: x in r <==>
      x in rows && (if gspIds.None? then gspOf(x) != 0 else gspOf(x) in gspIds.value)
  {
    Filter(rows, GspFilter(gspIds, gspOf))
  }

  function GspFilter<T>(gspIds: Option<seq<int>>, gspOf: T -> int): T -> bool
  {
    (x: T) => GspSelected(gspOf(x), gspIds)
  }

  /** `filter_start_and_end_datetime`: inclusive bounds, each when given. */
  function FilterStartAndEnd<T(==,!new)>(rows: seq<T>, end: Option<Instant>, start: Option<Instant>,
                                    timeOf: T -> Instant): (r: seq<T>)
    ensures forall x :: x in r <==>
      x in rows && (start.Some? ==> start.value <= timeOf(x)) && (end.Some? ==> timeOf(x) <= end.value)
  {
    Filter(rows, WindowFilter(start, end, timeOf))
  }

  function WindowFilter<T>(start: Option<Instant>, end: Option<Instant>, timeOf: T -> Instant): T -> bool
  {
    (x: T) => InWindow(timeOf(x), start, end)
  }

  /** Both filters keep the rows they keep in their order. */
  lemma FiltersKeepOrder<T(!new)>(rows: seq<T>, gspIds: Option<seq<int>>, gspOf: T -> int,
                            end: Option<Instant>, start: Option<Instant>, timeOf: T -> Instant)
    ensures IsSubsequence(FilterGspId(rows, gspIds, gspOf), rows)
    ensures IsSubsequence(FilterStartAndEnd(rows, end, start, timeOf), rows)
  {
    FilterSubsequence(rows, GspFilter(gspIds, gspOf));
    FilterSubsequence(rows, WindowFilter(start, end, timeOf));
  }

  function IsBlend(r: LatestRecord): bool { r.modelName == BLEND }
  function TargetTimeOf(r: LatestRecord): Instant { r.targetTime }
  function GspIdOf(r: LatestRecord): int { r.gspId }

  /** The latest-values query is the chain of its filters: the blend model,
      then the window, then the gsps. */
  lemma QueryIsFilterChain(table: seq<LatestRecord>, start: Option<Instant>, end: Option<Instant>,
                           gspIds: Option<seq<int>>)
    ensures Filter(table, Selected(start, end, gspIds)) ==
      FilterGspId(FilterStartAndEnd(Filter(table, IsBlend), end, start, TargetTimeOf), gspIds, GspIdOf)
  {
    var window := WindowFilter(start, end, TargetTimeOf);
    var gsp := GspFilter(gspIds, GspIdOf);
    var blend := Filter(table, IsBlend);
    assert FilterStartAndEnd(blend, end, start, TargetTimeOf) == Filter(blend, window);
    assert FilterGspId(Filter(blend, window), gspIds, GspIdOf) == Filter(Filter(blend, window), gsp);
    assert Filter(blend, window) == Filter(table, Both(IsBlend, window)) by {
      FilterFilter(table, IsBlend, window);
    }
    assert Filter(Filter(table, Both(IsBlend, window)), gsp) == Filter(table, Both(Both(IsBlend, window), gsp)) by {
      FilterFilter(table, Both(IsBlend, window), gsp);
    }
    assert Filter(table, Both(Both(IsBlend, window), gsp)) == Filter(table, Selected(start, end, gspIds)) by {
      FilterExt(table, Both(Both(IsBlend, window), gsp), Selected(start, end, gspIds));
    }
  }

  // ---------------------------------------------------------------------
  // get_national_forecast_values

  /** A row of the full or seven-day value table joined with its forecast,
      location and model. */
  datatype NationalRecord = NationalRecord(
    targetTime: Instant,
    powerMw: real,
    createdUtc: Instant,
    horizonMinutes: int,
    forecastHistoric: bool,
    forecastCreatedUtc: Instant,
    gspId: int,
    modelName: string)

  /** The read of past national values: the table, the model, the target
      window and the creation bounds. */
  datatype NationalHistoryRead = NationalHistoryRead(
    table: Table,
    modelName: string,
    start: Instant,
    end: Option<Instant>,
    horizon: Option<int>,
    createdLower: Instant,
    createdUpper: Instant)

  /** The creation bounds, as the locals are reassigned: the upper bound is
      the creation limit (now when unset), the lower bound two days before
      the start, each moved back by the horizon when one is given. */
  method CreationBounds(limit: Option<Instant>, horizon: Option<int>, start: Instant, now: Instant)
    returns (upper: Instant, lower: Instant)
    ensures upper == MinusMinutes(if limit.Some? then limit.value else now, horizon)
    ensures lower == MinusMinutes(start - 2 * DAY, horizon)
  {
    var creationLimit := limit;
    if creationLimit.None? {
      creationLimit := Some(now);
    }
    upper := creationLimit.value;
    if horizon.Some? {
      upper := upper - horizon.value * MINUTE;
    }
    lower := start - 2 * DAY;
    if horizon.Some? {
      lower := lower - horizon.value * MINUTE;
    }
  }

  /** The horizon moves both creation bounds by the same amount, so the
      creation window always spans from two days before the start to the
      creation limit (or now); with a non-negative horizon the lower bound is
      no later than the forecast filter's two days before the start. */
  lemma CreationWindowWidth(limit: Option<Instant>, horizon: Option<int>, start: Instant, now: Instant)
    ensures var base := if limit.Some? then limit.value else now;
      MinusMinutes(base, horizon) - MinusMinutes(start - 2 * DAY, horizon) == base - (start - 2 * DAY)
    ensures horizon.Some? && horizon.value >= 0 ==> MinusMinutes(start - 2 * DAY, horizon) <= start - 2 * DAY
    ensures horizon.None? ==> MinusMinutes(start - 2 * DAY, horizon) == start - 2 * DAY
  {
  }

  /** The plan of the national read: the latest values (None) when neither a
      horizon nor a creation limit is given, otherwise a read of past values. */
  function PlanNational(horizon: Option<int>, start: Option<Instant>, end: Option<Instant>,
                        limit: Option<Instant>, modelName: string, now: Instant, fallback: Instant)
    : (r: Option<NationalHistoryRead>)
    ensures r.None? <==> horizon.None? && limit.None?
    ensures r.Some? ==>
      var read := r.value;
      var base := if limit.Some? then limit.value else now;
      && read.table == SevenDayTable(limit, start, now)
      && read.start == Utils.GetStartDatetime(start, now, 365, fallback)
      && read.createdUpper == MinusMinutes(base, horizon)
      && read.createdLower == MinusMinutes(read.start - 2 * DAY, horizon)
      && read.end == end && read.horizon == horizon && read.modelName == modelName
  {
    if horizon.None? && limit.None? then None
    else
      var s := Utils.GetStartDatetime(start, now, 365, fallback);
      var base := if limit.Some? then limit.value else now;
      Some(NationalHistoryRead(SevenDayTable(limit, start, now), modelName, s, end, horizon,
                               MinusMinutes(s - 2 * DAY, horizon), MinusMinutes(base, horizon)))
  }

  /** The filters of the read of past national values. The end bound is
      applied to the chosen table. */
  function HistorySelected(read: NationalHistoryRead): NationalRecord -> bool
  {
    (r: NationalRecord) =>
      && !r.forecastHistoric && r.gspId == 0 && r.modelName == read.modelName
      && r.forecastCreatedUtc >= read.start - 2 * DAY
      && r.targetTime >= read.start
      && (read.horizon.None? || r.horizonMinutes >= read.horizon.value)
      && (read.end.None? || r.targetTime <= read.end.value)
      && r.forecastCreatedUtc >= read.createdLower
      && r.createdUtc >= read.createdLower
      && r.createdUtc <= read.createdUpper
  }

  /** A past national value: target time and power, empty plevels. */
  function HistoryValue(r: NationalRecord): NationalForecastValue
  {
    NationalForecastValue(PlainValue(r.targetTime, r.powerMw), Some(map[]))
  }

  /** The values of the read of past national values. */
  function HistoryValues(records: seq<NationalRecord>, read: NationalHistoryRead): seq<NationalForecastValue>
  {
    Map(Filter(records, HistorySelected(read)), HistoryValue)
  }

  /** A latest national value with its plevels formatted from the empty
      dict, that is, set to their defaults. */
  function LatestValue(row: ValueRow): NationalForecastValue
  {
    NationalForecastValue(PlainValue(row.targetTime, row.powerMw), Some(Utils.DefaultPlevels(row.powerMw)))
  }

  /** The latest national values: the latest rows of gsp 0. */
  function LatestNationalValues(latest: seq<LatestRecord>, start: Option<Instant>, end: Option<Instant>)
    : seq<NationalForecastValue>
  {
    Map(Query(latest, start, end, Some([0]), false), LatestValue)
  }

  /** The loop `for v in values: format_plevels(v)` over values whose plevels
      are the empty dict. */
  method FormatEach(rows: seq<ValueRow>) returns (r: seq<NationalForecastValue>)
    ensures r == Map(rows, LatestValue)
  {
    r := [];
    for i := 0 to |rows|
      invariant r == Map(rows[..i], LatestValue)
    {
      var v := NationalForecastValue(PlainValue(rows[i].targetTime, rows[i].powerMw), Some(map[]));
      var formatted := Utils.FormatPlevels(v.plevels, v.value.powerMw);
      v := v.(plevels := Some(formatted.value));
      r := r + [v];
    }
    assert rows[..|rows|] == rows;
  }

  /** `get_national_forecast_values`: `history` is the read of a value table,
      `latest` the latest-values table; the plevel and adjuster switches do
      nothing. */
  method GetNationalForecastValues(horizon: Option<int>, start: Option<Instant>, end: Option<Instant>,
                                   limit: Option<Instant>, modelName: string, now: Instant, fallback: Instant,
                                   history: Table -> seq<NationalRecord>, latest: seq<LatestRecord>)
    returns (r: seq<NationalForecastValue>)
    ensures var plan := PlanNational(horizon, start, end, limit, modelName, now, fallback);
      r == if plan.Some? then HistoryValues(history(plan.value.table), plan.value)
           else LatestNationalValues(latest, start, end)
  {
    if horizon.Some? || limit.Some? {
      var table := SevenDayTable(limit, start, now);
      var s := Utils.GetStartDatetime(start, now, 365, fallback);
      var upper, lower := CreationBounds(limit, horizon, s, now);
      var read := NationalHistoryRead(table, modelName, s, end, horizon, lower, upper);
      var records := Filter(history(table), HistorySelected(read));
      r := Map(records, HistoryValue);
    } else {
      var rows := Query(latest, start, end, Some([0]), false);
      r := FormatEach(rows);
    }
  }

  /** Every past national value comes from a row of gsp 0 of the model,
      targeted no earlier than the start and no later than the end, created
      inside the creation bounds and at least `horizon` minutes ahead. */
  lemma HistoryValuesSelected(records: seq<NationalRecord>, read: NationalHistoryRead, i: int)
    requires 0 <= i < |HistoryValues(records, read)|
    ensures exists j ::
      && 0 <= j < |records|
      && HistoryValues(records, read)[i] == HistoryValue(records[j])
      && records[j].gspId == 0 && records[j].modelName == read.modelName && !records[j].forecastHistoric
      && read.start <= records[j].targetTime
      && (read.end.Some? ==> records[j].targetTime <= read.end.value)
      && read.createdLower <= records[j].createdUtc <= read.createdUpper
      && (read.horizon.Some? ==> records[j].horizonMinutes >= read.horizon.value)
  {
    var kept := Filter(records, HistorySelected(read));
    assert kept[i] in records && HistorySelected(read)(kept[i]);
    var j :| 0 <= j < |records| && records[j] == kept[i];
  }

  /** Every latest national value is a value of gsp 0 in the window, with
      the default plevels 0.8 and 1.2 times its power. */
  lemma LatestNationalSelected(latest: seq<LatestRecord>, start: Option<Instant>, end: Option<Instant>, i: int)
    requires 0 <= i < |LatestNationalValues(latest, start, end)|
    ensures var v := LatestNationalValues(latest, start, end)[i];
      && InWindow(v.value.targetTime, start, end)
      && v.plevels == Some(map["plevel_10" := Some(v.value.powerMw * 0.8), "plevel_90" := Some(v.value.powerMw * 1.2)])
      && exists j :: 0 <= j < |latest| && latest[j].gspId == 0 && latest[j].modelName == BLEND &&
           latest[j].targetTime == v.value.targetTime && latest[j].powerMw == v.value.powerMw
  {
    var rows := Query(latest, start, end, Some([0]), false);
    QueryRow(latest, start, end, Some([0]), false, i);
    var j :| 0 <= j < |latest| && latest[j].modelName == BLEND && Columns(latest[j], false) == rows[i];
    assert GspSelected(rows[i].gspId, Some([0]));
  }

  /** With a non-negative horizon and no creation limit, past values are
      those created at least `horizon` minutes before now, and a start within
      the last year is kept. */
  lemma NationalHorizonRead(h: int, start: Instant, end: Option<Instant>, modelName: string,
                            now: Instant, fallback: Instant)
    requires h >= 0 && start <= now && now - start <= 365 * DAY
    ensures var plan := PlanNational(Some(h), Some(start), end, None, modelName, now, fallback);
      && plan.Some?
      && plan.value.start == start
      && plan.value.createdUpper == now - h * MINUTE
      && plan.value.createdLower == start - 2 * DAY - h * MINUTE
      && (plan.value.table == ForecastValueSql <==> start < now - 7 * DAY)
  {
    Utils.GetStartDatetimeRecent(start, now, 365, fallback);
  }

  // ---------------------------------------------------------------------
  // get_forecasts_and_forecast_values

  /** `adjust_mw` is read as a fourth column exactly when the national gsp
      is asked for. */
  function WithAdjust(gspIds: Option<seq<int>>): (b: bool)
    ensures b <==> gspIds.Some? && 0 in gspIds.value
  {
    gspIds.Some? && 0 in gspIds.value
  }

  /** The national gsp passes the gsp filter exactly when the adjust column
      is read. */
  lemma NationalNeedsAdjust(gspIds: Option<seq<int>>)
    ensures GspSelected(0, gspIds) <==> WithAdjust(gspIds)
  {
  }

  /** `get_forecasts_and_forecast_values`: the latest values of the selected
      gsps attached to the historic blend forecasts of those gsps, the
      national ones adjusted with the value in column 3. */
  method GetForecastsAndForecastValues(start: Option<Instant>, end: Option<Instant>, gspIds: Option<seq<int>>,
                                       latest: seq<LatestRecord>, forecasts: seq<ForecastRecord>,
                                       adjust: ForecastValue -> ForecastValue)
    returns (r: Result<seq<Forecast>>)
    ensures r == Assemble(Query(latest, start, end, gspIds, WithAdjust(gspIds)), ForecastPairs(forecasts, gspIds), 3, adjust)
  {
    var withAdjust := gspIds.Some? && 0 in gspIds.value;
    var rows := Query(latest, start, end, gspIds, withAdjust);
    var pairs := ForecastPairs(forecasts, gspIds);
    r := AssembleLoop(rows, pairs, 3, adjust);
  }

  /** The read never fails: a national row is read only together with its
      adjust column. */
  lemma ForecastsAndValuesOk(start: Option<Instant>, end: Option<Instant>, gspIds: Option<seq<int>>,
                             latest: seq<LatestRecord>, forecasts: seq<ForecastRecord>,
                             adjust: ForecastValue -> ForecastValue)
    ensures Assemble(Query(latest, start, end, gspIds, WithAdjust(gspIds)), ForecastPairs(forecasts, gspIds), 3, adjust).Ok?
  {
    var rows := Query(latest, start, end, gspIds, WithAdjust(gspIds));
    forall i | 0 <= i < |rows|
      ensures !IndexFails(rows[i], 3)
    {
      QueryRow(latest, start, end, gspIds, WithAdjust(gspIds), i);
    }
    AssembleOk(rows, ForecastPairs(forecasts, gspIds), 3, adjust);
  }
}
