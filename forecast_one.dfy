/**
 * `nowcasting_api/database/forecast_one.py`: the forecast values of one gsp
 * (the national one for `get_national_forecast_values`), read from the
 * table the horizon, the creation limit and the start choose.
 */
module ForecastOne {
  import opened Common
  import opened Models

  /** A row of a value table joined with the gsp of its location and the
      name of its model. */
  datatype OneRecord = OneRecord(targetTime: Instant, powerMw: real, gspId: int, modelName: string)

  /** The table choice: the latest values when neither a horizon nor a
      creation limit is given, whatever the dates; otherwise the seven-day
      rule, on the creation limit first and then the start. */
  function ChooseTable(horizon: Option<int>, limit: Option<Instant>, start: Option<Instant>, now: Instant)
    : (t: Table)
    ensures t == ForecastValueLatestSql <==> horizon.None? && limit.None?
    ensures t != ForecastValueLatestSql ==> t == SevenDayTable(limit, start, now)
  {
    var nowMinusSevenDays := now - 7 * DAY;
    if horizon.None? && limit.None? then ForecastValueLatestSql
    else if limit.Some? && limit.value < nowMinusSevenDays then ForecastValueSql
    else if start.Some? && start.value < nowMinusSevenDays then ForecastValueSql
    else ForecastValueSevenDaysSql
  }

  /** The filters of the read: the model, the window and the gsp. */
  function OneSelected(start: Option<Instant>, end: Option<Instant>, gspId: int, modelName: string): OneRecord -> bool
  {
    (r: OneRecord) => r.modelName == modelName && InWindow(r.targetTime, start, end) && r.gspId == gspId
  }

  function TimeAndPower(r: OneRecord): (Instant, real)
  {
    (r.targetTime, r.powerMw)
  }

  /** `get_raw_forecast_values_for_one_gsp_id` with the window applied to
      the chosen table, as the docstring and the other reads intend: the
      (target time, power) of the selected rows of the chosen table; `db` is
      the read of a table. The two value reads below use it. */
  function RawForecastValues(start: Option<Instant>, end: Option<Instant>, limit: Option<Instant>, gspId: int,
                             horizon: Option<int>, modelName: string, now: Instant,
                             db: Table -> seq<OneRecord>): (raw: seq<(Instant, real)>)
    ensures |raw| <= |db(ChooseTable(horizon, limit, start, now))|
    ensures forall i :: 0 <= i < |raw| ==> InWindow(raw[i].0, start, end)
  {
    Map(Filter(db(ChooseTable(horizon, limit, start, now)), OneSelected(start, end, gspId, modelName)), TimeAndPower)
  }

  /** Each raw value is the time and power of a row of the gsp and the model
      in the inclusive window, and each such row of the table is read. */
  lemma RawValuesSelected(start: Option<Instant>, end: Option<Instant>, limit: Option<Instant>, gspId: int,
                          horizon: Option<int>, modelName: string, now: Instant,
                          db: Table -> seq<OneRecord>, i: int)
    requires 0 <= i < |RawForecastValues(start, end, limit, gspId, horizon, modelName, now, db)|
    ensures var raw := RawForecastValues(start, end, limit, gspId, horizon, modelName, now, db);
      var rows := db(ChooseTable(horizon, limit, start, now));
      && InWindow(raw[i].0, start, end)
      && exists j :: 0 <= j < |rows| && rows[j].gspId == gspId && rows[j].modelName == modelName
           && TimeAndPower(rows[j]) == raw[i]
  {
    var rows := db(ChooseTable(horizon, limit, start, now));
    var kept := Filter(rows, OneSelected(start, end, gspId, modelName));
    assert kept[i] in rows && OneSelected(start, end, gspId, modelName)(kept[i]);
  }

  lemma RawValuesComplete(start: Option<Instant>, end: Option<Instant>, limit: Option<Instant>, gspId: int,
                          horizon: Option<int>, modelName: string, now: Instant,
                          db: Table -> seq<OneRecord>, j: int)
    requires var rows := db(ChooseTable(horizon, limit, start, now));
      0 <= j < |rows| && OneSelected(start, end, gspId, modelName)(rows[j])
    ensures TimeAndPower(db(ChooseTable(horizon, limit, start, now))[j])
      in RawForecastValues(start, end, limit, gspId, horizon, modelName, now, db)
  {
    var rows := db(ChooseTable(horizon, limit, start, now));
    var kept := Filter(rows, OneSelected(start, end, gspId, modelName));
    assert rows[j] in kept;
    var i :| 0 <= i < |kept| && kept[i] == rows[j];
    assert RawForecastValues(start, end, limit, gspId, horizon, modelName, now, db)[i] == TimeAndPower(rows[j]);
  }

  // ---------------------------------------------------------------------
  // the window as written

  /** The joins of the read on the chosen table: the model and the gsp. */
  function OneJoined(gspId: int, modelName: string): OneRecord -> bool
  {
    (r: OneRecord) => r.modelName == modelName && r.gspId == gspId
  }

  /** Some row of the latest table lies in the window. */
  predicate LatestInWindow(latest: seq<OneRecord>, start: Option<Instant>, end: Option<Instant>)
  {
    exists k :: 0 <= k < |latest| && InWindow(latest[k].targetTime, start, end)
  }

  /** `get_raw_forecast_values_for_one_gsp_id` as written. The window filter
      is called without `model=`, so it bounds the target time of the latest
      table, and the ORDER BY names that table too. When another table is
      chosen the latest table is not joined to it: a row of the chosen table
      of the gsp and the model is read when some row of the latest table
      lies in the window, whatever its own target time. (The repetitions of
      that product are left out with `DISTINCT ON`.) */
  function RawForecastValuesAsWritten(start: Option<Instant>, end: Option<Instant>, limit: Option<Instant>,
                                      gspId: int, horizon: Option<int>, modelName: string, now: Instant,
                                      db: Table -> seq<OneRecord>): (raw: seq<(Instant, real)>)
    ensures (ChooseTable(horizon, limit, start, now) != ForecastValueLatestSql
      && !LatestInWindow(db(ForecastValueLatestSql), start, end)) ==> raw == []
    ensures var rows := db(ChooseTable(horizon, limit, start, now));
      (ChooseTable(horizon, limit, start, now) != ForecastValueLatestSql
      && LatestInWindow(db(ForecastValueLatestSql), start, end)) ==>
        forall j :: 0 <= j < |rows| && OneJoined(gspId, modelName)(rows[j]) ==> TimeAndPower(rows[j]) in raw
  {
    var table := ChooseTable(horizon, limit, start, now);
    if table == ForecastValueLatestSql then RawForecastValues(start, end, limit, gspId, horizon, modelName, now, db)
    else if LatestInWindow(db(ForecastValueLatestSql), start, end)
    then Map(Filter(db(table), OneJoined(gspId, modelName)), TimeAndPower)
    else []
  }

  /** Without a horizon and a creation limit the latest table is read and
      the written read is the intended one. */
  lemma AsWrittenLatestAgrees(start: Option<Instant>, end: Option<Instant>, gspId: int, modelName: string,
                              now: Instant, db: Table -> seq<OneRecord>)
    ensures RawForecastValuesAsWritten(start, end, None, gspId, None, modelName, now, db)
      == RawForecastValues(start, end, None, gspId, None, modelName, now, db)
  {
  }

  /** With a horizon, a start and a seven-day row of the gsp and model
      before that start, the written read returns the row, out of the window,
      as soon as the latest table has a row in the window; the intended read
      returns nothing. */
  lemma OutOfWindowRead(s: Instant, gspId: int, modelName: string)
    ensures var db := (t: Table) =>
        if t == ForecastValueLatestSql then [OneRecord(s, 0.0, gspId, modelName)]
        else [OneRecord(s - 1, 1.0, gspId, modelName)];
      var raw := RawForecastValuesAsWritten(Some(s), None, None, gspId, Some(60), modelName, s, db);
      && raw == [(s - 1, 1.0)]
      && !InWindow(raw[0].0, Some(s), None)
      && RawForecastValues(Some(s), None, None, gspId, Some(60), modelName, s, db) == []
  {
    var db := (t: Table) =>
      if t == ForecastValueLatestSql then [OneRecord(s, 0.0, gspId, modelName)]
      else [OneRecord(s - 1, 1.0, gspId, modelName)];
    assert ChooseTable(Some(60), None, Some(s), s) == ForecastValueSevenDaysSql;
    var row := OneRecord(s - 1, 1.0, gspId, modelName);
    assert db(ForecastValueSevenDaysSql) == [row];
    assert InWindow(db(ForecastValueLatestSql)[0].targetTime, Some(s), None);
    assert [row][..0] == [];
    assert Filter([row], OneJoined(gspId, modelName)) == Filter([], OneJoined(gspId, modelName)) + [row];
    assert !OneSelected(Some(s), None, gspId, modelName)(row);
    assert Filter([row], OneSelected(Some(s), None, gspId, modelName)) == Filter([], OneSelected(Some(s), None, gspId, modelName));
  }

  // ---------------------------------------------------------------------
  // the conversions

  /** The loop of `get_forecast_values_for_one_gsp_id`: one value per raw
      row, in order, with its target time and power. */
  method ToForecastValues(raw: seq<(Instant, real)>) returns (fvs: seq<ForecastValue>)
    ensures |fvs| == |raw|
    ensures forall i :: 0 <= i < |raw| ==> fvs[i].targetTime == raw[i].0 && fvs[i].powerMw == raw[i].1
    ensures forall i :: 0 <= i < |raw| ==> fvs[i] == PlainValue(raw[i].0, raw[i].1)
  {
    fvs := [];
    for i := 0 to |raw|
      invariant |fvs| == i
      invariant forall l :: 0 <= l < i ==> fvs[l] == PlainValue(raw[l].0, raw[l].1)
    {
      var fv := PlainValue(raw[i].0, raw[i].1);
      fvs := fvs + [fv];
    }
  }

  /** The loop of `get_national_forecast_values`: one national value per raw
      row, in order, with its target time and power; the plevels keep the
      default of the national value model, written None here. */
  method ToNationalForecastValues(raw: seq<(Instant, real)>) returns (fvs: seq<NationalForecastValue>)
    ensures |fvs| == |raw|
    ensures forall i :: 0 <= i < |raw| ==> fvs[i].value.targetTime == raw[i].0 && fvs[i].value.powerMw == raw[i].1
    ensures forall i :: 0 <= i < |raw| ==> fvs[i] == NationalForecastValue(PlainValue(raw[i].0, raw[i].1), None)
  {
    fvs := [];
    for i := 0 to |raw|
      invariant |fvs| == i
      invariant forall l :: 0 <= l < i ==> fvs[l] == NationalForecastValue(PlainValue(raw[l].0, raw[l].1), None)
    {
      var fv := NationalForecastValue(PlainValue(raw[i].0, raw[i].1), None);
      fvs := fvs + [fv];
    }
  }

  /** `get_forecast_values_for_one_gsp_id`. */
  method GetForecastValuesForOneGspId(start: Option<Instant>, end: Option<Instant>, limit: Option<Instant>,
                                      gspId: int, horizon: Option<int>, modelName: string, now: Instant,
                                      db: Table -> seq<OneRecord>)
    returns (fvs: seq<ForecastValue>)
    ensures var raw := RawForecastValues(start, end, limit, gspId, horizon, modelName, now, db);
      |fvs| == |raw| && forall i :: 0 <= i < |raw| ==> fvs[i] == PlainValue(raw[i].0, raw[i].1)
  {
    var raw := RawForecastValues(start, end, limit, gspId, horizon, modelName, now, db);
    fvs := ToForecastValues(raw);
  }

  /** `get_national_forecast_values`: the values of gsp 0. */
  method GetNationalForecastValues(start: Option<Instant>, end: Option<Instant>, limit: Option<Instant>,
                                   horizon: Option<int>, modelName: string, now: Instant,
                                   db: Table -> seq<OneRecord>)
    returns (fvs: seq<NationalForecastValue>)
    ensures var raw := RawForecastValues(start, end, limit, 0, horizon, modelName, now, db);
      |fvs| == |raw| && forall i :: 0 <= i < |raw| ==> fvs[i] == NationalForecastValue(PlainValue(raw[i].0, raw[i].1), None)
  {
    var raw := RawForecastValues(start, end, limit, 0, horizon, modelName, now, db);
    fvs := ToNationalForecastValues(raw);
  }
}
