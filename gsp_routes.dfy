/**
 * The gsp routes of `nowcasting_api/gsp.py`: the parsing of the `gsp_ids`
 * query parameter, the default start of the all-gsp forecast, the guard
 * that answers HTTP 204 for gsp ids above the number of gsps, the
 * adjustment of the national forecast, and the old routes that delegate to
 * the new ones.
 *
 * The datetime parameters arrive already parsed; the clock is `now`, the
 * reads are functions, and the datamodel's `normalize` and `adjust`
 * methods are parameters.
 */
module GspRoutes {
  import opened Common
  import opened Models
  import opened Grouping
  import Decimal
  import TimeFloor
  import Utils
  import PydanticModels
  import PvLive
  import Database

  /** The largest gsp id served. */
  const GSP_TOTAL: int := 317

  /** An HTTP 204 without a body, or a body. */
  datatype Reply<T> = NoContent | Body(value: T)

  // ---------------------------------------------------------------------
  // gsp_ids parsing

  /** `[int(p) for p in pieces]`: every piece parsed, ValueError when one
      of them is not an integer. */
  function ParseAll(pieces: seq<string>): (r: Result<seq<int>>)
    ensures r.Err? <==> exists i :: 0 <= i < |pieces| && Decimal.ParseInt(pieces[i]).Err?
    ensures r.Err? ==> r.error == ValueError
    ensures r.Ok? ==> |r.value| == |pieces|
    ensures r.Ok? ==> forall i :: 0 <= i < |pieces| ==> Decimal.ParseInt(pieces[i]) == Ok(r.value[i])
  {
    if |pieces| == 0 then Ok([])
    else
      var init := ParseAll(pieces[..|pieces| - 1]);
      var last := Decimal.ParseInt(pieces[|pieces| - 1]);
      if init.Err? then init
      else if last.Err? then Err(ValueError)
      else Ok(init.value + [last.value])
  }

  /** The `gsp_ids` parameter: absent, or the integers between its commas.
      The comparison of the parsed list with "" that follows never holds. */
  function ParseGspIds(text: Option<string>): (r: Result<Option<seq<int>>>)
    ensures text.None? ==> r == Ok(None)
    ensures r.Ok? && text.Some? ==> r.value.Some? && |r.value.value| == |Decimal.Split(text.value)|
  {
    if text.None? then Ok(None)
    else
      var ids := ParseAll(Decimal.Split(text.value));
      if ids.Err? then Err(ids.error) else Ok(Some(ids.value))
  }

  /** A non-empty list of ids written with commas parses back to itself. */
  lemma ParseGspIdsRoundTrip(ids: seq<int>)
    requires |ids| > 0
    ensures ParseGspIds(Some(Decimal.Join(Map(ids, Decimal.Render)))) == Ok(Some(ids))
  {
    var pieces := Map(ids, Decimal.Render);
    forall i | 0 <= i < |pieces|
      ensures Decimal.NoComma(pieces[i]) && Decimal.ParseInt(pieces[i]) == Ok(ids[i])
    {
      Decimal.RenderNoComma(ids[i]);
      Decimal.RenderRoundTrip(ids[i]);
    }
    Decimal.SplitJoin(pieces);
    ParseAllOk(pieces, ids);
  }

  /** Pieces that each parse to the matching id parse to the ids. */
  lemma ParseAllOk(pieces: seq<string>, ids: seq<int>)
    requires |pieces| == |ids|
    requires forall i :: 0 <= i < |pieces| ==> Decimal.ParseInt(pieces[i]) == Ok(ids[i])
    ensures ParseAll(pieces) == Ok(ids)
  {
    assert forall i :: 0 <= i < |pieces| ==> Decimal.ParseInt(pieces[i]).Ok?;
    var r := ParseAll(pieces);
    assert r.Ok?;
    forall i | 0 <= i < |ids|
      ensures r.value[i] == ids[i]
    {
      assert Decimal.ParseInt(pieces[i]) == Ok(r.value[i]);
    }
    assert r.value == ids;
  }

  /** An empty parameter is not an empty list: it fails to parse. */
  lemma EmptyGspIdsFail()
    ensures ParseGspIds(Some("")) == Err(ValueError)
  {
    assert Decimal.Split("") == [""];
    assert Decimal.ParseInt("").Err?;
  }

  // ---------------------------------------------------------------------
  // get_all_available_forecasts

  /** Without a start, a request for every gsp or for several of them
      starts at the current half hour; a request for one gsp keeps no
      start. */
  function DefaultStart(start: Option<Instant>, gspIds: Option<seq<int>>, now: Instant): (r: Option<Instant>)
    ensures start.Some? ==> r == start
    ensures start.None? ==> (r.Some? <==> gspIds.None? || |gspIds.value| > 1)
    ensures start.None? && r.Some? ==> now - 30 * MINUTE < r.value <= now && r.value % (30 * MINUTE) == 0
  {
    TimeFloor.Floor30MinutesBounds(now);
    if start.None? && (gspIds.None? || |gspIds.value| > 1) then Some(TimeFloor.Floor30Minutes(now)) else start
  }

  /** The position of the first national forecast, if any. */
  function FirstNational(fs: seq<Forecast>): (r: Option<nat>)
    ensures r.Some? ==> r.value < |fs| && fs[r.value].location.gspId == 0
    ensures r.Some? ==> forall i :: 0 <= i < r.value ==> fs[i].location.gspId != 0
    ensures r.None? ==> forall i :: 0 <= i < |fs| ==> fs[i].location.gspId != 0
  {
    if |fs| == 0 then None
    else if fs[0].location.gspId == 0 then Some(0)
    else
      var rest := FirstNational(fs[1..]);
      if rest.None? then None else Some(rest.value + 1)
  }

  /** The forecasts with the first national one adjusted: every other
      forecast, national or not, is kept. */
  function AdjustedNational(fs: seq<Forecast>, adjust: Forecast -> Forecast): (r: seq<Forecast>)
    ensures |r| == |fs|
    ensures forall i :: 0 <= i < |fs| && fs[i].location.gspId != 0 ==> r[i] == fs[i]
    ensures forall i :: 0 <= i < |fs| && FirstNational(fs) != Some(i) ==> r[i] == fs[i]
    ensures FirstNational(fs).Some? ==> r[FirstNational(fs).value] == adjust(fs[FirstNational(fs).value])
  {
    var k := FirstNational(fs);
    if k.None? then fs else fs[k.value := adjust(fs[k.value])]
  }

  /** The replacement of the first national forecast in the list. */
  method AdjustNationalInPlace(a: array<Forecast>, adjust: Forecast -> Forecast)
    modifies a
    ensures a[..] == AdjustedNational(old(a[..]), adjust)
  {
    var idx := FirstNational(a[..]);
    if idx.Some? {
      a[idx.value] := adjust(a[idx.value]);
    }
  }

  /** The answer of `get_all_available_forecasts`: ValueError when the ids
      do not parse, the read's HTTP 400 for a historic request with a
      creation limit, otherwise the compact groups or the normalised
      forecasts, one per forecast read, with the national one adjusted. */
  function AllAvailableForecasts(historic: bool, start: Option<Instant>, end: Option<Instant>, compact: bool,
      gspIdsText: Option<string>, limit: Option<Instant>, now: Instant, fallback: Instant, adjustLimit: real,
      db: Database.ForecastsRead -> seq<Forecast>, normalize: seq<Forecast> -> seq<Forecast>,
      adjust: Forecast -> Forecast): (r: Result<Database.ForecastsResponse>)
    ensures r.Err? <==> ParseGspIds(gspIdsText).Err? || (historic && limit.Some?)
    ensures ParseGspIds(gspIdsText).Err? ==> r == Err(ValueError)
    ensures ParseGspIds(gspIdsText).Ok? && r.Err? ==> r.error.Http? && r.error.status == 400
    ensures r.Ok? ==> (r.value.CompactForecasts? <==> compact)
  {
    var ids := ParseGspIds(gspIdsText);
    if ids.Err? then Err(ids.error)
    else
      var answer := Database.ForecastsAnswer(historic, DefaultStart(start, ids.value, now), end, compact, ids.value,
        limit, now, fallback, adjustLimit, db);
      if answer.Ok? && !compact then Ok(Database.ManyForecasts(AdjustedNational(normalize(answer.value.forecasts), adjust)))
      else answer
  }

  /** `get_all_available_forecasts`: parse the ids, default the start, read
      the forecasts, and, unless compact, normalise them and adjust the
      national one. */
  method GetAllAvailableForecasts(historic: bool, start: Option<Instant>, end: Option<Instant>, compact: bool,
      gspIdsText: Option<string>, limit: Option<Instant>, now: Instant, fallback: Instant, adjustLimit: real,
      db: Database.ForecastsRead -> seq<Forecast>, normalize: seq<Forecast> -> seq<Forecast>,
      adjust: Forecast -> Forecast)
    returns (r: Result<Database.ForecastsResponse>)
    ensures r == AllAvailableForecasts(historic, start, end, compact, gspIdsText, limit, now, fallback, adjustLimit,
      db, normalize, adjust)
  {
    var parsed := ParseGspIds(gspIdsText);
    if parsed.Err? {
      return Err(parsed.error);
    }
    var gspIds := parsed.value;
    var startUtc := start;
    if startUtc.None? && (gspIds.None? || |gspIds.value| > 1) {
      startUtc := Some(TimeFloor.Floor30Minutes(now));
    }
    assert startUtc == DefaultStart(start, gspIds, now);
    var forecasts := Database.GetForecastsFromDatabase(historic, startUtc, end, compact, gspIds, limit, now, fallback,
      adjustLimit, db);
    ghost var expected := AllAvailableForecasts(historic, start, end, compact, gspIdsText, limit, now, fallback,
      adjustLimit, db, normalize, adjust);
    assert expected == if forecasts.Ok? && !compact
      then Ok(Database.ManyForecasts(AdjustedNational(normalize(forecasts.value.forecasts), adjust)))
      else forecasts;
    if forecasts.Err? || compact {
      return forecasts;
    }
    var normalized := normalize(forecasts.value.forecasts);
    var a := new Forecast[|normalized|](i requires 0 <= i < |normalized| => normalized[i]);
    assert a[..] == normalized;
    AdjustNationalInPlace(a, adjust);
    r := Ok(Database.ManyForecasts(a[..]));
  }

  /** A request for several gsps (or all) without a start reads no target
      time before the current half hour, historic or not. */
  lemma AllAvailableForecastsStartNow(historic: bool, end: Option<Instant>, gspIds: Option<seq<int>>,
      now: Instant, fallback: Instant)
    requires gspIds.None? || |gspIds.value| > 1
    ensures var planned := Database.PlanForecasts(historic, DefaultStart(None, gspIds, now), end, gspIds, None, now, fallback);
      planned.Ok? && planned.value.read.startTarget == Some(TimeFloor.Floor30Minutes(now))
  {
    var s := TimeFloor.Floor30Minutes(now);
    assert DefaultStart(None, gspIds, now) == Some(s);
    if historic {
      assert Utils.GetStartDatetime(Some(s), now, 3, fallback) == s by {
        Utils.GetStartDatetimeRecent(s, now, 3, fallback);
      }
    }
  }

  // ---------------------------------------------------------------------
  // get_forecasts_for_a_specific_gsp

  /** The answer of `get_forecasts_for_a_specific_gsp`: 204 above the last
      gsp; otherwise the gsp's latest values, adjusted for the national
      gsp alone. */
  function SpecificGspForecast(gspId: int, horizon: Option<int>, start: Option<Instant>, end: Option<Instant>,
      limit: Option<Instant>, now: Instant, fallback: Instant, db: Database.ValuesRead -> seq<ForecastValue>,
      adjust: ForecastValue -> ForecastValue): (r: Reply<seq<ForecastValue>>)
    ensures r.NoContent? <==> gspId > GSP_TOTAL
    ensures r.Body? ==> var vs := Database.LatestForecastValuesForGsp(gspId, horizon, start, end, limit, now, fallback, db);
      && |r.value| == |vs|
      && (gspId != 0 ==> r.value == vs)
      && (gspId == 0 ==> forall i :: 0 <= i < |vs| ==> r.value[i] == adjust(vs[i]))
  {
    if gspId > GSP_TOTAL then NoContent
    else
      var vs := Database.LatestForecastValuesForGsp(gspId, horizon, start, end, limit, now, fallback, db);
      Body(if gspId == 0 then Map(vs, adjust) else vs)
  }

  method GetForecastsForSpecificGsp(gspId: int, horizon: Option<int>, start: Option<Instant>, end: Option<Instant>,
      limit: Option<Instant>, now: Instant, fallback: Instant, db: Database.ValuesRead -> seq<ForecastValue>,
      adjust: ForecastValue -> ForecastValue)
    returns (r: Reply<seq<ForecastValue>>)
    ensures r == SpecificGspForecast(gspId, horizon, start, end, limit, now, fallback, db, adjust)
  {
    if gspId > GSP_TOTAL {
      return NoContent;
    }
    var values := Database.LatestForecastValuesForGsp(gspId, horizon, start, end, limit, now, fallback, db);
    if gspId == 0 {
      values := Map(values, adjust);
    }
    r := Body(values);
  }

  /** The old route: the new one for the same gsp and horizon, without
      dates or a creation limit. */
  method GetForecastsForSpecificGspOldRoute(gspId: int, horizon: Option<int>, now: Instant, fallback: Instant,
      db: Database.ValuesRead -> seq<ForecastValue>, adjust: ForecastValue -> ForecastValue)
    returns (r: Reply<seq<ForecastValue>>)
    ensures r == SpecificGspForecast(gspId, horizon, None, None, None, now, fallback, db, adjust)
  {
    r := GetForecastsForSpecificGsp(gspId, horizon, None, None, None, now, fallback, db, adjust);
  }

  // ---------------------------------------------------------------------
  // get_truths_for_all_gsps

  /** `get_truths_for_all_gsps`: parse the ids and read the yields of all
      gsps, passing the regime on as given. */
  method GetTruthsForAllGsps(regime: Option<string>, start: Option<Instant>, end: Option<Instant>, compact: bool,
      gspIdsText: Option<string>, nGsp: nat, now: Instant, fallback: Instant,
      db: Database.YieldRead -> seq<LocationWithYields>)
    returns (r: Result<Database.TruthResponse>)
    ensures var ids := ParseGspIds(gspIdsText);
      && (ids.Err? ==> r == Err(ValueError))
      && (ids.Ok? ==> r.Ok? && var read := Database.YieldRead(Database.TruthGspIds(ids.value, nGsp),
            Utils.GetStartDatetime(start, now, 3, fallback), end, regime);
          && (compact ==> r.value == Database.CompactYields(Grouped(PydanticModels.LocationCells(db(read)))))
          && (!compact ==> r.value == Database.LocationsWithYields(db(read))))
  {
    var parsed := ParseGspIds(gspIdsText);
    if parsed.Err? {
      return Err(parsed.error);
    }
    var truths := Database.GetTruthValuesForAllGsps(regime, start, end, compact, parsed.value, nGsp, now, fallback, db);
    r := Ok(truths);
  }

  // ---------------------------------------------------------------------
  // get_truths_for_a_specific_gsp

  /** The answer of `get_truths_for_a_specific_gsp`: 204 above the last
      gsp, otherwise the gsp's yields of the requested regime within the
      bounds. */
  function SpecificGspTruths(gspId: int, regime: Option<string>, start: Option<Instant>, end: Option<Instant>,
      stored: seq<PvLive.YieldRecord>): (r: Reply<seq<GspYield>>)
    ensures r.NoContent? <==> gspId > GSP_TOTAL
    ensures r.Body? ==> forall i :: 0 <= i < |r.value| ==>
      r.value[i].regime == PvLive.RegimeOrDefault(regime) && InWindow(r.value[i].datetimeUtc, start, end)
  {
    if gspId > GSP_TOTAL then NoContent
    else
      var truths := Database.TruthValuesForGspCorrected(gspId, regime, start, end, stored);
      assert forall i :: 0 <= i < |truths| ==>
        truths[i].regime == PvLive.RegimeOrDefault(regime) && InWindow(truths[i].datetimeUtc, start, end) by {
        forall i | 0 <= i < |truths|
          ensures truths[i].regime == PvLive.RegimeOrDefault(regime) && InWindow(truths[i].datetimeUtc, start, end)
        {
          Database.TruthValuesCorrectedSelected(gspId, regime, start, end, stored, i);
        }
      }
      Body(truths)
  }

  method GetTruthsForSpecificGsp(gspId: int, regime: Option<string>, start: Option<Instant>, end: Option<Instant>,
      stored: seq<PvLive.YieldRecord>)
    returns (r: Reply<seq<GspYield>>)
    ensures r == SpecificGspTruths(gspId, regime, start, end, stored)
  {
    if gspId > GSP_TOTAL {
      return NoContent;
    }
    r := Body(Database.TruthValuesForGspCorrected(gspId, regime, start, end, stored));
  }

  /** The old route: the new one for the same gsp and regime, without
      dates. */
  method GetTruthsForSpecificGspOldRoute(gspId: int, regime: Option<string>, stored: seq<PvLive.YieldRecord>)
    returns (r: Reply<seq<GspYield>>)
    ensures r == SpecificGspTruths(gspId, regime, None, None, stored)
  {
    r := GetTruthsForSpecificGsp(gspId, regime, None, None, stored);
  }
}
