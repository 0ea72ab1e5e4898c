/**
 * The two "compact" converters of `src/pydantic_models.py`, which turn N
 * locations (or forecasts) with T values each into T entries, one per
 * datetime, each mapping `str(gsp_id)` to a value.
 *
 * Both fill a dict of dicts in two nested loops; the model writes those
 * loops out and proves them equal to the transposition `Grouped` of the
 * rows the loops visit, whose properties are proved once in `Grouping`.
 */
module PydanticModels {
  import opened Common
  import opened Models
  import opened Grouping
  import Decimal

  /** One entry of the output: a datetime and the values by `str(gsp_id)`. */
  type ByDatetime = (Instant, map<string, real>)

  type GspCell = Cell<Instant, string, real>

  // ---------------------------------------------------------------------
  // convert_location_sql_to_many_datetime_many_generation

  /** The rows the inner loop visits for one location. */
  function YieldCells(gsp: string, ys: seq<GspYield>): seq<GspCell>
  {
    if |ys| == 0 then []
    else YieldCells(gsp, ys[..|ys| - 1]) + [Cell(ys[|ys| - 1].datetimeUtc, gsp, ys[|ys| - 1].solarGenerationKw)]
  }

  lemma YieldCellsSnoc(before: seq<GspCell>, gsp: string, ys: seq<GspYield>, j: int)
    requires 0 <= j < |ys|
    ensures before + YieldCells(gsp, ys[..j + 1])
      == (before + YieldCells(gsp, ys[..j])) + [Cell(ys[j].datetimeUtc, gsp, ys[j].solarGenerationKw)]
  {
    assert ys[..j + 1][..j] == ys[..j];
  }

  /** The rows both loops visit: every yield of every location, in order. */
  function LocationCells(locations: seq<LocationWithYields>): seq<GspCell>
  {
    if |locations| == 0 then []
    else
      var l := locations[|locations| - 1];
      LocationCells(locations[..|locations| - 1]) + YieldCells(Decimal.Render(l.location.gspId), l.gspYields)
  }

  lemma LocationCellsSnoc(locations: seq<LocationWithYields>, i: int)
    requires 0 <= i < |locations|
    ensures LocationCells(locations[..i + 1])
      == LocationCells(locations[..i]) + YieldCells(Decimal.Render(locations[i].location.gspId), locations[i].gspYields[..|locations[i].gspYields|])
  {
    assert locations[..i + 1][..i] == locations[..i];
    assert locations[i].gspYields[..|locations[i].gspYields|] == locations[i].gspYields;
  }

  /** The location has a yield at `t`. */
  predicate HasYieldAt(l: LocationWithYields, t: Instant)
  {
    exists j :: 0 <= j < |l.gspYields| && l.gspYields[j].datetimeUtc == t
  }

  lemma {:induction false} YieldCellsOccur(gsp: string, ys: seq<GspYield>, t: Instant, key: string)
    ensures Occurs(YieldCells(gsp, ys), t, key) <==>
      key == gsp && exists j :: 0 <= j < |ys| && ys[j].datetimeUtc == t
  {
    if |ys| > 0 {
      var n := |ys| - 1;
      var last := Cell(ys[n].datetimeUtc, gsp, ys[n].solarGenerationKw);
      YieldCellsOccur(gsp, ys[..n], t, key);
      OccursAppend(YieldCells(gsp, ys[..n]), [last], t, key);
      assert Occurs([last], t, key) <==> ys[n].datetimeUtc == t && key == gsp by {
        assert [last][0] == last;
      }
      if exists j :: 0 <= j < |ys| && ys[j].datetimeUtc == t {
        var j :| 0 <= j < |ys| && ys[j].datetimeUtc == t;
        if j < n {
          assert ys[..n][j] == ys[j];
        }
      }
      if exists j :: 0 <= j < n && ys[..n][j].datetimeUtc == t {
        var j :| 0 <= j < n && ys[..n][j].datetimeUtc == t;
        assert ys[j] == ys[..n][j];
      }
    }
  }

  /** The location has `str(gsp_id)` equal to `key` and a yield at `t`. */
  function LocationHas(t: Instant, key: string): LocationWithYields -> bool
  {
    (l: LocationWithYields) => Decimal.Render(l.location.gspId) == key && HasYieldAt(l, t)
  }

  lemma {:induction false} LocationCellsOccurRec(locations: seq<LocationWithYields>, t: Instant, key: string)
    ensures Occurs(LocationCells(locations), t, key) <==> Any(locations, LocationHas(t, key))
  {
    if |locations| > 0 {
      var n := |locations| - 1;
      var pre := locations[..n];
      var l := locations[n];
      var gsp := Decimal.Render(l.location.gspId);
      LocationCellsOccurRec(pre, t, key);
      OccursAppend(LocationCells(pre), YieldCells(gsp, l.gspYields), t, key);
      YieldCellsOccur(gsp, l.gspYields, t, key);
    }
  }

  /** A datetime and a key occur together exactly when some location with
      that `str(gsp_id)` has a yield at that datetime. */
  lemma LocationCellsOccur(locations: seq<LocationWithYields>, t: Instant, key: string)
    ensures Occurs(LocationCells(locations), t, key) <==>
      exists i :: 0 <= i < |locations| && Decimal.Render(locations[i].location.gspId) == key && HasYieldAt(locations[i], t)
  {
    LocationCellsOccurRec(locations, t, key);
    AnyIndex(locations, LocationHas(t, key));
  }

  /** `convert_location_sql_to_many_datetime_many_generation` as written:
      the nested loops over locations and their yields, then the items. */
  method ConvertLocationSqlToManyDatetimeManyGeneration(locations: seq<LocationWithYields>)
    returns (r: seq<ByDatetime>)
    ensures r == Grouped(LocationCells(locations))
  {
    var d: ODict<Instant, map<string, real>> := Empty();
    for i := 0 to |locations|
      invariant d == GroupFold(LocationCells(locations[..i]))
    {
      var location := locations[i];
      var gspId := Decimal.Render(location.location.gspId);
      ghost var before := LocationCells(locations[..i]);
      ghost var visited := before;
      assert before + YieldCells(gspId, location.gspYields[..0]) == before;
      for j := 0 to |location.gspYields|
        invariant visited == before + YieldCells(gspId, location.gspYields[..j])
        invariant d == GroupFold(visited)
      {
        var gspYield := location.gspYields[j];
        var c := Cell(gspYield.datetimeUtc, gspId, gspYield.solarGenerationKw);
        assert visited + [c] == before + YieldCells(gspId, location.gspYields[..j + 1]) by {
          YieldCellsSnoc(before, gspId, location.gspYields, j);
        }
        assert GroupFold(visited + [c]) == Upsert(d, c) by {
          GroupFoldSnoc(visited, c);
        }
        if gspYield.datetimeUtc !in d.entries {
          d := Put(d, gspYield.datetimeUtc, map[gspId := gspYield.solarGenerationKw]);
        } else {
          d := Put(d, gspYield.datetimeUtc, d.entries[gspYield.datetimeUtc][gspId := gspYield.solarGenerationKw]);
        }
        visited := visited + [c];
      }
      assert visited == LocationCells(locations[..i + 1]) by {
        LocationCellsSnoc(locations, i);
      }
    }
    assert locations[..|locations|] == locations;
    r := ItemsLoop(d);
  }

  /** The location converter yields one entry per distinct yield datetime,
      in the order the datetimes first appear; an entry maps `str(gsp_id)`
      exactly for the locations with a yield at its datetime, and a later
      yield for the same datetime and gsp overwrites an earlier one. */
  lemma ConvertLocationsSpec(locations: seq<LocationWithYields>)
    ensures var cells := LocationCells(locations);
      var g := Grouped(cells);
      && |g| == |FirstSeen(Outers(cells))|
      && (forall i :: 0 <= i < |g| ==> g[i].0 == FirstSeen(Outers(cells))[i])
    ensures var g := Grouped(LocationCells(locations));
      forall i, key :: 0 <= i < |g| ==> (key in g[i].1 <==>
        exists l :: 0 <= l < |locations| && Decimal.Render(locations[l].location.gspId) == key && HasYieldAt(locations[l], g[i].0))
    ensures var cells := LocationCells(locations);
      var g := Grouped(cells);
      forall i, j :: 0 <= i < |g| && LastAt(cells, j) && cells[j].outer == g[i].0 ==>
        cells[j].inner in g[i].1 && g[i].1[cells[j].inner] == cells[j].value
  {
    var cells := LocationCells(locations);
    var g := Grouped(cells);
    GroupedSpec(cells);
    forall i, key | 0 <= i < |g|
      ensures key in g[i].1 <==>
        exists l :: 0 <= l < |locations| && Decimal.Render(locations[l].location.gspId) == key && HasYieldAt(locations[l], g[i].0)
    {
      GroupedMember(cells, i, key);
      LocationCellsOccur(locations, g[i].0, key);
    }
  }

  /** The number of (datetime, gsp) pairs in the output is the number of
      distinct such pairs in the input. */
  lemma ConvertLocationsPairs(locations: seq<LocationWithYields>)
    ensures var cells := LocationCells(locations);
      var g := Grouped(cells);
      (set i, b | 0 <= i < |g| && b in g[i].1 :: (g[i].0, b))
        == (set j | 0 <= j < |cells| :: (cells[j].outer, cells[j].inner))
  {
    GroupedPairs(LocationCells(locations));
  }

  // ---------------------------------------------------------------------
  // convert_forecasts_to_many_datetime_many_generation

  /** The national adjustment: `adjust_mw` is brought into the limit (for a
      non-negative limit this is a clamp to [-limit, limit]), subtracted
      from the power, and a negative result becomes 0. */
  function AdjustNational(mw: real, adjustMw: real, limit: real): (r: real)
    ensures r >= 0.0
  {
    var a := if adjustMw > limit then limit else if adjustMw < -limit then -limit else adjustMw;
    var m := mw - a;
    if m < 0.0 then 0.0 else m
  }

  /** For a non-negative limit the national value is
      max(0, mw - clamp(adjust_mw, -limit, limit)); with the default limit 0
      it is max(0, mw); an adjustment inside the limit and below the power
      is subtracted exactly. */
  lemma AdjustNationalClamp(mw: real, adjustMw: real, limit: real)
    requires limit >= 0.0
    ensures var clamped := if adjustMw < -limit then -limit else if adjustMw > limit then limit else adjustMw;
      -limit <= clamped <= limit &&
      AdjustNational(mw, adjustMw, limit) == (if mw - clamped < 0.0 then 0.0 else mw - clamped)
    ensures limit == 0.0 ==> AdjustNational(mw, adjustMw, limit) == (if mw < 0.0 then 0.0 else mw)
    ensures -limit <= adjustMw <= limit && adjustMw <= mw ==>
      AdjustNational(mw, adjustMw, limit) == mw - adjustMw
  {
  }

  /** The value stored for one forecast value: adjusted for the national
      gsp ("0"), unchanged otherwise (rounding to two decimals is left out). */
  function ForecastMw(national: bool, v: ForecastValue, limit: real): (r: real)
    ensures national ==> r >= 0.0
    ensures !national ==> r == v.powerMw
  {
    if national then AdjustNational(v.powerMw, v.adjustMw, limit) else v.powerMw
  }

  /** The rows the inner loop keeps for one forecast: the values inside the
      window, in order. */
  function ValueCells(gsp: string, national: bool, vs: seq<ForecastValue>, start: Option<Instant>, end: Option<Instant>, limit: real): seq<GspCell>
  {
    if |vs| == 0 then []
    else
      var v := vs[|vs| - 1];
      var pre := ValueCells(gsp, national, vs[..|vs| - 1], start, end, limit);
      if InWindow(v.targetTime, start, end) then pre + [Cell(v.targetTime, gsp, ForecastMw(national, v, limit))] else pre
  }

  lemma ValueCellsSnoc(before: seq<GspCell>, gsp: string, national: bool, vs: seq<ForecastValue>, j: int, start: Option<Instant>, end: Option<Instant>, limit: real)
    requires 0 <= j < |vs|
    ensures before + ValueCells(gsp, national, vs[..j + 1], start, end, limit)
      == (before + ValueCells(gsp, national, vs[..j], start, end, limit)) +
         (if InWindow(vs[j].targetTime, start, end) then [Cell(vs[j].targetTime, gsp, ForecastMw(national, vs[j], limit))] else [])
  {
    assert vs[..j + 1][..j] == vs[..j];
  }

  /** The values a forecast contributes: the latest values when historic,
      otherwise the values. */
  function Chosen(f: Forecast, historic: bool): seq<ForecastValue>
  {
    if historic then f.latestValues else f.values
  }

  /** The rows both loops keep: of each forecast, the chosen values inside
      the window, in order. */
  function ForecastCells(forecasts: seq<Forecast>, historic: bool, start: Option<Instant>, end: Option<Instant>, limit: real): seq<GspCell>
  {
    if |forecasts| == 0 then []
    else
      var f := forecasts[|forecasts| - 1];
      ForecastCells(forecasts[..|forecasts| - 1], historic, start, end, limit)
        + ValueCells(Decimal.Render(f.location.gspId), f.location.gspId == 0, Chosen(f, historic), start, end, limit)
  }

  lemma ForecastCellsSnoc(forecasts: seq<Forecast>, i: int, historic: bool, start: Option<Instant>, end: Option<Instant>, limit: real)
    requires 0 <= i < |forecasts|
    ensures var vs := Chosen(forecasts[i], historic);
      ForecastCells(forecasts[..i + 1], historic, start, end, limit)
        == ForecastCells(forecasts[..i], historic, start, end, limit)
           + ValueCells(Decimal.Render(forecasts[i].location.gspId), forecasts[i].location.gspId == 0, vs[..|vs|], start, end, limit)
  {
    assert forecasts[..i + 1][..i] == forecasts[..i];
    var vs := Chosen(forecasts[i], historic);
    assert vs[..|vs|] == vs;
  }

  /** The forecast has a chosen value at `t`. */
  predicate HasValueAt(f: Forecast, historic: bool, t: Instant)
  {
    exists j :: 0 <= j < |Chosen(f, historic)| && Chosen(f, historic)[j].targetTime == t
  }

  lemma {:induction false} ValueCellsOccur(gsp: string, national: bool, vs: seq<ForecastValue>, start: Option<Instant>, end: Option<Instant>, limit: real, t: Instant, key: string)
    ensures Occurs(ValueCells(gsp, national, vs, start, end, limit), t, key) <==>
      key == gsp && InWindow(t, start, end) && exists j :: 0 <= j < |vs| && vs[j].targetTime == t
  {
    if |vs| > 0 {
      var n := |vs| - 1;
      var v := vs[n];
      var pre := ValueCells(gsp, national, vs[..n], start, end, limit);
      var last := Cell(v.targetTime, gsp, ForecastMw(national, v, limit));
      ValueCellsOccur(gsp, national, vs[..n], start, end, limit, t, key);
      if InWindow(v.targetTime, start, end) {
        OccursAppend(pre, [last], t, key);
        assert Occurs([last], t, key) <==> v.targetTime == t && key == gsp by {
          assert [last][0] == last;
        }
      }
      if exists j :: 0 <= j < |vs| && vs[j].targetTime == t {
        var j :| 0 <= j < |vs| && vs[j].targetTime == t;
        if j < n {
          assert vs[..n][j] == vs[j];
        }
      }
      if exists j :: 0 <= j < n && vs[..n][j].targetTime == t {
        var j :| 0 <= j < n && vs[..n][j].targetTime == t;
        assert vs[j] == vs[..n][j];
      }
    }
  }

  /** The forecast has `str(gsp_id)` equal to `key` and a chosen value at `t`. */
  function ForecastHas(historic: bool, t: Instant, key: string): Forecast -> bool
  {
    (f: Forecast) => Decimal.Render(f.location.gspId) == key && HasValueAt(f, historic, t)
  }

  lemma {:induction false} ForecastCellsOccurRec(forecasts: seq<Forecast>, historic: bool, start: Option<Instant>, end: Option<Instant>, limit: real, t: Instant, key: string)
    ensures Occurs(ForecastCells(forecasts, historic, start, end, limit), t, key) <==>
      InWindow(t, start, end) && Any(forecasts, ForecastHas(historic, t, key))
  {
    if |forecasts| > 0 {
      var n := |forecasts| - 1;
      var pre := forecasts[..n];
      var f := forecasts[n];
      var gsp := Decimal.Render(f.location.gspId);
      ForecastCellsOccurRec(pre, historic, start, end, limit, t, key);
      OccursAppend(ForecastCells(pre, historic, start, end, limit), ValueCells(gsp, f.location.gspId == 0, Chosen(f, historic), start, end, limit), t, key);
      ValueCellsOccur(gsp, f.location.gspId == 0, Chosen(f, historic), start, end, limit, t, key);
    }
  }

  /** A datetime and a key occur together exactly when the datetime lies in
      the window and some forecast with that `str(gsp_id)` has a chosen
      value at that datetime. */
  lemma ForecastCellsOccur(forecasts: seq<Forecast>, historic: bool, start: Option<Instant>, end: Option<Instant>, limit: real, t: Instant, key: string)
    ensures Occurs(ForecastCells(forecasts, historic, start, end, limit), t, key) <==>
      InWindow(t, start, end) &&
      exists i :: 0 <= i < |forecasts| && Decimal.Render(forecasts[i].location.gspId) == key && HasValueAt(forecasts[i], historic, t)
  {
    ForecastCellsOccurRec(forecasts, historic, start, end, limit, t, key);
    AnyIndex(forecasts, ForecastHas(historic, t, key));
  }

  /** The national adjustment of lines 158-168, as the code reassigns its
      locals. */
  method AdjustedMw(v: ForecastValue, adjustLimit: real) returns (mw: real)
    ensures mw == ForecastMw(true, v, adjustLimit)
  {
    mw := v.powerMw;
    var adjustMw := v.adjustMw;
    if adjustMw > adjustLimit {
      adjustMw := adjustLimit;
    } else if adjustMw < -adjustLimit {
      adjustMw := -adjustLimit;
    }
    mw := mw - adjustMw;
    if mw < 0.0 {
      mw := 0.0;
    }
  }

  /** The inner loop of the forecast converter over the values of one
      forecast, continuing the dict `d` built from the rows `before`. */
  method ConvertForecastValues(d0: ODict<Instant, map<string, real>>, ghost before: seq<GspCell>, gspId: string,
      ghost national: bool, values: seq<ForecastValue>, start: Option<Instant>, end: Option<Instant>, adjustLimit: real)
    returns (d: ODict<Instant, map<string, real>>)
    requires d0 == GroupFold(before)
    requires gspId == "0" <==> national
    ensures d == GroupFold(before + ValueCells(gspId, national, values, start, end, adjustLimit))
  {
    d := d0;
    ghost var visited := before;
    assert before + ValueCells(gspId, national, values[..0], start, end, adjustLimit) == before;
    for j := 0 to |values|
      invariant visited == before + ValueCells(gspId, national, values[..j], start, end, adjustLimit)
      invariant d == GroupFold(visited)
    {
      var v := values[j];
      var t := v.targetTime;
      if start.Some? && t < start.value {
        assert visited == before + ValueCells(gspId, national, values[..j + 1], start, end, adjustLimit) by {
          ValueCellsSnoc(before, gspId, national, values, j, start, end, adjustLimit);
        }
        continue;
      }
      if end.Some? && t > end.value {
        assert visited == before + ValueCells(gspId, national, values[..j + 1], start, end, adjustLimit) by {
          ValueCellsSnoc(before, gspId, national, values, j, start, end, adjustLimit);
        }
        continue;
      }
      var mw := v.powerMw;
      if gspId == "0" {
        mw := AdjustedMw(v, adjustLimit);
      }
      var c := Cell(t, gspId, mw);
      assert visited + [c] == before + ValueCells(gspId, national, values[..j + 1], start, end, adjustLimit) by {
        ValueCellsSnoc(before, gspId, national, values, j, start, end, adjustLimit);
      }
      assert GroupFold(visited + [c]) == Upsert(d, c) by {
        GroupFoldSnoc(visited, c);
      }
      if t !in d.entries {
        d := Put(d, t, map[gspId := mw]);
      } else {
        d := Put(d, t, d.entries[t][gspId := mw]);
      }
      visited := visited + [c];
    }
    assert values[..|values|] == values;
  }

  /** `convert_forecasts_to_many_datetime_many_generation` as written: the
      nested loops with the two `continue`s and the national adjustment,
      then the items. */
  method ConvertForecastsToManyDatetimeManyGeneration(forecasts: seq<Forecast>, historic: bool,
      start: Option<Instant>, end: Option<Instant>, adjustLimit: real)
    returns (r: seq<ByDatetime>)
    ensures r == Grouped(ForecastCells(forecasts, historic, start, end, adjustLimit))
  {
    var d: ODict<Instant, map<string, real>> := Empty();
    for i := 0 to |forecasts|
      invariant d == GroupFold(ForecastCells(forecasts[..i], historic, start, end, adjustLimit))
    {
      var forecast := forecasts[i];
      var gspId := Decimal.Render(forecast.location.gspId);
      var values := if historic then forecast.latestValues else forecast.values;
      ghost var national := forecast.location.gspId == 0;
      assert gspId == "0" <==> national by {
        Decimal.RenderInjective(forecast.location.gspId, forecast.location.gspId);
      }
      d := ConvertForecastValues(d, ForecastCells(forecasts[..i], historic, start, end, adjustLimit), gspId, national,
        values, start, end, adjustLimit);
      assert values[..|values|] == values;
      ForecastCellsSnoc(forecasts, i, historic, start, end, adjustLimit);
    }
    assert forecasts[..|forecasts|] == forecasts;
    r := ItemsLoop(d);
  }


  /** Every national row carries a non-negative value. */
  predicate NationalNonNegative(cells: seq<GspCell>)
  {
    forall k :: 0 <= k < |cells| && cells[k].inner == "0" ==> cells[k].value >= 0.0
  }

  lemma NationalNonNegativeAppend(a: seq<GspCell>, b: seq<GspCell>)
    requires NationalNonNegative(a) && NationalNonNegative(b)
    ensures NationalNonNegative(a + b)
  {
    forall k | 0 <= k < |a + b| && (a + b)[k].inner == "0"
      ensures (a + b)[k].value >= 0.0
    {
      if k < |a| {
        assert (a + b)[k] == a[k];
      } else {
        assert (a + b)[k] == b[k - |a|];
      }
    }
  }

  lemma {:induction false} NationalValueCells(gsp: string, national: bool, vs: seq<ForecastValue>, start: Option<Instant>, end: Option<Instant>, limit: real)
    requires gsp == "0" ==> national
    ensures NationalNonNegative(ValueCells(gsp, national, vs, start, end, limit))
  {
    if |vs| > 0 {
      var v := vs[|vs| - 1];
      NationalValueCells(gsp, national, vs[..|vs| - 1], start, end, limit);
      var last := [Cell(v.targetTime, gsp, ForecastMw(national, v, limit))];
      assert NationalNonNegative(last) by {
        assert last[0].inner == gsp;
      }
      NationalNonNegativeAppend(ValueCells(gsp, national, vs[..|vs| - 1], start, end, limit), last);
    }
  }

  lemma {:induction false} NationalCellsNonNegative(forecasts: seq<Forecast>, historic: bool, start: Option<Instant>, end: Option<Instant>, limit: real)
    ensures NationalNonNegative(ForecastCells(forecasts, historic, start, end, limit))
  {
    if |forecasts| > 0 {
      var f := forecasts[|forecasts| - 1];
      var pre := forecasts[..|forecasts| - 1];
      NationalCellsNonNegative(pre, historic, start, end, limit);
      Decimal.RenderInjective(f.location.gspId, f.location.gspId);
      NationalValueCells(Decimal.Render(f.location.gspId), f.location.gspId == 0, Chosen(f, historic), start, end, limit);
      NationalNonNegativeAppend(ForecastCells(pre, historic, start, end, limit),
        ValueCells(Decimal.Render(f.location.gspId), f.location.gspId == 0, Chosen(f, historic), start, end, limit));
    }
  }

  /** A stored pair holds the value of the last row with that pair. */
  lemma LastCellOf(cells: seq<GspCell>, t: Instant, key: string)
    requires t in GroupFold(cells).entries && key in GroupFold(cells).entries[t]
    ensures exists j :: (LastAt(cells, j) && cells[j].outer == t && cells[j].inner == key &&
      GroupFold(cells).entries[t][key] == cells[j].value)
  {
    GroupFoldContents(cells);
    assert Occurs(cells, t, key);
    var j :| 0 <= j < |cells| && cells[j].outer == t && cells[j].inner == key;
    while !LastAt(cells, j)
      invariant 0 <= j < |cells| && cells[j].outer == t && cells[j].inner == key
      decreases |cells| - j
    {
      var k :| j < k < |cells| && cells[k].outer == t && cells[k].inner == key;
      j := k;
    }
  }

  /** Every listed datetime is the datetime of some row. */
  lemma GroupedOuterOccurs(cells: seq<GspCell>, i: int)
    requires 0 <= i < |Grouped(cells)|
    ensures exists k :: 0 <= k < |cells| && cells[k].outer == Grouped(cells)[i].0
  {
    FirstSeenMembers(Outers(cells), i);
  }

  /** Every datetime of the forecast converter's output lies in the window. */
  lemma ForecastsInWindow(forecasts: seq<Forecast>, historic: bool, start: Option<Instant>, end: Option<Instant>, limit: real)
    ensures var g := Grouped(ForecastCells(forecasts, historic, start, end, limit));
      forall i :: 0 <= i < |g| ==> InWindow(g[i].0, start, end)
  {
    var cells := ForecastCells(forecasts, historic, start, end, limit);
    var g := Grouped(cells);
    forall i | 0 <= i < |g|
      ensures InWindow(g[i].0, start, end)
    {
      GroupedOuterOccurs(cells, i);
      var k :| 0 <= k < |cells| && cells[k].outer == g[i].0;
      assert Occurs(cells, g[i].0, cells[k].inner);
      ForecastCellsOccur(forecasts, historic, start, end, limit, g[i].0, cells[k].inner);
    }
  }

  /** No national value of the forecast converter's output is negative. */
  lemma ForecastsNationalNonNegative(forecasts: seq<Forecast>, historic: bool, start: Option<Instant>, end: Option<Instant>, limit: real)
    ensures var g := Grouped(ForecastCells(forecasts, historic, start, end, limit));
      forall i :: 0 <= i < |g| && "0" in g[i].1 ==> g[i].1["0"] >= 0.0
  {
    var cells := ForecastCells(forecasts, historic, start, end, limit);
    var g := Grouped(cells);
    var d := GroupFold(cells);
    NationalCellsNonNegative(forecasts, historic, start, end, limit);
    forall i | 0 <= i < |g| && "0" in g[i].1
      ensures g[i].1["0"] >= 0.0
    {
      assert g[i].1 == d.entries[g[i].0];
      LastCellOf(cells, g[i].0, "0");
    }
  }

  /** The forecast converter yields one entry per distinct target time of a
      kept value, in first-seen order, each inside the window; an entry maps
      `str(gsp_id)` exactly for the forecasts with a chosen value (latest
      values when historic) at that time; a later duplicate overwrites; and
      national values are never negative. */
  lemma ConvertForecastsSpec(forecasts: seq<Forecast>, historic: bool, start: Option<Instant>, end: Option<Instant>, limit: real)
    ensures var cells := ForecastCells(forecasts, historic, start, end, limit);
      var g := Grouped(cells);
      && |g| == |FirstSeen(Outers(cells))|
      && (forall i :: 0 <= i < |g| ==> g[i].0 == FirstSeen(Outers(cells))[i] && InWindow(g[i].0, start, end))
    ensures var g := Grouped(ForecastCells(forecasts, historic, start, end, limit));
      forall i, key :: 0 <= i < |g| ==> (key in g[i].1 <==>
        exists l :: 0 <= l < |forecasts| && Decimal.Render(forecasts[l].location.gspId) == key && HasValueAt(forecasts[l], historic, g[i].0))
    ensures var cells := ForecastCells(forecasts, historic, start, end, limit);
      var g := Grouped(cells);
      forall i, j :: 0 <= i < |g| && LastAt(cells, j) && cells[j].outer == g[i].0 ==>
        cells[j].inner in g[i].1 && g[i].1[cells[j].inner] == cells[j].value
    ensures var g := Grouped(ForecastCells(forecasts, historic, start, end, limit));
      forall i :: 0 <= i < |g| && "0" in g[i].1 ==> g[i].1["0"] >= 0.0
  {
    var cells := ForecastCells(forecasts, historic, start, end, limit);
    var g := Grouped(cells);
    GroupedSpec(cells);
    ForecastsInWindow(forecasts, historic, start, end, limit);
    ForecastsNationalNonNegative(forecasts, historic, start, end, limit);
    forall i, key | 0 <= i < |g|
      ensures key in g[i].1 <==>
        exists l :: 0 <= l < |forecasts| && Decimal.Render(forecasts[l].location.gspId) == key && HasValueAt(forecasts[l], historic, g[i].0)
    {
      GroupedMember(cells, i, key);
      ForecastCellsOccur(forecasts, historic, start, end, limit, g[i].0, key);
    }
  }
}
