/**
 * `nowcasting_api/database_fast.py`: `get_forecasts`, the latest values of
 * the selected gsps attached to their historic blend forecasts. Its compact
 * read is `LatestValues.GetForecastValuesAllCompact`.
 */
module DatabaseFast {
  import opened Common
  import opened Models
  import opened Grouping
  import opened LatestValues

  /** `get_forecasts` as written: every row has the four columns target
      time, power, gsp id and `adjust_mw` (columns 0 to 3), and a national
      row is adjusted with column 4. */
  method GetForecasts(start: Option<Instant>, end: Option<Instant>, gspIds: Option<seq<int>>,
                      latest: seq<LatestRecord>, forecasts: seq<ForecastRecord>,
                      adjust: ForecastValue -> ForecastValue)
    returns (r: Result<seq<Forecast>>)
    ensures r == Assemble(Query(latest, start, end, gspIds, true), ForecastPairs(forecasts, gspIds), 4, adjust)
  {
    var rows := Query(latest, start, end, gspIds, true);
    var pairs := ForecastPairs(forecasts, gspIds);
    r := AssembleLoop(rows, pairs, 4, adjust);
  }

  /** A selected forecast record gives its gsp a forecast object. */
  lemma SelectedForecastKey(forecasts: seq<ForecastRecord>, gspIds: Option<seq<int>>, j: int)
    requires 0 <= j < |forecasts| && ForecastSelected(gspIds)(forecasts[j])
    ensures forecasts[j].location.gspId in Keys(ForecastPairs(forecasts, gspIds))
  {
    var kept := Filter(forecasts, ForecastSelected(gspIds));
    assert forecasts[j] in kept;
    var i :| 0 <= i < |kept| && kept[i] == forecasts[j];
    assert Keys(ForecastPairs(forecasts, gspIds))[i] == forecasts[j].location.gspId;
  }

  /** As written, asking for the national gsp fails: once a national value
      and a national historic forecast are selected, reading column 4 of the
      four-column row raises IndexError. */
  lemma NationalIndexError(start: Option<Instant>, end: Option<Instant>, gspIds: Option<seq<int>>,
                           latest: seq<LatestRecord>, forecasts: seq<ForecastRecord>,
                           adjust: ForecastValue -> ForecastValue, i: int, j: int)
    requires 0 <= i < |latest| && latest[i].gspId == 0 && Selected(start, end, gspIds)(latest[i])
    requires 0 <= j < |forecasts| && forecasts[j].location.gspId == 0 && ForecastSelected(gspIds)(forecasts[j])
    ensures Assemble(Query(latest, start, end, gspIds, true), ForecastPairs(forecasts, gspIds), 4, adjust) == Err(IndexError)
  {
    var rows := Query(latest, start, end, gspIds, true);
    QueryComplete(latest, start, end, gspIds, true, i);
    var k :| 0 <= k < |rows| && rows[k] == Columns(latest[i], true);
    assert IndexFails(rows[k], 4);
    SelectedForecastKey(forecasts, gspIds, j);
    AssembleFails(rows, ForecastPairs(forecasts, gspIds), 4, adjust, k);
  }

  /** `get_forecasts` as evidently intended: a national row is adjusted with
      its `adjust_mw`, column 3. */
  method GetForecastsCorrected(start: Option<Instant>, end: Option<Instant>, gspIds: Option<seq<int>>,
                               latest: seq<LatestRecord>, forecasts: seq<ForecastRecord>,
                               adjust: ForecastValue -> ForecastValue)
    returns (r: Result<seq<Forecast>>)
    ensures r == Assemble(Query(latest, start, end, gspIds, true), ForecastPairs(forecasts, gspIds), 3, adjust)
  {
    var rows := Query(latest, start, end, gspIds, true);
    var pairs := ForecastPairs(forecasts, gspIds);
    r := AssembleLoop(rows, pairs, 3, adjust);
  }

  /** The corrected read never fails: every row has column 3. */
  lemma CorrectedForecastsOk(start: Option<Instant>, end: Option<Instant>, gspIds: Option<seq<int>>,
                             latest: seq<LatestRecord>, forecasts: seq<ForecastRecord>,
                             adjust: ForecastValue -> ForecastValue)
    ensures Assemble(Query(latest, start, end, gspIds, true), ForecastPairs(forecasts, gspIds), 3, adjust).Ok?
  {
    var rows := Query(latest, start, end, gspIds, true);
    forall l | 0 <= l < |rows|
      ensures !IndexFails(rows[l], 3)
    {
      QueryRow(latest, start, end, gspIds, true, l);
    }
    AssembleOk(rows, ForecastPairs(forecasts, gspIds), 3, adjust);
  }
}
