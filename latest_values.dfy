/**
 * The reads of the latest-values table shared by the optimised database
 * modules (`nowcasting_api/database/v2_foreacst.py` and
 * `nowcasting_api/database_fast.py`): the row filters, the compact grouping
 * `{target_time: {gsp_id: power}}`, the forecast objects built from the
 * historic-forecast read (step 4) and the values attached to them (step 5).
 */
module LatestValues {
  import opened Common
  import opened Models
  import opened Grouping

  /** The only model whose values these reads return. */
  const BLEND: string := "blend"

  /** A row of the latest-values table, with the name of its model. */
  datatype LatestRecord = LatestRecord(
    targetTime: Instant,
    powerMw: real,
    gspId: int,
    modelName: string,
    adjustMw: real)

  /** The row filters of the query: the blend model, the inclusive target-time
      window (each bound when given) and the gsp filter (`filter_gsp_id`). */
  function Selected(start: Option<Instant>, end: Option<Instant>, gspIds: Option<seq<int>>): LatestRecord -> bool
  {
    (r: LatestRecord) => r.modelName == BLEND && InWindow(r.targetTime, start, end) && GspSelected(r.gspId, gspIds)
  }

  /** A row of the query result: target time, power, gsp id and then the
      further columns that were asked for (column 3 is `more[0]`). */
  datatype ValueRow = ValueRow(targetTime: Instant, powerMw: real, gspId: int, more: seq<real>)

  /** The columns read from one record: the three fixed ones, and `adjust_mw`
      when it is asked for. */
  function Columns(r: LatestRecord, withAdjust: bool): (row: ValueRow)
    ensures row.targetTime == r.targetTime && row.powerMw == r.powerMw && row.gspId == r.gspId
    ensures |row.more| == if withAdjust then 1 else 0
    ensures withAdjust ==> row.more[0] == r.adjustMw
  {
    ValueRow(r.targetTime, r.powerMw, r.gspId, if withAdjust then [r.adjustMw] else [])
  }

  /** The query result: the selected records, in table order, as rows. */
  function Query(table: seq<LatestRecord>, start: Option<Instant>, end: Option<Instant>,
                 gspIds: Option<seq<int>>, withAdjust: bool): (rows: seq<ValueRow>)
    ensures |rows| <= |table|
    ensures forall i :: 0 <= i < |rows| ==> InWindow(rows[i].targetTime, start, end)
  {
    Map(Filter(table, Selected(start, end, gspIds)), (r: LatestRecord) => Columns(r, withAdjust))
  }

  /** Every row of the result comes from a selected record: it lies in the
      window, passes the gsp filter and carries the asked-for columns. */
  lemma QueryRow(table: seq<LatestRecord>, start: Option<Instant>, end: Option<Instant>,
                 gspIds: Option<seq<int>>, withAdjust: bool, i: int)
    requires 0 <= i < |Query(table, start, end, gspIds, withAdjust)|
    ensures var row := Query(table, start, end, gspIds, withAdjust)[i];
      && InWindow(row.targetTime, start, end)
      && GspSelected(row.gspId, gspIds)
      && |row.more| == (if withAdjust then 1 else 0)
      && exists j :: 0 <= j < |table| && table[j].modelName == BLEND && Columns(table[j], withAdjust) == row
  {
    var kept := Filter(table, Selected(start, end, gspIds));
    assert kept[i] in table && Selected(start, end, gspIds)(kept[i]);
  }

  /** A record that passes the filters is read. */
  lemma QueryComplete(table: seq<LatestRecord>, start: Option<Instant>, end: Option<Instant>,
                      gspIds: Option<seq<int>>, withAdjust: bool, j: int)
    requires 0 <= j < |table| && Selected(start, end, gspIds)(table[j])
    ensures Columns(table[j], withAdjust) in Query(table, start, end, gspIds, withAdjust)
  {
    var kept := Filter(table, Selected(start, end, gspIds));
    assert table[j] in kept;
    var i :| 0 <= i < |kept| && kept[i] == table[j];
    assert Query(table, start, end, gspIds, withAdjust)[i] == Columns(table[j], withAdjust);
  }

  // ---------------------------------------------------------------------
  // Compact grouping: {target_time: {gsp_id: power}}

  function CompactCells(rows: seq<ValueRow>): (cells: seq<Cell<Instant, int, real>>)
    ensures |cells| == |rows|
    ensures forall i :: 0 <= i < |rows| ==> cells[i] == Cell(rows[i].targetTime, rows[i].gspId, rows[i].powerMw)
  {
    Map(rows, (r: ValueRow) => Cell(r.targetTime, r.gspId, r.powerMw))
  }

  /** `get_forecast_values_all_compact` (of both optimised modules): the
      selected latest rows grouped by target time into `{gsp_id: power}`. */
  method GetForecastValuesAllCompact(start: Option<Instant>, end: Option<Instant>, gspIds: Option<seq<int>>,
                                     latest: seq<LatestRecord>)
    returns (r: seq<(Instant, map<int, real>)>)
    ensures r == Grouped(CompactCells(Query(latest, start, end, gspIds, false)))
  {
    var rows := Query(latest, start, end, gspIds, false);
    r := GroupRows(CompactCells(rows));
  }

  /** Each entry of the compact grouping of a query is a target time in the
      window, and each gsp it maps passes the gsp filter and has a selected
      row at that time. */
  lemma CompactSelected(table: seq<LatestRecord>, start: Option<Instant>, end: Option<Instant>,
                        gspIds: Option<seq<int>>, withAdjust: bool, i: int, k: int)
    requires var g := Grouped(CompactCells(Query(table, start, end, gspIds, withAdjust)));
      0 <= i < |g| && k in g[i].1
    ensures var g := Grouped(CompactCells(Query(table, start, end, gspIds, withAdjust)));
      InWindow(g[i].0, start, end) && GspSelected(k, gspIds)
  {
    var rows := Query(table, start, end, gspIds, withAdjust);
    var cells := CompactCells(rows);
    var g := Grouped(cells);
    assert Occurs(cells, g[i].0, k) by {
      GroupedSpec(cells);
    }
    var j :| 0 <= j < |cells| && cells[j].outer == g[i].0 && cells[j].inner == k;
    QueryRow(table, start, end, gspIds, withAdjust, j);
  }

  // ---------------------------------------------------------------------
  // Step 4: one forecast object per gsp

  /** A row of the historic-forecast read, joined with its location, model
      and input-data timestamps. */
  datatype ForecastRecord = ForecastRecord(
    historic: bool,
    creationTime: Instant,
    initializationTime: Option<Instant>,
    location: Location,
    model: MlModel,
    inputDataLastUpdated: InputDataLastUpdated)

  /** The filters of the forecast read: historic forecasts of the blend model
      whose location passes the gsp filter. */
  function ForecastSelected(gspIds: Option<seq<int>>): ForecastRecord -> bool
  {
    (r: ForecastRecord) => r.historic && r.model.name == BLEND && GspSelected(r.location.gspId, gspIds)
  }

  /** The forecast object of one record: historic, with no values yet. */
  function NewForecast(r: ForecastRecord): (f: Forecast)
    ensures f.location == r.location && f.model == r.model && f.historic && f.values == []
    ensures f.creationTime == r.creationTime && f.initializationTime == r.initializationTime
  {
    Forecast(r.location, r.model, r.creationTime, r.initializationTime, true, [], [], r.inputDataLastUpdated)
  }

  /** The pairs `forecast_objects[gsp_id] = forecast_py` of the loop. */
  function ForecastPairs(records: seq<ForecastRecord>, gspIds: Option<seq<int>>): seq<(int, Forecast)>
  {
    Map(Filter(records, ForecastSelected(gspIds)), (r: ForecastRecord) => (r.location.gspId, NewForecast(r)))
  }

  /** Every forecast object comes from a selected record of its own gsp and
      holds no values. */
  lemma ForecastObject(records: seq<ForecastRecord>, gspIds: Option<seq<int>>, k: int)
    requires k in PutFold(ForecastPairs(records, gspIds)).entries
    ensures var f := PutFold(ForecastPairs(records, gspIds)).entries[k];
      && f.location.gspId == k && f.values == [] && f.historic
      && GspSelected(k, gspIds)
      && exists j :: 0 <= j < |records| && ForecastSelected(gspIds)(records[j]) && f == NewForecast(records[j])
  {
    var pairs := ForecastPairs(records, gspIds);
    var kept := Filter(records, ForecastSelected(gspIds));
    PutFoldValue(pairs, k);
    var j :| 0 <= j < |pairs| && pairs[j].0 == k && pairs[j].1 == PutFold(pairs).entries[k];
    assert kept[j] in records && ForecastSelected(gspIds)(kept[j]);
  }

  /** A later record of the same gsp replaces an earlier one: the object of a
      gsp is built from its last selected record. */
  lemma ForecastObjectLast(records: seq<ForecastRecord>, gspIds: Option<seq<int>>, j: int)
    requires var kept := Filter(records, ForecastSelected(gspIds));
      0 <= j < |kept| && forall l :: j < l < |kept| ==> kept[l].location.gspId != kept[j].location.gspId
    ensures var kept := Filter(records, ForecastSelected(gspIds));
      var d := PutFold(ForecastPairs(records, gspIds));
      kept[j].location.gspId in d.entries && d.entries[kept[j].location.gspId] == NewForecast(kept[j])
  {
    var pairs := ForecastPairs(records, gspIds);
    var kept := Filter(records, ForecastSelected(gspIds));
    assert LastKeyAt(pairs, j) by {
      forall l | j < l < |pairs|
        ensures pairs[l].0 != pairs[j].0
      {
        assert pairs[l].0 == kept[l].location.gspId;
      }
    }
    PutFoldLast(pairs, j);
  }

  // ---------------------------------------------------------------------
  // Step 5: the values of each forecast object

  /** Power per installed capacity when the capacity is positive, otherwise
      the power itself (rounding to two decimals is left out). */
  function Normalized(powerMw: real, capacityMw: real): (r: real)
    ensures capacityMw > 0.0 ==> r * capacityMw == powerMw
    ensures capacityMw <= 0.0 ==> r == powerMw
  {
    if capacityMw > 0.0 then powerMw / capacityMw else powerMw
  }

  /** Reading column `column` of a national row fails: the row has fewer
      columns. */
  predicate IndexFails(row: ValueRow, column: nat)
  {
    row.gspId == 0 && !(3 <= column < 3 + |row.more|)
  }

  /** The forecast value of one row for a forecast of the given capacity;
      for the national gsp (0) the `adjust_mw` read from `column` is set and
      the datamodel's `adjust` applied (a row whose read fails keeps the
      plain value: that case is an error of `AttachValues`). */
  function MakeValue(row: ValueRow, capacityMw: real, column: nat, adjust: ForecastValue -> ForecastValue): (v: ForecastValue)
    ensures row.gspId != 0 ==> v.targetTime == row.targetTime && v.powerMw == row.powerMw
    ensures row.gspId != 0 ==> v.normalizedPower == Normalized(row.powerMw, capacityMw)
  {
    var fv := ForecastValue(row.targetTime, row.powerMw, Normalized(row.powerMw, capacityMw), 0.0, None);
    if row.gspId == 0 && 3 <= column < 3 + |row.more| then adjust(fv.(adjustMw := row.more[column - 3]))
    else fv
  }

  /** The forecast with one more value. */
  function AppendValue(f: Forecast, row: ValueRow, column: nat, adjust: ForecastValue -> ForecastValue): Forecast
  {
    f.(values := f.values + [MakeValue(row, f.location.installedCapacityMw, column, adjust)])
  }

  /** The forecast objects after the loop of step 5 has processed `rows`:
      a row whose gsp has an object is appended to it, every other row is
      dropped; a national row that lacks column `column` raises IndexError. */
  function AttachValues(d: ODict<int, Forecast>, rows: seq<ValueRow>, column: nat,
                        adjust: ForecastValue -> ForecastValue): (r: Result<ODict<int, Forecast>>)
    requires Wf(d)
    ensures r.Ok? ==> Wf(r.value) && r.value.keys == d.keys
    ensures r.Err? ==> r.error == IndexError
  {
    if |rows| == 0 then Ok(d)
    else
      var n := |rows| - 1;
      var pre := AttachValues(d, rows[..n], column, adjust);
      if pre.Err? then pre
      else
        var row := rows[n];
        if row.gspId !in pre.value.entries then pre
        else if IndexFails(row, column) then Err(IndexError)
        else Ok(pre.value.(entries := pre.value.entries[row.gspId := AppendValue(pre.value.entries[row.gspId], row, column, adjust)]))
  }

  /** The loop of step 5. */
  method AttachLoop(d: ODict<int, Forecast>, rows: seq<ValueRow>, column: nat,
                    adjust: ForecastValue -> ForecastValue) returns (r: Result<ODict<int, Forecast>>)
    requires Wf(d)
    ensures r == AttachValues(d, rows, column, adjust)
  {
    var objects := d;
    for i := 0 to |rows|
      invariant AttachValues(d, rows[..i], column, adjust) == Ok(objects)
    {
      assert rows[..i + 1][..i] == rows[..i];
      var row := rows[i];
      if row.gspId in objects.entries {
        if IndexFails(row, column) {
          assert AttachValues(d, rows[..i + 1], column, adjust) == Err(IndexError);
          assert AttachValues(d, rows, column, adjust) == Err(IndexError) by {
            AttachValuesErrSticks(d, rows, i + 1, column, adjust);
          }
          return Err(IndexError);
        }
        var f := objects.entries[row.gspId];
        var fv := MakeValue(row, f.location.installedCapacityMw, column, adjust);
        objects := objects.(entries := objects.entries[row.gspId := f.(values := f.values + [fv])]);
      }
    }
    assert rows[..|rows|] == rows;
    r := Ok(objects);
  }

  /** Once the loop has failed it stays failed. */
  lemma {:induction false} AttachValuesErrSticks(d: ODict<int, Forecast>, rows: seq<ValueRow>, m: nat, column: nat,
                                                 adjust: ForecastValue -> ForecastValue)
    requires Wf(d) && m <= |rows|
    requires AttachValues(d, rows[..m], column, adjust).Err?
    ensures AttachValues(d, rows, column, adjust).Err?
    decreases |rows| - m
  {
    if m < |rows| {
      assert rows[..m + 1][..m] == rows[..m];
      AttachValuesErrSticks(d, rows, m + 1, column, adjust);
    } else {
      assert rows[..m] == rows;
    }
  }

  /** The rows of one gsp. */
  function OfGsp(k: int): ValueRow -> bool
  {
    (row: ValueRow) => row.gspId == k
  }

  /** Step 5 fails exactly when some national row lacks the adjust column
      while the national gsp has a forecast object. */
  lemma {:induction false} AttachValuesError(d: ODict<int, Forecast>, rows: seq<ValueRow>, column: nat,
                                             adjust: ForecastValue -> ForecastValue)
    requires Wf(d)
    ensures AttachValues(d, rows, column, adjust).Err? <==>
      0 in d.entries && exists i :: 0 <= i < |rows| && IndexFails(rows[i], column)
  {
    if |rows| > 0 {
      var n := |rows| - 1;
      var pre := rows[..n];
      AttachValuesError(d, pre, column, adjust);
      if exists i :: 0 <= i < |pre| && IndexFails(pre[i], column) {
        var i :| 0 <= i < |pre| && IndexFails(pre[i], column);
        assert rows[i] == pre[i];
      }
      if exists i :: 0 <= i < |rows| && IndexFails(rows[i], column) {
        var i :| 0 <= i < |rows| && IndexFails(rows[i], column);
        if i < n {
          assert pre[i] == rows[i];
        }
      }
    }
  }

  /** The conversion of rows into values of a forecast of that capacity. */
  function ValueMaker(capacityMw: real, column: nat, adjust: ForecastValue -> ForecastValue): ValueRow -> ForecastValue
  {
    (row: ValueRow) => MakeValue(row, capacityMw, column, adjust)
  }

  /** One step of the loop: the object of `k` changes only when the row is
      one of `k`, and then only by the appended value. */
  lemma AttachValuesStep(d: ODict<int, Forecast>, rows: seq<ValueRow>, column: nat,
                         adjust: ForecastValue -> ForecastValue, k: int)
    requires Wf(d) && k in d.entries && |rows| > 0
    requires AttachValues(d, rows, column, adjust).Ok?
    ensures AttachValues(d, rows[..|rows| - 1], column, adjust).Ok?
    ensures var g := AttachValues(d, rows[..|rows| - 1], column, adjust).value.entries[k];
      AttachValues(d, rows, column, adjust).value.entries[k] ==
        if rows[|rows| - 1].gspId == k then AppendValue(g, rows[|rows| - 1], column, adjust) else g
  {
  }

  /** Each object ends up with its own values followed by the rows of its
      gsp, in order, each made into a forecast value; nothing else about it
      changes. */
  lemma {:induction false} AttachValuesContents(d: ODict<int, Forecast>, rows: seq<ValueRow>, column: nat,
                                                adjust: ForecastValue -> ForecastValue, k: int)
    requires Wf(d) && k in d.entries
    requires AttachValues(d, rows, column, adjust).Ok?
    ensures var f := d.entries[k];
      AttachValues(d, rows, column, adjust).value.entries[k] ==
        f.(values := f.values + Map(Filter(rows, OfGsp(k)), ValueMaker(f.location.installedCapacityMw, column, adjust)))
  {
    var f := d.entries[k];
    var conv := ValueMaker(f.location.installedCapacityMw, column, adjust);
    if |rows| == 0 {
      assert f.values + [] == f.values;
    } else {
      var n := |rows| - 1;
      var pre := rows[..n];
      AttachValuesStep(d, rows, column, adjust, k);
      AttachValuesContents(d, pre, column, adjust, k);
      var g := AttachValues(d, pre, column, adjust).value.entries[k];
      var kept := Filter(pre, OfGsp(k));
      assert g == f.(values := f.values + Map(kept, conv));
      if rows[n].gspId == k {
        assert Filter(rows, OfGsp(k)) == kept + [rows[n]];
        assert Map(kept + [rows[n]], conv) == Map(kept, conv) + [conv(rows[n])];
      } else {
        assert Filter(rows, OfGsp(k)) == kept;
      }
    }
  }

  // ---------------------------------------------------------------------
  // Steps 4 to 6 together

  /** The forecasts returned for the value rows and the forecast pairs. */
  function Assemble(rows: seq<ValueRow>, pairs: seq<(int, Forecast)>, column: nat,
                    adjust: ForecastValue -> ForecastValue): (r: Result<seq<Forecast>>)
    ensures r.Ok? ==> |r.value| == |FirstSeen(Keys(pairs))|
    ensures r.Err? ==> r.error == IndexError
  {
    var a := AttachValues(PutFold(pairs), rows, column, adjust);
    if a.Err? then Err(a.error) else Ok(ValuesOf(a.value))
  }

  /** Steps 4 to 6 as the source runs them: the dict loop, the value loop and
      the list of the dict's values. */
  method AssembleLoop(rows: seq<ValueRow>, pairs: seq<(int, Forecast)>, column: nat,
                      adjust: ForecastValue -> ForecastValue) returns (r: Result<seq<Forecast>>)
    ensures r == Assemble(rows, pairs, column, adjust)
  {
    var objects := PutLoop(pairs);
    var attached := AttachLoop(objects, rows, column, adjust);
    if attached.Err? {
      return Err(attached.error);
    }
    var forecasts := ValuesLoop(attached.value);
    r := Ok(forecasts);
  }

  /** The i-th forecast returned belongs to the i-th distinct gsp of the
      pairs, is the object stored for it, and holds the rows of that gsp made
      into values. */
  lemma AssembleContents(rows: seq<ValueRow>, pairs: seq<(int, Forecast)>, column: nat,
                         adjust: ForecastValue -> ForecastValue, i: int)
    requires Assemble(rows, pairs, column, adjust).Ok?
    requires 0 <= i < |FirstSeen(Keys(pairs))|
    ensures var k := FirstSeen(Keys(pairs))[i];
      var f := PutFold(pairs).entries[k];
      Assemble(rows, pairs, column, adjust).value[i] ==
        f.(values := f.values + Map(Filter(rows, OfGsp(k)), ValueMaker(f.location.installedCapacityMw, column, adjust)))
  {
    var d := PutFold(pairs);
    AttachValuesContents(d, rows, column, adjust, d.keys[i]);
  }

  /** The assembly succeeds when every national row has the column it reads. */
  lemma AssembleOk(rows: seq<ValueRow>, pairs: seq<(int, Forecast)>, column: nat,
                   adjust: ForecastValue -> ForecastValue)
    requires forall i :: 0 <= i < |rows| ==> !IndexFails(rows[i], column)
    ensures Assemble(rows, pairs, column, adjust).Ok?
  {
    AttachValuesError(PutFold(pairs), rows, column, adjust);
  }

  /** The assembly fails with IndexError when a national row lacks the
      column it reads and the national gsp has a forecast. */
  lemma AssembleFails(rows: seq<ValueRow>, pairs: seq<(int, Forecast)>, column: nat,
                      adjust: ForecastValue -> ForecastValue, i: int)
    requires 0 <= i < |rows| && IndexFails(rows[i], column)
    requires 0 in Keys(pairs)
    ensures Assemble(rows, pairs, column, adjust) == Err(IndexError)
  {
    PutFoldKeys(pairs, 0);
    AttachValuesError(PutFold(pairs), rows, column, adjust);
  }

  /** What a successful assembly returns: the i-th forecast belongs to the
      i-th distinct gsp with a selected historic forecast, is built from a
      selected record of that gsp, and holds exactly the rows of that gsp,
      in order, made into values. */
  lemma ForecastsSpec(rows: seq<ValueRow>, forecasts: seq<ForecastRecord>, gspIds: Option<seq<int>>,
                      column: nat, adjust: ForecastValue -> ForecastValue, i: int)
    requires Assemble(rows, ForecastPairs(forecasts, gspIds), column, adjust).Ok?
    requires 0 <= i < |FirstSeen(Keys(ForecastPairs(forecasts, gspIds)))|
    ensures var pairs := ForecastPairs(forecasts, gspIds);
      var k := FirstSeen(Keys(pairs))[i];
      var f := PutFold(pairs).entries[k];
      && f.location.gspId == k && GspSelected(k, gspIds)
      && (exists j :: 0 <= j < |forecasts| && ForecastSelected(gspIds)(forecasts[j]) && f == NewForecast(forecasts[j]))
      && Assemble(rows, pairs, column, adjust).value[i] ==
           f.(values := Map(Filter(rows, OfGsp(k)), ValueMaker(f.location.installedCapacityMw, column, adjust)))
  {
    var pairs := ForecastPairs(forecasts, gspIds);
    var k := FirstSeen(Keys(pairs))[i];
    FirstSeenMembers(Keys(pairs), i);
    PutFoldKeys(pairs, k);
    ForecastObject(forecasts, gspIds, k);
    AssembleContents(rows, pairs, column, adjust, i);
    var f := PutFold(pairs).entries[k];
    assert f.values + Map(Filter(rows, OfGsp(k)), ValueMaker(f.location.installedCapacityMw, column, adjust))
      == Map(Filter(rows, OfGsp(k)), ValueMaker(f.location.installedCapacityMw, column, adjust));
  }
}
