/**
 * The PV_Live reads of `nowcasting_api/database/pvlive.py`: the yield query
 * with its gsp, regime and datetime filters, and its two converters, one
 * grouping the yields by gsp and attaching each gsp's location, the other
 * transposing them into one gsp-to-generation dict per datetime.
 *
 * The tables are sequences of records and a query keeps, in table order,
 * the records its filters select.
 */
module PvLive {
  import opened Common
  import opened Models
  import opened Grouping
  import Utils

  /** A stored yield joined with the gsp id of its location. */
  datatype YieldRecord = YieldRecord(gspId: int, datetimeUtc: Instant, solarGenerationKw: real, regime: string)

  /** One row of the yield query: (datetime_utc, solar_generation_kw, gsp_id). */
  type YieldRow = (Instant, real, int)

  // ---------------------------------------------------------------------
  // get_gsp_yield_values

  /** A missing regime is "in-day". */
  function RegimeOrDefault(regime: Option<string>): (r: string)
    ensures regime.None? ==> r == "in-day"
    ensures regime.Some? ==> r == regime.value
  {
    if regime.None? then "in-day" else regime.value
  }

  /** The filters of the yield query: the gsp filter (every gsp but 0
      without a list), the regime, and the inclusive datetime bounds, the
      start always set. */
  function YieldSelected(gspIds: Option<seq<int>>, regime: string, start: Instant, end: Option<Instant>)
    : YieldRecord -> bool
  {
    (y: YieldRecord) => GspSelected(y.gspId, gspIds) && y.regime == regime
      && InWindow(y.datetimeUtc, Some(start), end)
  }

  function AsRow(y: YieldRecord): YieldRow
  {
    (y.datetimeUtc, y.solarGenerationKw, y.gspId)
  }

  function LocationSelected(gspIds: Option<seq<int>>): Location -> bool
  {
    (l: Location) => GspSelected(l.gspId, gspIds)
  }

  /** The two shapes of `get_gsp_yield_values`. */
  datatype GspYieldsResponse =
    | ByDatetime(groups: seq<(Instant, map<int, real>)>)
    | ByLocation(locations: seq<LocationWithYields>)

  /** `get_gsp_yield_values`: the start is `get_start_datetime(start)`, a
      missing regime is "in-day", the yields are read with the filters
      above, and converted to one of the two shapes; the locations are read
      with the same gsp filter. */
  method GetGspYieldValues(regime: Option<string>, start: Option<Instant>, end: Option<Instant>, compact: bool,
      gspIds: Option<seq<int>>, now: Instant, fallback: Instant,
      yieldTable: seq<YieldRecord>, locationTable: seq<Location>)
    returns (r: Result<GspYieldsResponse>)
    ensures var rows := Map(Filter(yieldTable, YieldSelected(gspIds, RegimeOrDefault(regime),
        Utils.GetStartDatetime(start, now, 3, fallback), end)), AsRow);
      && (compact ==> r == Ok(ByDatetime(Grouped(DatetimeCells(rows)))))
      && (!compact ==> r == (var l := LocationsWithGspYields(rows, Filter(locationTable, LocationSelected(gspIds)), RegimeOrDefault(regime));
            if l.Ok? then Ok(ByLocation(l.value)) else Err(l.error)))
  {
    var startUtc := Utils.GetStartDatetime(start, now, 3, fallback);
    var regimeName := if regime.None? then "in-day" else regime.value;
    var gspYields := Map(Filter(yieldTable, YieldSelected(gspIds, regimeName, startUtc, end)), AsRow);
    if compact {
      var groups := ConvertToGspYieldsGroupedByDatetimes(gspYields);
      return Ok(ByDatetime(groups));
    }
    var locations := Filter(locationTable, LocationSelected(gspIds));
    var withYields := ConvertToLocationsWithGspYields(gspYields, locations, regimeName);
    if withYields.Err? {
      return Err(withYields.error);
    }
    r := Ok(ByLocation(withYields.value));
  }

  /** Every row the query returns passes its filters. */
  lemma QueryRowsSelected(yieldTable: seq<YieldRecord>, gspIds: Option<seq<int>>, regime: string,
      start: Instant, end: Option<Instant>)
    ensures var rows := Map(Filter(yieldTable, YieldSelected(gspIds, regime, start, end)), AsRow);
      forall i :: 0 <= i < |rows| ==>
        && (gspIds.None? ==> rows[i].2 != 0)
        && (gspIds.Some? ==> rows[i].2 in gspIds.value)
        && start <= rows[i].0
        && (end.Some? ==> rows[i].0 <= end.value)
  {
    var kept := Filter(yieldTable, YieldSelected(gspIds, regime, start, end));
    forall i | 0 <= i < |kept|
      ensures YieldSelected(gspIds, regime, start, end)(kept[i])
    {
    }
  }

  // ---------------------------------------------------------------------
  // convert_to_locations_with_gsp_yields

  /** The yield built from a row, tagged with the row's gsp id. */
  function Tagged(gspYields: seq<YieldRow>, regime: string): (r: seq<(int, GspYield)>)
    ensures |r| == |gspYields|
    ensures forall i :: 0 <= i < |r| ==> r[i] == (gspYields[i].2, GspYield(gspYields[i].0, gspYields[i].1, regime))
  {
    seq(|gspYields|, i requires 0 <= i < |gspYields| =>
      (gspYields[i].2, GspYield(gspYields[i].0, gspYields[i].1, regime)))
  }

  function LocationPairs(locations: seq<Location>): (r: seq<(int, Location)>)
    ensures |r| == |locations|
    ensures forall i :: 0 <= i < |r| ==> r[i] == (locations[i].gspId, locations[i])
  {
    seq(|locations|, i requires 0 <= i < |locations| => (locations[i].gspId, locations[i]))
  }

  /** `{location.gsp_id: location for location in locations}`. */
  function ByGspId(locations: seq<Location>): map<int, Location>
  {
    PutFold(LocationPairs(locations)).entries
  }

  /** The last loop of the converter on the dict's items: a KeyError when
      some gsp has no location, otherwise each gsp's location and yields. */
  function Attach(items: seq<(int, seq<GspYield>)>, byId: map<int, Location>): (r: Result<seq<LocationWithYields>>)
    ensures r.Err? <==> exists i :: 0 <= i < |items| && items[i].0 !in byId
    ensures r.Err? ==> r.error == KeyError
    ensures r.Ok? ==> |r.value| == |items| && forall i :: 0 <= i < |items| ==>
      items[i].0 in byId && r.value[i] == LocationWithYields(byId[items[i].0], items[i].1)
  {
    if exists i | 0 <= i < |items| :: items[i].0 !in byId then Err(KeyError)
    else Ok(seq(|items|, i requires 0 <= i < |items| => LocationWithYields(byId[items[i].0], items[i].1)))
  }

  /** What `convert_to_locations_with_gsp_yields` returns: a KeyError when
      some gsp with yields has no location; otherwise, per gsp in
      first-seen order, its location and its yields. */
  function LocationsWithGspYields(gspYields: seq<YieldRow>, locations: seq<Location>, regime: string)
    : Result<seq<LocationWithYields>>
  {
    Attach(Items(AppendFold(Tagged(gspYields, regime))), ByGspId(locations))
  }

  /** `convert_to_locations_with_gsp_yields` as written: the location
      dict, the append loop, and the loop over its items. */
  method ConvertToLocationsWithGspYields(gspYields: seq<YieldRow>, locations: seq<Location>, regime: string)
    returns (r: Result<seq<LocationWithYields>>)
    ensures r == LocationsWithGspYields(gspYields, locations, regime)
  {
    var gspIdToLocation := PutFold(LocationPairs(locations)).entries;
    var grouped := GroupAppend(Tagged(gspYields, regime));
    var items := ItemsLoop(grouped);
    r := AttachLoop(items, gspIdToLocation);
  }

  method AttachLoop(items: seq<(int, seq<GspYield>)>, gspIdToLocation: map<int, Location>)
    returns (r: Result<seq<LocationWithYields>>)
    ensures r == Attach(items, gspIdToLocation)
  {
    var out: seq<LocationWithYields> := [];
    for i := 0 to |items|
      invariant |out| == i
      invariant forall j :: 0 <= j < i ==> items[j].0 in gspIdToLocation
      invariant forall j :: 0 <= j < i ==> out[j] == LocationWithYields(gspIdToLocation[items[j].0], items[j].1)
    {
      var (gspId, ys) := items[i];
      if gspId !in gspIdToLocation {
        assert Attach(items, gspIdToLocation).Err?;
        return Err(KeyError);
      }
      var location := gspIdToLocation[gspId];
      out := out + [LocationWithYields(location, ys)];
    }
    assert out == Attach(items, gspIdToLocation).value;
    r := Ok(out);
  }

  /** The gsp ids of the rows, in row order. */
  function GspIdsOf(gspYields: seq<YieldRow>): (r: seq<int>)
    ensures |r| == |gspYields|
    ensures forall i :: 0 <= i < |r| ==> r[i] == gspYields[i].2
  {
    seq(|gspYields|, i requires 0 <= i < |gspYields| => gspYields[i].2)
  }

  /** The location kept for a gsp id has that id. */
  lemma ByGspIdOwnId(locations: seq<Location>, k: int)
    requires k in ByGspId(locations)
    ensures ByGspId(locations)[k].gspId == k
    ensures ByGspId(locations)[k] in locations
  {
    var pairs := LocationPairs(locations);
    PutFoldValue(pairs, k);
  }

  /** The location kept for a gsp id is the last location with that id. */
  lemma ByGspIdLast(locations: seq<Location>, j: int)
    requires 0 <= j < |locations|
    requires forall l :: j < l < |locations| ==> locations[l].gspId != locations[j].gspId
    ensures locations[j].gspId in ByGspId(locations) && ByGspId(locations)[locations[j].gspId] == locations[j]
  {
    var pairs := LocationPairs(locations);
    assert LastKeyAt(pairs, j) by {
      forall l | j < l < |pairs|
        ensures pairs[l].0 != pairs[j].0
      {
        assert pairs[l].0 == locations[l].gspId;
      }
    }
    PutFoldLast(pairs, j);
  }

  lemma ByGspIdKeys(locations: seq<Location>, k: int)
    ensures k in ByGspId(locations) <==> exists i :: 0 <= i < |locations| && locations[i].gspId == k
  {
    var pairs := LocationPairs(locations);
    PutFoldKeys(pairs, k);
    assert Keys(pairs) == GspIdsOfLocations(locations);
  }

  function GspIdsOfLocations(locations: seq<Location>): (r: seq<int>)
    ensures |r| == |locations|
    ensures forall i :: 0 <= i < |r| ==> r[i] == locations[i].gspId
  {
    seq(|locations|, i requires 0 <= i < |locations| => locations[i].gspId)
  }

  /** The yields of gsp `k` are built from the rows of gsp `k`, in row order,
      each carrying the given regime. */
  lemma {:induction false} ItemsOfTagged(gspYields: seq<YieldRow>, regime: string, k: int)
    ensures ItemsOf(Tagged(gspYields, regime), k) == YieldsOfGsp(gspYields, regime, k)
  {
    if |gspYields| > 0 {
      var n := |gspYields| - 1;
      assert Tagged(gspYields, regime)[..n] == Tagged(gspYields[..n], regime);
      ItemsOfTagged(gspYields[..n], regime, k);
    }
  }

  /** Reference definition: the rows of gsp `k` made into yields. */
  function YieldsOfGsp(gspYields: seq<YieldRow>, regime: string, k: int): (r: seq<GspYield>)
    ensures forall y :: y in r ==> y.regime == regime
  {
    if |gspYields| == 0 then []
    else
      var n := |gspYields| - 1;
      var row := gspYields[n];
      if row.2 == k then YieldsOfGsp(gspYields[..n], regime, k) + [GspYield(row.0, row.1, regime)]
      else YieldsOfGsp(gspYields[..n], regime, k)
  }

  /** The dict of the append loop: one key per gsp with rows, in first-seen
      order, holding that gsp's yields. */
  lemma AppendFoldTagged(gspYields: seq<YieldRow>, regime: string)
    ensures var d := AppendFold(Tagged(gspYields, regime));
      && d.keys == FirstSeen(GspIdsOf(gspYields))
      && forall k :: k in d.entries ==> d.entries[k] == YieldsOfGsp(gspYields, regime, k)
  {
    var tagged := Tagged(gspYields, regime);
    var d := AppendFold(tagged);
    assert Keys(tagged) == GspIdsOf(gspYields);
    forall k | k in d.entries
      ensures d.entries[k] == YieldsOfGsp(gspYields, regime, k)
    {
      assert d.entries[k] == ItemsOf(tagged, k) by {
        AppendFoldContents(tagged);
      }
      ItemsOfTagged(gspYields, regime, k);
    }
  }

  /** The converter raises a KeyError exactly when some row's gsp has no
      location. */
  lemma LocationsWithGspYieldsError(gspYields: seq<YieldRow>, locations: seq<Location>, regime: string)
    ensures var r := LocationsWithGspYields(gspYields, locations, regime);
      && (r.Err? <==> exists k :: 0 <= k < |gspYields| && gspYields[k].2 !in ByGspId(locations))
      && (r.Err? ==> r.error == KeyError)
  {
    var items := Items(AppendFold(Tagged(gspYields, regime)));
    var byId := ByGspId(locations);
    if exists k :: 0 <= k < |gspYields| && gspYields[k].2 !in byId {
      var k :| 0 <= k < |gspYields| && gspYields[k].2 !in byId;
      MissingGspItem(gspYields, regime, byId, k);
    }
    if exists i :: 0 <= i < |items| && items[i].0 !in byId {
      var i :| 0 <= i < |items| && items[i].0 !in byId;
      MissingItemGsp(gspYields, regime, byId, i);
    }
  }

  /** The keys of the grouped yields are the gsp ids in first-seen order. */
  lemma ItemKeys(gspYields: seq<YieldRow>, regime: string)
    ensures var items := Items(AppendFold(Tagged(gspYields, regime)));
      var ids := FirstSeen(GspIdsOf(gspYields));
      |items| == |ids| && forall i :: 0 <= i < |items| ==> items[i].0 == ids[i]
  {
    var d := AppendFold(Tagged(gspYields, regime));
    assert d.keys == FirstSeen(GspIdsOf(gspYields)) by {
      AppendFoldTagged(gspYields, regime);
    }
  }

  /** A row whose gsp has no location gives an item without one. */
  lemma MissingGspItem(gspYields: seq<YieldRow>, regime: string, byId: map<int, Location>, k: int)
    requires 0 <= k < |gspYields| && gspYields[k].2 !in byId
    ensures var items := Items(AppendFold(Tagged(gspYields, regime)));
      exists i :: 0 <= i < |items| && items[i].0 !in byId
  {
    var items := Items(AppendFold(Tagged(gspYields, regime)));
    var ids := FirstSeen(GspIdsOf(gspYields));
    ItemKeys(gspYields, regime);
    assert GspIdsOf(gspYields)[k] in ids;
    var i := IndexOf(ids, gspYields[k].2);
    assert items[i].0 !in byId;
  }

  /** An item without a location comes from a row whose gsp has none. */
  lemma MissingItemGsp(gspYields: seq<YieldRow>, regime: string, byId: map<int, Location>, i: int)
    requires var items := Items(AppendFold(Tagged(gspYields, regime)));
      0 <= i < |items| && items[i].0 !in byId
    ensures exists k :: 0 <= k < |gspYields| && gspYields[k].2 !in byId
  {
    var ids := FirstSeen(GspIdsOf(gspYields));
    ItemKeys(gspYields, regime);
    FirstSeenMembers(GspIdsOf(gspYields), i);
    var k :| 0 <= k < |gspYields| && GspIdsOf(gspYields)[k] == ids[i];
    assert gspYields[k].2 !in byId;
  }

  /** Without an error: one entry per gsp with rows, in first-seen order,
      holding the last location with that gsp id and the gsp's yields in
      row order, each with the given regime. */
  lemma LocationsWithGspYieldsContents(gspYields: seq<YieldRow>, locations: seq<Location>, regime: string)
    ensures var r := LocationsWithGspYields(gspYields, locations, regime);
      r.Ok? ==> var ids := FirstSeen(GspIdsOf(gspYields));
        && |r.value| == |ids|
        && forall i :: 0 <= i < |ids| ==>
             && ids[i] in ByGspId(locations)
             && r.value[i].location == ByGspId(locations)[ids[i]]
             && r.value[i].location.gspId == ids[i]
             && r.value[i].location in locations
             && r.value[i].gspYields == YieldsOfGsp(gspYields, regime, ids[i])
  {
    var d := AppendFold(Tagged(gspYields, regime));
    var items := Items(d);
    var byId := ByGspId(locations);
    var ids := FirstSeen(GspIdsOf(gspYields));
    var r := Attach(items, byId);
    assert d.keys == ids && forall k :: k in d.entries ==> d.entries[k] == YieldsOfGsp(gspYields, regime, k) by {
      AppendFoldTagged(gspYields, regime);
    }
    if r.Ok? {
      forall i | 0 <= i < |ids|
        ensures ids[i] in byId
        ensures r.value[i].location == byId[ids[i]]
        ensures byId[ids[i]].gspId == ids[i] && byId[ids[i]] in locations
        ensures r.value[i].gspYields == YieldsOfGsp(gspYields, regime, ids[i])
      {
        assert items[i] == (ids[i], d.entries[ids[i]]);
        ByGspIdOwnId(locations, ids[i]);
      }
    }
  }

  /** When every gsp of the rows has a location (the query joins each yield
      to its location), the converter does not fail. */
  lemma JoinedRowsConvert(gspYields: seq<YieldRow>, locations: seq<Location>, regime: string)
    requires forall k :: 0 <= k < |gspYields| ==> exists i :: 0 <= i < |locations| && locations[i].gspId == gspYields[k].2
    ensures LocationsWithGspYields(gspYields, locations, regime).Ok?
  {
    forall k | 0 <= k < |gspYields|
      ensures gspYields[k].2 in ByGspId(locations)
    {
      ByGspIdKeys(locations, gspYields[k].2);
    }
    LocationsWithGspYieldsError(gspYields, locations, regime);
  }

  // ---------------------------------------------------------------------
  // convert_to_gsp_yields_grouped_by_datetimes

  /** The rows as (datetime, gsp id, generation) cells. */
  function DatetimeCells(gspYields: seq<YieldRow>): (r: seq<Cell<Instant, int, real>>)
    ensures |r| == |gspYields|
    ensures forall i :: 0 <= i < |r| ==> r[i] == Cell(gspYields[i].0, gspYields[i].2, gspYields[i].1)
  {
    seq(|gspYields|, i requires 0 <= i < |gspYields| => Cell(gspYields[i].0, gspYields[i].2, gspYields[i].1))
  }

  /** `convert_to_gsp_yields_grouped_by_datetimes`: the transposition loop. */
  method ConvertToGspYieldsGroupedByDatetimes(gspYields: seq<YieldRow>) returns (r: seq<(Instant, map<int, real>)>)
    ensures r == Grouped(DatetimeCells(gspYields))
  {
    r := GroupRows(DatetimeCells(gspYields));
  }

  /** Row k is the last row with its (datetime, gsp id) pair. */
  predicate LastRowAt(gspYields: seq<YieldRow>, k: int)
  {
    0 <= k < |gspYields| && forall l :: k < l < |gspYields| ==>
      !(gspYields[l].0 == gspYields[k].0 && gspYields[l].2 == gspYields[k].2)
  }

  /** One entry per distinct datetime, in first-seen order. */
  lemma GroupedByDatetimesOrder(gspYields: seq<YieldRow>)
    ensures var g := Grouped(DatetimeCells(gspYields));
      var ts := FirstSeen(Outers(DatetimeCells(gspYields)));
      |g| == |ts| && forall i :: 0 <= i < |g| ==> g[i].0 == ts[i]
  {
    GroupedSpec(DatetimeCells(gspYields));
  }

  /** Each entry maps exactly the gsps with a row at its datetime. */
  lemma GroupedByDatetimesMembers(gspYields: seq<YieldRow>, i: int, gsp: int)
    requires 0 <= i < |Grouped(DatetimeCells(gspYields))|
    ensures var g := Grouped(DatetimeCells(gspYields));
      gsp in g[i].1 <==> exists k :: 0 <= k < |gspYields| && gspYields[k].0 == g[i].0 && gspYields[k].2 == gsp
  {
    var cells := DatetimeCells(gspYields);
    var g := Grouped(cells);
    assert gsp in g[i].1 <==> Occurs(cells, g[i].0, gsp) by {
      GroupedSpec(cells);
    }
    if Occurs(cells, g[i].0, gsp) {
      var k :| 0 <= k < |cells| && cells[k].outer == g[i].0 && cells[k].inner == gsp;
      assert gspYields[k].0 == g[i].0 && gspYields[k].2 == gsp;
    }
    if exists k :: 0 <= k < |gspYields| && gspYields[k].0 == g[i].0 && gspYields[k].2 == gsp {
      var k :| 0 <= k < |gspYields| && gspYields[k].0 == g[i].0 && gspYields[k].2 == gsp;
      assert cells[k].outer == g[i].0 && cells[k].inner == gsp;
    }
  }

  /** A later (datetime, gsp) row overwrites an earlier one: each gsp maps
      to the generation of the last row with its datetime and gsp. */
  lemma GroupedByDatetimesLastWins(gspYields: seq<YieldRow>, i: int, k: int)
    requires 0 <= i < |Grouped(DatetimeCells(gspYields))|
    requires LastRowAt(gspYields, k) && gspYields[k].0 == Grouped(DatetimeCells(gspYields))[i].0
    ensures var g := Grouped(DatetimeCells(gspYields));
      gspYields[k].2 in g[i].1 && g[i].1[gspYields[k].2] == gspYields[k].1
  {
    var cells := DatetimeCells(gspYields);
    assert LastAt(cells, k);
    GroupedSpec(cells);
  }
}
