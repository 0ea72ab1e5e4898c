# uk-pv-national-gsp-api, modelled in Dafny

This project models the core of the UK PV national and GSP API. The API
serves solar generation forecasts and PV_Live "truth" values for the
national grid (gsp 0) and the 317 grid supply points (GSPs).

The model covers:

- the request caches: the in-process response cache in `src/cache.py` and
  the key builder of the fastapi-cache setup in `nowcasting_api/cache.py`;
- the time floors and the other utilities (start defaults, plevel
  formatting, window filtering, the trace sampler);
- the database read functions of the current module, the legacy module,
  the optimised modules and the one-forecast module. Each is modelled as
  which rows it selects and how it reshapes them;
- the `{datetime: {gsp: value}}` converters;
- the gsp, national and status routes of both packages.

There is no database. A table is a sequence of records, a query is a
filter over it, and the read functions take those sequences (or a read
function from a query description to rows) as parameters. The clock
(`now`), environment settings and the datamodel methods the source calls
(`ForecastValue.adjust`, `ManyForecasts.normalize`, `from_orm`) are also
parameters. Python dicts are modelled by `Grouping.Dict`, a map plus its
key order, because the converters' output order is the dict's insertion
order. Instants are integers counting microseconds, and field extraction
is Euclidean, as in Python's `datetime`.

All loops that build a result, in both the routes and the converters,
are written as methods. Each method is proved equal to a specification
function, and the properties are lemmas about that function. Three
objects change state in place, so they are classes with `modifies`
frames: the response cache (`ResponseCache.ResponseCache`), the database
session that logs API calls (`Database.Session`), and the stored
input-data times (`Status.InputDataStore`). The back-fill of the legacy
reader and the adjustment of the first national forecast in the gsp route
work in place on an `array`.

Where two files hold identical code, it is modelled once:

- the floors of `nowcasting_api/utils.py` and `src/utils.py`;
- `get_gsp_system` and `save_api_call_to_db` of `nowcasting_api/database.py`
  and `nowcasting_api/database/database_legacy.py`;
- `get_forecast_values_all_compact` of `nowcasting_api/database_fast.py`
  and `nowcasting_api/database/v2_foreacst.py`.

## Model

| member | source | states |
|---|---|---|
| `ApiCache.GenerateCacheKey` | nowcasting_api/cache.py:38-51 | the key keeps the request path, and its parameter list is sorted and a permutation of the request's query items |
| `ApiCache.Sort` | nowcasting_api/cache.py:48 | `sorted(...)` returns a sorted list with the same elements (multiset) as its input |
| `ApiCache.SortedUnique` | nowcasting_api/cache.py:47-48 | two sorted lists holding the same elements are equal, so the sorted items do not depend on the original order |
| `ApiCache.SameKeyIff` | nowcasting_api/cache.py:47-49 | two requests share a cache key if and only if they have the same path and the same parameter map |
| `ApiCache.ReorderedSameKey` | nowcasting_api/cache.py:48-49 | the same distinct parameters in any order give the same key |
| `ApiCache.ExtraParameterNewKey` | nowcasting_api/cache.py:49 | adding a parameter that is new, or that changes a value, gives a different key, so such a request misses the cache |
| `ApiCache.CacheResponse` | nowcasting_api/cache.py:70-89 | expiry is the given one, or else the configured `CACHE_TIME_SECONDS`; the namespace is "api"; the key builder is `generate_cache_key` |
| `ApiCache.EnvSeconds` | nowcasting_api/cache.py:16-17 | an unset variable gives the default; a failing read is a ValueError of a set variable |
| `ApiCache.EnvSecondsRendered` | nowcasting_api/cache.py:16-17 | a variable set to the text of a number configures that number |
| `ApiCache.ConfiguredExpiry` | nowcasting_api/cache.py:70-87 | without an expiration a response lives for the configured default, whatever it is; an explicit expiration overrides it |
| `ApiCache.DefaultExpiry` | nowcasting_api/cache.py:16 | 120 seconds when the variable is unset, `n` when it is set to the text of `n` |
| `ApiCache.SaveApiCall` | nowcasting_api/cache.py:54-67 | returns the request unchanged and commits exactly one API-request row with its URL and the caller's email |
| `ResponseCache.RouteKey` | src/cache.py:84-95 | the route key is the keyword arguments without the session, user and request handles, every other argument kept |
| `ResponseCache.HandlesIgnored` | src/cache.py:92-95 | inserting a handle argument anywhere in the arguments leaves the key unchanged |
| `ResponseCache.RemoveOldCache` | src/cache.py:23-55 | afterwards `last_updated` holds exactly the non-expired entries and `response` loses exactly the keys whose timestamp expired |
| `ResponseCache.PopKeys` | src/cache.py:45-48 | popping the listed keys removes exactly those keys from both maps; a missing response is skipped, not an error |
| `ResponseCache.SweepExact` | src/cache.py:33-48 | the sweep keeps the two maps in step and removes exactly the expired keys, leaving every other entry unchanged |
| `ResponseCache.ResponseCache.constructor` | src/cache.py:72-74 | a decorated route starts with empty response, timestamp and running maps and an empty call log |
| `ResponseCache.ResponseCache.AwaitRunner` | src/cache.py:114-129 | the wait loop returns the cached response exactly when the route stopped running and left one; otherwise it polls the full number of attempts |
| `ResponseCache.ResponseCache.AwaitResponse` | src/cache.py:165-175 | the poll loop stops after one attempt when a response other than None is stored, and otherwise runs out its attempts |
| `ResponseCache.ResponseCache.RunRoute` | src/cache.py:138-141 | marking the key running, storing the route's result, marking it idle and stamping it keeps the maps in step |
| `ResponseCache.ResponseCache.Dispatch` | src/cache.py:113-190 | branches 1.0 to 1.4 change the store and return exactly as the specification step `Decide` says |
| `ResponseCache.ResponseCache.Call` | src/cache.py:77-190 | one call appends its arguments to the call log, keeps the maps in step, and ends in the state and outcome of the specification step `Step` |
| `ResponseCache.FirstCall` | src/cache.py:132-143 | a key that was never cached runs the route once, returns its result, stores it stamped with the time the route returned, and leaves the key idle |
| `ResponseCache.FreshHit` | src/cache.py:188-190 | inside the cache time, a stored response other than None is served without running the route, and its entry is unchanged |
| `ResponseCache.StaleEntryRerun` | src/cache.py:146-160 | an entry older than the cache time but not yet evicted is recomputed and stamped with this call's time |
| `ResponseCache.DefaultStaleOrEvicted` | src/cache.py:15-18 | with the default 120 s and 240 s, an entry more than 120 s old is rerun while it is under 240 s old, and computed as a first call after that |
| `ResponseCache.NoneNeverServed` | src/cache.py:163-186 | a stored None is never served as a hit; the call sleeps through every attempt and then reruns the route |
| `ResponseCache.EmptyEntryRerun` | src/cache.py:162-175 | a fresh entry holding None takes branch 1.3: it polls every attempt, reruns, and stamps the call time |
| `ResponseCache.StepKeepsInvariants` | src/cache.py:132-186 | every call keeps the two maps in step and leaves an idle store idle; any call that ran the route leaves its key idle |
| `ResponseCache.SequentialRunNeverWaits` | src/cache.py:113-143 | in any sequence of calls from an idle store, every call is served; none waits on another runner, and only branch 1.3 sleeps |
| `TimeFloor.Floor30MinutesFields` | nowcasting_api/utils.py:36-41 | the date and hour are kept, the minute becomes 0 or 30, and seconds and microseconds become 0 |
| `TimeFloor.ZeroBelowHour` | nowcasting_api/utils.py:37-39 | the replacements keep date, hour and minute and zero the seconds and microseconds |
| `TimeFloor.Floor30MinutesIdempotent` | nowcasting_api/utils.py:25-42 | flooring to the half hour twice is flooring once |
| `TimeFloor.Floor6HoursFields` | nowcasting_api/utils.py:56-61 | the date is kept; the hour becomes the largest of 0, 6, 12 and 18 not above it; the rest becomes 0 |
| `TimeFloor.Floor30MinutesBounds` | src/utils.py:27-31 | the result is the last half-hour boundary at or before the input: at most the input, less than 30 minutes earlier |
| `TimeFloor.Floor6HoursBounds` | src/utils.py:47-52 | the result is the last six-hour boundary at or before the input and is its own floor |
| `TimeFloor.ZeroBelowDay` | src/utils.py:48-51 | the replacements keep the date and zero the hour, minute, second and microsecond |
| `Utils.GetStartDatetime` | nowcasting_api/utils.py:103-121 | a given start at most `days` days old is returned unchanged; a missing or older start gives the default start |
| `Utils.GetStartDatetimeRecent` | nowcasting_api/utils.py:105 | a recent start survives every window of at least as many days |
| `Utils.GetStartDatetimeSrc` | src/utils.py:57-81 | the older function always gives the default start, which is the current function's answer without a start |
| `Utils.TracesSampler` | nowcasting_api/utils.py:124-143 | the rate is 0 in the local environment, 1 for a transaction whose name contains "error", and 0.05 or 0 by the parent's decision otherwise; a missing name or parent decision is an error |
| `Utils.TracesSamplerExamples` | nowcasting_api/utils.py:133-143 | the rates of the four documented cases |
| `Utils.FormatPlevels` | nowcasting_api/utils.py:146-180 | the result has both named levels set and no raw keys; a missing or empty dict gives 0.8 and 1.2 times the power; a raw None is a TypeError and a level under neither name is a KeyError; each level comes from its raw key, then its named key, then its default |
| `Utils.FormatPlevelsLoop` | nowcasting_api/utils.py:170-180 | the rename loop followed by the two default fills computes `FormatPlevels` |
| `Utils.TwoFilters` | nowcasting_api/utils.py:201-212 | the start comprehension followed by the end comprehension keeps exactly the values in the inclusive window |
| `Utils.FilterForecastValues` | nowcasting_api/utils.py:183-217 | the loop computes the reference `FilteredForecasts` |
| `Utils.FilteredForecastsSpec` | nowcasting_api/utils.py:196-217 | without bounds the forecasts come back unchanged; each forecast's values become exactly the filter of its values by the inclusive window (so in order, with each duplicate kept as often as it occurs), and every other field is unchanged |
| `Models.SevenDayTable` | nowcasting_api/database.py:391-400 | the full table is read exactly when the creation limit, or else the start, lies more than seven days ago; otherwise the seven-day table |
| `Dummy.DummyForecastShape` | src/dummy.py:19-48 | four zero values on consecutive half hours from the half hour holding `now`, created half an hour before the first, every input time that half hour |
| `Dummy.DummyTimesIncreasing` | src/dummy.py:28 | the dummy target times are strictly increasing |
| `Dummy.DummyNationalForecast` | src/dummy.py:51-63 | the national dummy carries the national label and region and is the location dummy for that location |
| `Grouping.GroupRows` | nowcasting_api/database/v2_foreacst.py:269-292 | the dict loop of the compact converters followed by its items computes the reference `Grouped` |
| `Grouping.GroupedSpec` | nowcasting_api/database_fast.py:86-108 | one entry per distinct target time, in first-seen order; each maps exactly the gsps seen at that time, each to the value of the last such row |
| `Grouping.ItemsLoop` | src/pydantic_models.py:110-116 | the items loop lists the dict's entries in insertion order |
| `Grouping.GroupAppend` | nowcasting_api/database/pvlive.py:126-130 | the append loop builds the dict whose keys come in first-seen order, each holding its rows |
| `Grouping.PutLoop` | nowcasting_api/database_fast.py:254 | the loop of `d[key] = value` builds the dict where each key holds the value of its last pair |
| `Grouping.ValuesLoop` | nowcasting_api/database_fast.py:288 | `list(d.values())` lists the values in key order |
| `Decimal.ParseInt` | nowcasting_api/gsp.py:92 | `int()` on ASCII text; a failure is a ValueError |
| `Decimal.RenderRoundTrip` | nowcasting_api/gsp.py:92 | `int(str(n)) == n` for every int |
| `Decimal.SplitJoin` | nowcasting_api/gsp.py:91-92 | splitting a comma join of comma-free pieces gives the pieces back |
| `PydanticModels.ConvertLocationSqlToManyDatetimeManyGeneration` | src/pydantic_models.py:94-118 | the nested loops and the items loop compute the grouping of every location's yields |
| `PydanticModels.ConvertLocationsSpec` | src/pydantic_models.py:94-116 | one entry per distinct yield datetime in first-seen order; each maps `str(gsp_id)` exactly for the locations with a yield then, the last duplicate winning |
| `PydanticModels.ConvertLocationsPairs` | src/pydantic_models.py:97-107 | the (datetime, gsp) pairs listed are exactly the distinct pairs of the input |
| `PydanticModels.LocationCellsOccur` | src/pydantic_models.py:97-100 | a datetime and key occur together exactly when some location with that `str(gsp_id)` has a yield at that datetime |
| `PydanticModels.AdjustNational` | src/pydantic_models.py:158-168 | the national value is never negative |
| `PydanticModels.AdjustNationalClamp` | src/pydantic_models.py:160-168 | for a non-negative limit the value is max(0, mw − clamp(adjust_mw, −limit, limit)), max(0, mw) with the default limit 0, and mw − adjust_mw when that is in range |
| `PydanticModels.ForecastMw` | src/pydantic_models.py:155-170 | national values are adjusted and non-negative; other gsps keep their power |
| `PydanticModels.ConvertForecastsToManyDatetimeManyGeneration` | src/pydantic_models.py:138-187 | the nested loops with both `continue`s and the adjustment, followed by the items loop, compute the grouping of the kept values |
| `PydanticModels.ForecastCellsOccur` | src/pydantic_models.py:143-153 | a time and key occur together exactly when the time is in the window and some forecast with that `str(gsp_id)` has a chosen value then (latest values when historic) |
| `PydanticModels.ForecastsInWindow` | src/pydantic_models.py:150-153 | every datetime of the output lies in the window |
| `PydanticModels.ForecastsNationalNonNegative` | src/pydantic_models.py:158-168 | no national value of the output is negative |
| `PydanticModels.ConvertForecastsSpec` | src/pydantic_models.py:141-185 | one entry per distinct kept target time, in first-seen order and inside the window; each maps `str(gsp_id)` exactly for the forecasts with a chosen value then; the last duplicate wins; national values are non-negative |
| `PvLive.RegimeOrDefault` | nowcasting_api/database/pvlive.py:34-35 | a missing regime is "in-day", a given one is kept |
| `PvLive.QueryRowsSelected` | nowcasting_api/database/pvlive.py:47-63 | every row read passes the gsp filter (no list excludes gsp 0), lies at or after the start and at or before a given end |
| `PvLive.GetGspYieldValues` | nowcasting_api/database/pvlive.py:33-98 | the yields are read from the given start (checked by `get_start_datetime`) with the default regime, and converted to the compact grouping or to locations with yields |
| `PvLive.Tagged` | nowcasting_api/database/pvlive.py:115-124 | each row becomes one `GSPYield` with its datetime, generation and the regime, tagged with its gsp id, in order |
| `PvLive.Attach` | nowcasting_api/database/pvlive.py:133-145 | the items loop fails with KeyError exactly when some gsp has no location, and otherwise pairs each gsp's location with its yields |
| `PvLive.AttachLoop` | nowcasting_api/database/pvlive.py:132-146 | the items loop computes `Attach` |
| `PvLive.ConvertToLocationsWithGspYields` | nowcasting_api/database/pvlive.py:101-146 | the dict, the append loop and the items loop compute the reference `LocationsWithGspYields` |
| `PvLive.ByGspIdOwnId` | nowcasting_api/database/pvlive.py:113 | the location kept for an id has that id and is one of the locations |
| `PvLive.ByGspIdLast` | nowcasting_api/database/pvlive.py:112-113 | a later location with the same id replaces an earlier one |
| `PvLive.ByGspIdKeys` | nowcasting_api/database/pvlive.py:110-113 | the dict's keys are exactly the locations' ids |
| `PvLive.ItemsOfTagged` | nowcasting_api/database/pvlive.py:127-130 | the yields grouped under gsp k are the rows of gsp k, in row order |
| `PvLive.AppendFoldTagged` | nowcasting_api/database/pvlive.py:126-130 | one key per gsp with rows, in first-seen order, holding that gsp's yields |
| `PvLive.LocationsWithGspYieldsError` | nowcasting_api/database/pvlive.py:134 | the converter raises KeyError exactly when some row's gsp has no location |
| `PvLive.LocationsWithGspYieldsContents` | nowcasting_api/database/pvlive.py:127-145 | without an error, one entry per gsp in first-seen order, with the last location of that id and that gsp's yields in row order |
| `PvLive.JoinedRowsConvert` | nowcasting_api/database/pvlive.py:48-54 | when every yield row's gsp has a location (as the join guarantees), the converter does not fail |
| `PvLive.ConvertToGspYieldsGroupedByDatetimes` | nowcasting_api/database/pvlive.py:149-174 | the transposition loop computes the grouping of rows by datetime |
| `PvLive.GroupedByDatetimesOrder` | nowcasting_api/database/pvlive.py:164-173 | one entry per distinct datetime, in first-seen order |
| `PvLive.GroupedByDatetimesMembers` | nowcasting_api/database/pvlive.py:164-167 | each entry maps exactly the gsps with a row at its datetime |
| `PvLive.GroupedByDatetimesLastWins` | nowcasting_api/database/pvlive.py:167 | a later row with the same (datetime, gsp) overwrites an earlier one |
| `LatestValues.Columns` | nowcasting_api/database/v2_foreacst.py:353-360 | a row carries target time, power and gsp id, plus `adjust_mw` exactly when it is asked for |
| `LatestValues.Query` | nowcasting_api/database_fast.py:45-71 | at most one row per record, and every row's time lies in the window |
| `LatestValues.QueryRow` | nowcasting_api/database_fast.py:45-71 | every row read is a blend record in the window that passes the gsp filter |
| `LatestValues.QueryComplete` | nowcasting_api/database_fast.py:62-71 | every record that passes the filters is read |
| `LatestValues.CompactCells` | nowcasting_api/database_fast.py:86-91 | each row contributes its (target time, gsp, power) triple, in order |
| `LatestValues.GetForecastValuesAllCompact` | nowcasting_api/database/v2_foreacst.py:242-292 | the compact answer is the grouping by target time of the selected latest rows |
| `LatestValues.CompactSelected` | nowcasting_api/database_fast.py:83-108 | every compact entry is a time in the window, and every gsp it maps passes the gsp filter |
| `LatestValues.NewForecast` | nowcasting_api/database_fast.py:226-253 | the forecast object of a record keeps its location, model and times, is historic, and has no values |
| `LatestValues.ForecastObject` | nowcasting_api/database_fast.py:219-254 | every forecast object belongs to a selected record of its own gsp and holds no values yet |
| `LatestValues.ForecastObjectLast` | nowcasting_api/database_fast.py:254 | the object of a gsp is built from its last selected record |
| `LatestValues.Normalized` | nowcasting_api/database_fast.py:268-273 | power divided by capacity when the capacity is positive, otherwise the power |
| `LatestValues.MakeValue` | nowcasting_api/database_fast.py:262-283 | a non-national value keeps the row's time and power and gets its normalised power |
| `LatestValues.AttachValues` | nowcasting_api/database_fast.py:257-285 | the value loop keeps the dict's keys and order, and the only error is IndexError |
| `LatestValues.AttachLoop` | nowcasting_api/database/v2_foreacst.py:458-484 | the value loop computes `AttachValues` |
| `LatestValues.AttachValuesErrSticks` | nowcasting_api/database_fast.py:281-282 | once the value loop has raised, the whole loop has raised |
| `LatestValues.AttachValuesError` | nowcasting_api/database_fast.py:281-283 | the value loop fails exactly when the national gsp has an object and some national row lacks the adjust column |
| `LatestValues.AttachValuesStep` | nowcasting_api/database_fast.py:265-285 | one row changes only its own gsp's object, and only by appending its value |
| `LatestValues.AttachValuesContents` | nowcasting_api/database/v2_foreacst.py:459-484 | each object ends with its own values followed by its gsp's rows as values, in order, and nothing else of it changes |
| `LatestValues.Assemble` | nowcasting_api/database/v2_foreacst.py:420-487 | on success one forecast per distinct gsp with a forecast; the only error is IndexError |
| `LatestValues.AssembleLoop` | nowcasting_api/database_fast.py:218-288 | steps 4 to 6 as written compute `Assemble` |
| `LatestValues.AssembleContents` | nowcasting_api/database/v2_foreacst.py:487 | the i-th forecast returned is the object of the i-th distinct gsp with its gsp's rows appended as values |
| `LatestValues.AssembleOk` | nowcasting_api/database/v2_foreacst.py:480-482 | when no national row lacks the column it reads, the assembly succeeds |
| `LatestValues.AssembleFails` | nowcasting_api/database_fast.py:145-150 | a national row lacking the column it reads, while the national gsp has a forecast, makes the assembly raise IndexError |
| `LatestValues.ForecastsSpec` | nowcasting_api/database_fast.py:219-288 | the i-th forecast belongs to the i-th distinct selected gsp, comes from a selected historic blend record of that gsp, and holds exactly that gsp's rows as values, in order |
| `V2Forecast.FilterGspId` | nowcasting_api/database/v2_foreacst.py:295-302 | with no list every row except gsp 0 is kept; with a list exactly the rows of the listed gsps |
| `V2Forecast.FilterStartAndEnd` | nowcasting_api/database/v2_foreacst.py:305-316 | exactly the rows inside the inclusive bounds, each bound applied when it is given |
| `V2Forecast.FiltersKeepOrder` | nowcasting_api/database/v2_foreacst.py:300-316 | both filters keep the order of the rows they keep |
| `V2Forecast.QueryIsFilterChain` | nowcasting_api/database/v2_foreacst.py:209-238 | the latest-values query is the model filter, then the window filter, then the gsp filter |
| `V2Forecast.CreationBounds` | nowcasting_api/database/v2_foreacst.py:93-106 | the upper creation bound is the limit (or now) and the lower is two days before the start, each moved back by the horizon |
| `V2Forecast.CreationWindowWidth` | nowcasting_api/database/v2_foreacst.py:94-106 | the horizon shifts both bounds equally, so the window's width does not depend on it, and a non-negative horizon only lowers the lower bound |
| `V2Forecast.PlanNational` | nowcasting_api/database/v2_foreacst.py:64-141 | the latest table is read exactly when neither horizon nor limit is given; otherwise the seven-day rule table, from the checked start, with the creation bounds |
| `V2Forecast.FormatEach` | nowcasting_api/database/v2_foreacst.py:184-185 | formatting each latest value gives the values with default plevels |
| `V2Forecast.GetNationalForecastValues` | nowcasting_api/database/v2_foreacst.py:50-187 | the national values are the past values of the planned read, or the latest national values when there is no plan |
| `V2Forecast.HistoryValuesSelected` | nowcasting_api/database/v2_foreacst.py:109-141 | every past value comes from a gsp 0 row of the model, targeted inside the window, created inside the creation bounds, at least `horizon` minutes ahead |
| `V2Forecast.LatestNationalSelected` | nowcasting_api/database/v2_foreacst.py:169-182 | every latest value is a gsp 0 blend value in the window with plevels 0.8 and 1.2 times its power |
| `V2Forecast.NationalHorizonRead` | nowcasting_api/database/v2_foreacst.py:94-99 | with a horizon h and no limit, values are created at most h minutes before now, and a start within the last year is kept |
| `V2Forecast.WithAdjust` | nowcasting_api/database/v2_foreacst.py:359-360 | `adjust_mw` is read exactly when gsp 0 is among the requested ids |
| `V2Forecast.NationalNeedsAdjust` | nowcasting_api/database/v2_foreacst.py:353-374 | gsp 0 passes the gsp filter exactly when the adjust column is read |
| `V2Forecast.GetForecastsAndForecastValues` | nowcasting_api/database/v2_foreacst.py:319-487 | the forecasts are the assembly of the selected rows (adjust read from column 3) with the selected historic blend forecasts |
| `V2Forecast.ForecastsAndValuesOk` | nowcasting_api/database/v2_foreacst.py:480-482 | this read never fails, because a national row is read together with its adjust column |
| `DatabaseFast.GetForecasts` | nowcasting_api/database_fast.py:111-288 | as written: four-column rows, a national row adjusted with column 4 |
| `DatabaseFast.SelectedForecastKey` | nowcasting_api/database_fast.py:204-254 | every selected forecast record gives its gsp a forecast object |
| `DatabaseFast.NationalIndexError` | nowcasting_api/database_fast.py:281-283 | as written, once a national row and a national forecast are selected, the read raises IndexError |
| `DatabaseFast.GetForecastsCorrected` | nowcasting_api/database_fast.py:141-288 | the corrected read adjusts a national row with its `adjust_mw`, column 3 |
| `DatabaseFast.CorrectedForecastsOk` | nowcasting_api/database_fast.py:145-150 | the corrected read never fails |
| `ForecastOne.ChooseTable` | nowcasting_api/database/forecast_one.py:118-128 | the latest table exactly when neither horizon nor limit is given; otherwise the seven-day rule |
| `ForecastOne.RawForecastValues` | nowcasting_api/database/forecast_one.py:90-171 | the corrected read (see Findings): at most one value per row of the chosen table, each in the window |
| `ForecastOne.RawValuesSelected` | nowcasting_api/database/forecast_one.py:131-171 | with the window on the chosen table, every raw value is the time and power of a row of the gsp and model in the window |
| `ForecastOne.RawValuesComplete` | nowcasting_api/database/forecast_one.py:145-161 | with the window on the chosen table, every selected row of that table is read |
| `ForecastOne.RawForecastValuesAsWritten` | nowcasting_api/database/forecast_one.py:145-186 | as written, with another table than the latest: nothing when no latest row lies in the window, and otherwise every row of the gsp and model, whatever its target time |
| `ForecastOne.AsWrittenLatestAgrees` | nowcasting_api/database/forecast_one.py:121-157 | without horizon and limit the written read is the corrected one |
| `ForecastOne.OutOfWindowRead` | nowcasting_api/database/forecast_one.py:152-166 | with a horizon, a seven-day row before the start is returned as written, and not by the corrected read |
| `ForecastOne.ToForecastValues` | nowcasting_api/database/forecast_one.py:80-86 | one forecast value per raw row, in order, with its time and power |
| `ForecastOne.ToNationalForecastValues` | nowcasting_api/database/forecast_one.py:47-58 | one national value per raw row, in order, with its time and power |
| `ForecastOne.GetForecastValuesForOneGspId` | nowcasting_api/database/forecast_one.py:60-86 | the values of the gsp are its raw values, in order |
| `ForecastOne.GetNationalForecastValues` | nowcasting_api/database/forecast_one.py:29-58 | the national values are the raw values of gsp 0, in order |
| `Database.EmailOf` | nowcasting_api/database.py:601-604 | the caller's email, or "unknown" without a user |
| `Database.Session.Add` | nowcasting_api/database.py:613 | the row is appended to the pending rows; nothing is committed |
| `Database.Session.Commit` | nowcasting_api/database.py:614 | every pending row is committed in order, and none stays pending |
| `Database.SaveApiCallToDb` | nowcasting_api/database.py:584-614 | exactly one row with the request URL and the caller's email is committed after the pending ones |
| `Database.TwelveHoursAgo` | nowcasting_api/database.py:266-268 | a half-hour boundary less than half an hour before, or equal to, twelve hours ago |
| `Database.PlanForecasts` | nowcasting_api/database.py:239-285 | a historic request with a limit is refused with 400; a historic read starts at the checked start and excludes gsp 0; a non-historic read defaults the start to twelve hours ago and bounds creation from twelve hours before the limit (or twelve hours ago) up to the limit |
| `Database.NonHistoricCreationWindow` | nowcasting_api/database.py:265-274 | a non-historic read asks for a creation window of exactly twelve hours with a limit and under twelve and a half without, and never for a default start later than twelve hours ago |
| `Database.FromOrmAll` | nowcasting_api/database.py:296-299 | one converted forecast per row read, in order, from its latest values when historic |
| `Database.ForecastsAnswer` | nowcasting_api/database.py:239-307 | the answer errs exactly when historic with a limit; otherwise it is the compact grouping or the converted forecasts trimmed to the window |
| `Database.GetForecastsFromDatabase` | nowcasting_api/database.py:200-307 | the function computes `ForecastsAnswer` |
| `Database.CompactForecastsInWindow` | nowcasting_api/database.py:287-293 | a non-historic compact answer never holds a time before the default start or after the end |
| `Database.ForecastForGsp` | nowcasting_api/database.py:310-344 | the latest forecast of the gsp, with its latest values when historic |
| `Database.PlanLatestValues` | nowcasting_api/database.py:379-418 | the latest table exactly without horizon and limit; the blend model; the start checked against a year; the seven-day rule table and the creation limit (or now minus the horizon) otherwise |
| `Database.LatestValuesHorizon` | nowcasting_api/database.py:403-406 | with a horizon h ≥ 0, no value created after now is read, and a start within the last year is kept |
| `Database.LatestForecastValuesForGsp` | nowcasting_api/database.py:347-431 | exactly the rows of the read `PlanLatestValues` plans (the source's early return of `[]` is the same value) |
| `Database.TruthValuesForGsp` | nowcasting_api/database.py:455-496 | as written: at most the stored yields, each within the bounds |
| `Database.TruthValuesForGspSelected` | nowcasting_api/database.py:484-496 | as written, every yield returned is a stored yield of the gsp within the bounds |
| `Database.TruthValuesRegimeIgnored` | nowcasting_api/database.py:455-496 | as written, a yield of another regime than the requested one is returned |
| `Database.TruthValuesForGspCorrected` | nowcasting_api/database.py:458-472 | with the regime filter: at most the stored yields, each of the requested regime and within the bounds |
| `Database.TruthValuesCorrectedSelected` | nowcasting_api/database.py:458-472 | with the regime filter every yield returned has the requested regime ("in-day" by default), lies within the bounds and is a stored yield of the gsp |
| `Database.TruthValuesCorrectedComplete` | nowcasting_api/database.py:484-492 | with the regime filter every matching stored yield is returned |
| `Database.TruthGspIds` | nowcasting_api/database.py:533-534 | the given ids, or 1 through N_GSP |
| `Database.TruthGspIdsDefault` | nowcasting_api/database.py:531-534 | without a list exactly the gsps 1 to N_GSP are read, never gsp 0 |
| `Database.GetTruthValuesForAllGsps` | nowcasting_api/database.py:499-547 | the yields of the chosen ids from the checked start, grouped by datetime when compact and by location otherwise |
| `Database.GspSystemRead` | nowcasting_api/database.py:567-577 | one location, labelled national exactly for gsp 0, or all locations when no id is given |
| `Database.GetGspSystem` | nowcasting_api/database.py:551-580 | one location for a given gsp (the national label for gsp 0), all locations without one |
| `DatabaseLegacy.PlanForecastsLegacy` | nowcasting_api/database/database_legacy.py:172-218 | the legacy reassignments make the same read as the current module |
| `DatabaseLegacy.Backfilled` | nowcasting_api/database/database_legacy.py:233-234 | a missing initialisation time becomes the creation time; a set one, and every other field, is kept |
| `DatabaseLegacy.BackfillInPlace` | nowcasting_api/database/database_legacy.py:232-234 | every element of the array is back-filled in place |
| `DatabaseLegacy.BackfillIdempotent` | nowcasting_api/database/database_legacy.py:233 | back-filling twice is back-filling once |
| `DatabaseLegacy.LegacyForecastsInitialised` | nowcasting_api/database/database_legacy.py:232-246 | every forecast of the answer keeps its location and creation time and has an initialisation time |
| `DatabaseLegacy.GetForecastsFromDatabaseLegacy` | nowcasting_api/database/database_legacy.py:160-251 | errs with 400 exactly when historic with a limit; otherwise compact groups as in the current module, or the back-filled, trimmed, de-duplicated forecasts |
| `DatabaseLegacy.PlanLatestValuesLegacy` | nowcasting_api/database/database_legacy.py:296-335 | the current module's latest-values read with the given model name |
| `DatabaseLegacy.LatestForecastValuesForGspLegacy` | nowcasting_api/database/database_legacy.py:277-348 | the rows of that read, or none when it finds none |
| `DatabaseLegacy.TruthReadForGsp` | nowcasting_api/database/database_legacy.py:368-395 | the gsp alone, from the checked start, with the given end and regime |
| `GspRoutes.ParseAll` | nowcasting_api/gsp.py:92 | every piece parsed to its integer; ValueError exactly when some piece is not one |
| `GspRoutes.ParseGspIds` | nowcasting_api/gsp.py:91-94 | an absent parameter gives no list; a present one gives one id per comma-separated piece |
| `GspRoutes.ParseGspIdsRoundTrip` | nowcasting_api/gsp.py:91-92 | a non-empty list of ids joined with commas parses back to itself |
| `GspRoutes.EmptyGspIdsFail` | nowcasting_api/gsp.py:93-94 | an empty parameter does not become "no list": it raises ValueError |
| `GspRoutes.DefaultStart` | nowcasting_api/gsp.py:103-104 | without a start, requests for all or several gsps start at the current half hour and a request for one gsp keeps none |
| `GspRoutes.FirstNational` | nowcasting_api/gsp.py:129-131 | the position of the first national forecast, or none when there is no national forecast |
| `GspRoutes.AdjustedNational` | nowcasting_api/gsp.py:129-134 | only the first national forecast is adjusted; every other forecast is kept |
| `GspRoutes.AdjustNationalInPlace` | nowcasting_api/gsp.py:132-134 | the list is updated in place to `AdjustedNational` |
| `GspRoutes.AllAvailableForecasts` | nowcasting_api/gsp.py:91-138 | ValueError when the ids do not parse, 400 for historic with a limit, and otherwise a compact answer exactly when compact is asked for |
| `GspRoutes.GetAllAvailableForecasts` | nowcasting_api/gsp.py:59-138 | the route computes `AllAvailableForecasts` |
| `GspRoutes.AllAvailableForecastsStartNow` | nowcasting_api/gsp.py:103-114 | a request for several or all gsps without a start reads from the current half hour |
| `GspRoutes.SpecificGspForecast` | nowcasting_api/gsp.py:215-234 | 204 exactly above gsp 317; otherwise the gsp's latest values, each adjusted only for gsp 0 |
| `GspRoutes.GetForecastsForSpecificGsp` | nowcasting_api/gsp.py:176-234 | the route computes `SpecificGspForecast` |
| `GspRoutes.GetForecastsForSpecificGspOldRoute` | nowcasting_api/gsp.py:150-165 | the old route answers as the new one without dates or limit |
| `GspRoutes.GetTruthsForAllGsps` | nowcasting_api/gsp.py:245-289 | ValueError when the ids do not parse, otherwise the yields of the chosen ids from the checked start with the regime as given |
| `GspRoutes.SpecificGspTruths` | nowcasting_api/gsp.py:362-371 | 204 exactly above gsp 317; otherwise, over the regime-filtered read (see Findings), yields of the requested regime within the bounds |
| `GspRoutes.GetTruthsForSpecificGsp` | nowcasting_api/gsp.py:328-371 | the route computes `SpecificGspTruths` |
| `GspRoutes.GetTruthsForSpecificGspOldRoute` | nowcasting_api/gsp.py:301-316 | the old route answers as the new one without dates |
| `NationalRoutes.InternalModelName` | nowcasting_api/national.py:123 | every enum member's external name is a key of the map, so the lookup never gives None |
| `NationalRoutes.InternalModelNames` | nowcasting_api/national.py:46-51 | blend and day-ahead keep their names, the intraday models are renamed, and distinct members map to distinct models |
| `NationalRoutes.GetPlevels` | nowcasting_api/national.py:35 | the switch is off only when GET_PLEVELS is set to the empty string |
| `NationalRoutes.MetadataForecast` | nowcasting_api/national.py:133-160 | IndexError exactly when nothing is read; otherwise the first forecast, from its latest values when historic, with exactly its values in the window, in order |
| `NationalRoutes.PlevelValue` | nowcasting_api/national.py:186-193 | a value whose plevels are formatted has both named levels; the only errors are TypeError and KeyError |
| `NationalRoutes.PlevelValues` | nowcasting_api/national.py:183-195 | every value formatted in order, or the error of the first value whose formatting fails |
| `NationalRoutes.PlevelValuesFirstError` | nowcasting_api/national.py:186-195 | the first failing value decides the error |
| `NationalRoutes.PlevelLoop` | nowcasting_api/national.py:185-195 | the loop computes `PlevelValues` |
| `NationalRoutes.NationalTail` | nowcasting_api/national.py:174-202 | the metadata forecast is kept exactly when present; each value is adjusted only when the adjuster is on; without plevels the answer never fails; with plevels it fails exactly when some formatting fails, and otherwise carries each formatted plevel dict |
| `NationalRoutes.FinishNational` | nowcasting_api/national.py:172-202 | the route's tail as written computes `NationalTail` |
| `NationalRoutes.NationalAnswerFrom` | nowcasting_api/national.py:126-202 | 404 exactly for a horizon with metadata; IndexError exactly when the metadata read is empty; a full forecast exactly with metadata; one value per value read |
| `NationalRoutes.NationalForecastAnswer` | nowcasting_api/national.py:73-202 | as written: 404 exactly for a horizon with metadata; without metadata as many values as the "blend" latest-values read returns |
| `NationalRoutes.GetNationalForecast` | nowcasting_api/national.py:73-202 | the route computes `NationalForecastAnswer` |
| `NationalRoutes.NationalForecastAnswerCorrected` | nowcasting_api/national.py:163-170 | with the model name passed: 404 exactly for a horizon with metadata; without metadata as many values as the requested model's read returns |
| `NationalRoutes.NationalModelNameIgnored` | nowcasting_api/national.py:163-170 | as written, without metadata every model name gives the same answer, read from "blend" |
| `NationalRoutes.NationalValuesRead` | nowcasting_api/national.py:162-170 | the intended read is that of gsp 0 for the requested model, otherwise the current one |
| `NationalRoutes.CorrectedNationalReadsModel` | nowcasting_api/national.py:123-170 | with the correction distinct models read distinct rows, and each value of the answer is a value of the requested model's read |
| `NationalRoutes.GetNationalPvlive` | nowcasting_api/national.py:213-240 | over the regime-filtered read (see Findings), the truth values of gsp 0 with the requested regime and no date bounds |
| `SrcNational.SrcNationalAnswer` | src/national.py:166-241 | 404 exactly for a horizon with metadata; IndexError exactly when the blend metadata read is empty; every value adjusted |
| `SrcNational.GetNationalForecastSrc` | src/national.py:123-241 | the route computes `SrcNationalAnswer` |
| `Status.NewestIndex` | nowcasting_api/status.py:55-56 | the first of the rows with the latest creation time |
| `Status.CheckLastForecast` | nowcasting_api/status.py:40-67 | 404 exactly when no row matches the model; otherwise the creation time of a newest matching forecast |
| `Status.NoForecastsMessageNamesModel` | nowcasting_api/status.py:61-63 | the 404 message names the model exactly when one is given |
| `Status.ComponentOf` | nowcasting_api/status.py:79 | AssertionError exactly for a name other than gsp, nwp and satellite |
| `Status.ComponentRoundTrip` | nowcasting_api/status.py:83-95 | each component is recognised by its own name |
| `Status.Latest` | nowcasting_api/status.py:85-93 | the latest of the gsp yield times |
| `Status.ModifiedDate` | nowcasting_api/status.py:79-105 | gsp: 404 exactly without yields, else the newest yield time; nwp and satellite: AssertionError without a file, 404 for a missing file, else its modification time |
| `Status.UpdateNeverBackward` | nowcasting_api/status.py:110-121 | the stored time of the component becomes the later of old and new, and every other component is unchanged |
| `Status.UpdateIdempotent` | nowcasting_api/status.py:110-115 | recording the same time again, or an older time, changes nothing |
| `Status.InputDataStore.constructor` | nowcasting_api/status.py:108 | the store starts with the given record |
| `Status.InputDataStore.Record` | nowcasting_api/status.py:108-121 | the store becomes `UpdatedRecord` of its old value |
| `Status.InputDataStore.UpdateLastData` | nowcasting_api/status.py:72-123 | returns the time read for the component; nothing changes on an error, otherwise the store is updated |
| `SrcStatus.CheckLastForecastSrc` | src/status.py:44-70 | 404 exactly when there are no forecasts; a served forecast is never stale; a newest forecast that is stale gives the 404 stale message |
| `SrcStatus.StaleDetailDiffers` | src/status.py:63-67 | the stale message is never the no-forecast message |
| `SrcStatus.DefaultErrorHours` | src/status.py:25 | with the default, a forecast two hours old or older is refused |
| `SrcStatus.ModifiedDateSrc` | src/status.py:82-104 | as the current route, except that a named file that does not exist raises FileNotFoundError |
| `SrcStatus.UpdateLastDataSrc` | src/status.py:75-122 | returns the time read; nothing changes on an error, otherwise the store is updated |

## Left out

- Concurrency in `src/cache.py`: calls are sequential in the model, so branch 1.0 (waiting on another runner) and the KeyError it can meet are never reached. This is stated by `ResponseCache.SequentialRunNeverWaits`.
- Exceptions raised by a route wrapped by the cache, and the log lines: the wrapped route's result is a parameter.
- The fastapi-cache backend itself: only the settings and the key builder are modelled. The rendering of the key string is taken to be injective.
- SQL `ORDER BY`, `DISTINCT ON` and the NaN filters are left out. Reads keep table order. Where a query orders by creation time and takes the first row, the model takes the first of the newest rows.
- Time zones and `format_datetime`: every instant is UTC microseconds.
- Rounding to two decimals of powers and plevels.
- The fallback of `get_start_datetime` (the Europe/London calendar and `N_HISTORY_DAYS`) is a parameter.
- Python's `timedelta` microsecond rounding.
- `Utils.GetStartDatetime`: the default start is not computed.
- `LatestValues.MakeValue`: the contract says nothing about a national value. That value is the datamodel's `adjust` (a parameter) applied with `adjust_mw` set.
- `LatestValues.Normalized`: stated on reals, without rounding.
- `PydanticModels.AdjustNational`: a negative `adjust_limit` is only proved to give a non-negative result. No clamp is stated for it.
- `Database.ForecastForGsp`: `Forecast.from_orm` and the latest-forecast read come from the datamodel library and are a parameter.
- The SevenDays end filter on line 137 of `nowcasting_api/database/v2_foreacst.py` names the seven-day table whichever table is read. The model applies the end bound to the table read.
- ForecastOne.RawForecastValuesAsWritten: leaves out `DISTINCT ON` and `ORDER BY`. On a table other than the latest, `DISTINCT ON` names that table (nowcasting_api/database/forecast_one.py:142) while `ORDER BY` names the latest table (lines 164-167); PostgreSQL is expected to refuse that query, which the model does not capture.
- V2Forecast.PlanNational: when `ForecastValueSQL` is read, `DISTINCT ON` names it (nowcasting_api/database/v2_foreacst.py:120) while `ORDER BY` names the seven-day table (lines 143-144); PostgreSQL is expected to refuse that query, and the model reads the rows as if it ran.
- V2Forecast.HistoryValuesSelected: states the selection of the read planned by `PlanNational`, under the same omission of that `DISTINCT ON`/`ORDER BY` mismatch.
- PydanticModels.ConvertLocationSqlToManyDatetimeManyGeneration: src/pydantic_models.py:101 stores `str(round(kw, 2))`, the text of the rounded value; the model stores the real value itself.
- `remove_duplicate_values` (the legacy answer, line 248) and `get_latest_national_forecast` are library calls. They are parameters.
- The Python `repr`/JSON rendering of ordered dicts in the compact answers.
- The values of N_GSP and of the national label are parameters. The datamodel's `adjust` and `normalize` are parameters too.
- `get_user_from_db`, authentication, and `main.py` (app wiring, middleware, CORS, docs).
- The comparison `gsp_ids == ""` on line 93 of `nowcasting_api/gsp.py` compares a list with a string, so it never holds. `GspRoutes.ParseGspIds` says so, and `GspRoutes.EmptyGspIdsFail` shows an empty parameter raising.
- The gsp route parameter annotations that admit strings: ids are integers in the model.
- GspRoutes.SpecificGspTruths: built on the regime-filtered read `Database.TruthValuesForGspCorrected`, while nowcasting_api/gsp.py:365-371 calls the read that ignores the regime (see Findings). As written, the route returns yields of every regime.
- GspRoutes.GetTruthsForSpecificGsp: computes `SpecificGspTruths`, so it uses the regime-filtered read as well; the program returns yields of every regime.
- GspRoutes.GetTruthsForSpecificGspOldRoute: delegates to the route above and inherits the regime-filtered read.
- NationalRoutes.GetNationalPvlive: built on the regime-filtered read, while nowcasting_api/national.py:238-240 calls the read that ignores the regime; the program returns gsp 0's yields of every regime.
- ForecastOne.RawForecastValues: the window is applied to the chosen table. As written, nowcasting_api/database/forecast_one.py:152-154 bounds the latest table whatever table is chosen (see Findings); `ForecastOne.RawForecastValuesAsWritten` models that read. The two value reads use the corrected one.
- Decimal.ParseInt: covers ASCII `int()` only. Python's `int()` also accepts underscores between digits ("1_0"), Unicode digits and Unicode whitespace, which the model rejects with ValueError.
- GspRoutes.ParseAll: rests on the ASCII `Decimal.ParseInt`, so a piece such as "1_0" is a ValueError in the model and 10 in the program.
- ResponseCache.Step: one `now` serves the sweep of old entries and the time comparisons and stamps of branches 1.2 and 1.3. The source reads the clock separately for each (src/cache.py:33, 146 and after).
- ResponseCache.ResponseCache.Call: the same single clock reading as `Step`.
- `src/cache.py:11` and `src/status.py:18` import `save_api_call_to_db` from `src/database.py`, which does not define it. As written, those modules cannot be imported. `ResponseCache.ResponseCache.Call` logs each call as if the import succeeded.
- ApiCache.CacheResponse: models the factory called with an integer or with no argument, as its docstring shows. The routes apply it bare (`@cache_response` at nowcasting_api/gsp.py:57, 148, 174, 243, 299, 326, nowcasting_api/national.py:71, 211 and nowcasting_api/status.py:25). That binds `expiration` to the route function and replaces the route by `decorator`; the model does not capture that wiring.
- `src/national.py` imports functions that `src/utils.py` does not define, and `src/database.py` is not part of this model. The src national route takes its reads as parameters.
- The PV_Live route of `src/national.py`, the Elexon routes and `get_status` are not modelled: they only read and reshape.
- The `save_api_call_to_db` calls inside the status routes are not modelled.
- The file system of the status route is a map from existing file name to modification time.
- The text renderings of the stale-forecast message (hours and creation time) are parameters of `SrcStatus.CheckLastForecastSrc`.
- The dummy location's fields other than label and region take fixed placeholder values.
- `hasattr` on a forecast value is modelled as key presence in its properties.
- `get_gsp_system` and `save_api_call_to_db` in `nowcasting_api/database/database_legacy.py` (lines 398-445) are the same code as in `nowcasting_api/database.py`. They are modelled once, in `Database`.
- The floors of `src/utils.py` are the same as in `nowcasting_api/utils.py` and are modelled once. Its `get_start_datetime` differs: it takes only `n_history_days` and always computes the default start, which `Utils.GetStartDatetimeSrc` models against the current function.

## Findings

| source | as written | input that shows it | evidently intended | confidence | as-written member | corrected member |
|---|---|---|---|---|---|---|
| nowcasting_api/database_fast.py:281-283 | the query reads four columns (0 to 3), but a national row is adjusted with `forecast_value[4]` | `gsp_ids=[0]` with a stored national value inside the window and a national historic blend forecast raises IndexError | read `adjust_mw` from column 3, as `v2_foreacst.py` does; then the read never fails (`DatabaseFast.CorrectedForecastsOk`) | not executed | `DatabaseFast.NationalIndexError` | `DatabaseFast.GetForecastsCorrected` |
| nowcasting_api/database.py:455-496 | `get_truth_values_for_a_specific_gsp_from_database` takes a `regime` and never filters on it | a single stored yield of the gsp with regime "day-after", requested with regime "in-day", is returned | filter the yields by the regime, defaulting to "in-day"; then every yield returned has that regime (`Database.TruthValuesCorrectedSelected`) | not executed | `Database.TruthValuesRegimeIgnored` | `Database.TruthValuesForGspCorrected` |
| nowcasting_api/database/forecast_one.py:152-166 | the window filter is called without `model=`, so with a horizon or a creation limit it bounds the unjoined latest table, not the table read; the `ORDER BY` (lines 164-167) also names the latest table while `DISTINCT ON` (line 142) names the table read | `forecast_horizon_minutes=60`, a start `s`, a seven-day row of the gsp and model at `s - 1µs` and a latest row at `s`: ignoring `DISTINCT ON`/`ORDER BY`, as the model does, the row before the start is returned; on PostgreSQL, which refuses `DISTINCT ON` expressions that differ from the leading `ORDER BY` ones, the query is expected to fail instead | pass `model=fv_model` to the window filter and order by `fv_model.target_time, fv_model.created_utc.desc()`; then every value lies in the window (`ForecastOne.RawValuesSelected`) | not executed | `ForecastOne.OutOfWindowRead` | `ForecastOne.RawForecastValues` |
| nowcasting_api/national.py:163-170 | without metadata, the latest-values read is given no `model_name`, so it reads "blend" for every model | `model_name=pvnet_intraday`, `include_metadata=false`: the answer equals that for `blend` | pass the internal model name to the read; then distinct models read distinct rows (`NationalRoutes.CorrectedNationalReadsModel`) | not executed | `NationalRoutes.NationalModelNameIgnored` | `NationalRoutes.NationalForecastAnswerCorrected` |
