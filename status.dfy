/**
 * `nowcasting_api/status.py`: the check that a forecast exists, and the
 * route that records when an input component (gsp, nwp or satellite) last
 * changed. The record keeps one timestamp per component and the route only
 * ever moves a timestamp forward.
 */
module Status {
  import opened Common

  // ---------------------------------------------------------------------
  // check_last_forecast

  /** A forecast row: its creation time in the table, the name of its model
      (None when it has no model) and its `forecast_creation_time`. */
  datatype ForecastRow = ForecastRow(createdUtc: Instant, modelName: Option<string>, forecastCreationTime: Instant)

  const NO_FORECASTS: string := "There are no forecasts"
  const FOR_MODEL: string := " for model "

  /** The rows the query considers: all of them, or those joined to the
      named model. */
  function ModelSelected(modelName: Option<string>): ForecastRow -> bool
  {
    (row: ForecastRow) => modelName.None? || row.modelName == modelName
  }

  /** The position of the newest row: no row is newer, and no earlier row is
      as new (the first of several equally new rows). */
  function NewestIndex(rows: seq<ForecastRow>): (k: nat)
    requires |rows| > 0
    ensures k < |rows|
    ensures forall j :: 0 <= j < |rows| ==> rows[j].createdUtc <= rows[k].createdUtc
    ensures forall j :: 0 <= j < k ==> rows[j].createdUtc < rows[k].createdUtc
  {
    if |rows| == 1 then 0
    else
      var n := |rows| - 1;
      var k := NewestIndex(rows[..n]);
      assert forall j :: 0 <= j < n ==> rows[..n][j] == rows[j];
      if rows[n].createdUtc > rows[k].createdUtc then n else k
  }

  /** The 404 message: the model name is appended when one is given. */
  function NoForecastsMessage(modelName: Option<string>): string
  {
    if modelName.Some? then NO_FORECASTS + FOR_MODEL + modelName.value else NO_FORECASTS
  }

  /** `check_last_forecast`: the `forecast_creation_time` of the newest
      forecast of the model (of any model without a name); 404 when there is
      none. */
  function CheckLastForecast(rows: seq<ForecastRow>, modelName: Option<string>): (r: Result<Instant>)
    ensures r.Err? <==> forall j :: 0 <= j < |rows| ==> !ModelSelected(modelName)(rows[j])
    ensures r.Err? ==> r.error == Http(404, NoForecastsMessage(modelName))
    ensures r.Ok? ==> exists j :: (0 <= j < |rows| && ModelSelected(modelName)(rows[j])
      && r.value == rows[j].forecastCreationTime
      && forall l :: 0 <= l < |rows| && ModelSelected(modelName)(rows[l]) ==> rows[l].createdUtc <= rows[j].createdUtc)
  {
    var kept := Filter(rows, ModelSelected(modelName));
    if |kept| == 0 then
      assert forall j :: 0 <= j < |rows| ==> !ModelSelected(modelName)(rows[j]);
      Err(Http(404, NoForecastsMessage(modelName)))
    else
      var k := NewestIndex(kept);
      assert kept[k] in rows;
      Ok(kept[k].forecastCreationTime)
  }

  /** The message names the model exactly when one is given. */
  lemma NoForecastsMessageNamesModel(modelName: Option<string>)
    ensures NoForecastsMessage(modelName)[..|NO_FORECASTS|] == NO_FORECASTS
    ensures modelName.None? <==> NoForecastsMessage(modelName) == NO_FORECASTS
    ensures modelName.Some? ==>
      NoForecastsMessage(modelName)[|NO_FORECASTS| + |FOR_MODEL|..] == modelName.value
  {
    if modelName.Some? {
      var m := NoForecastsMessage(modelName);
      assert |m| == |NO_FORECASTS| + |FOR_MODEL| + |modelName.value|;
      assert m[..|NO_FORECASTS|] == NO_FORECASTS;
      assert m[|NO_FORECASTS| + |FOR_MODEL|..] == modelName.value;
    }
  }

  // ---------------------------------------------------------------------
  // update_last_data

  /** The components whose input time is recorded. */
  datatype Component = Gsp | Nwp | Satellite

  const GSP: string := "gsp"
  const NWP: string := "nwp"
  const SATELLITE: string := "satellite"

  function Name(c: Component): string
  {
    match c
    case Gsp => GSP
    case Nwp => NWP
    case Satellite => SATELLITE
  }

  /** `assert component in ["gsp", "nwp", "satellite"]`. */
  function ComponentOf(s: string): (r: Result<Component>)
    ensures r.Ok? <==> s in [GSP, NWP, SATELLITE]
    ensures r.Err? ==> r.error == AssertionError
    ensures r.Ok? ==> Name(r.value) == s
  {
    if s == GSP then Ok(Gsp)
    else if s == NWP then Ok(Nwp)
    else if s == SATELLITE then Ok(Satellite)
    else Err(AssertionError)
  }

  /** Every component is named by its own name and by no other. */
  lemma ComponentRoundTrip(c: Component)
    ensures ComponentOf(Name(c)) == Ok(c)
  {
    assert |GSP| == 3 && |NWP| == 3 && |SATELLITE| == 9 && GSP[0] != NWP[0];
  }

  /** The latest of some instants. */
  function Latest(s: seq<Instant>): (r: Instant)
    requires |s| > 0
    ensures r in s
    ensures forall j :: 0 <= j < |s| ==> s[j] <= r
  {
    if |s| == 1 then s[0]
    else
      var pre := Latest(s[..|s| - 1]);
      assert forall j :: 0 <= j < |s| - 1 ==> s[..|s| - 1][j] == s[j];
      if s[|s| - 1] > pre then s[|s| - 1] else pre
  }

  const NO_GSP_YIELDS: string := "There are no gsp yields"
  const FILE_PREFIX: string := "File '"
  const FILE_SUFFIX: string := "' not found"

  function FileNotFoundDetail(file: string): string
  {
    FILE_PREFIX + file + FILE_SUFFIX
  }

  /** The input time the route reads for a component: for gsp the creation
      time of the newest gsp yield (404 when there is none); for nwp and
      satellite the modification time of the file, which must be named
      (AssertionError otherwise) and must exist (404 otherwise). `files` maps
      each existing file to its modification time. */
  function ModifiedDate(component: string, file: Option<string>, gspYieldsCreated: seq<Instant>,
      files: map<string, Instant>): (r: Result<Instant>)
    ensures ComponentOf(component).Err? ==> r == Err(AssertionError)
    ensures component == GSP ==> (r.Err? <==> |gspYieldsCreated| == 0)
    ensures component == GSP && r.Err? ==> r.error == Http(404, NO_GSP_YIELDS)
    ensures component == GSP && r.Ok? ==> (r.value in gspYieldsCreated
      && forall j :: 0 <= j < |gspYieldsCreated| ==> gspYieldsCreated[j] <= r.value)
    ensures component in [NWP, SATELLITE] ==> (r.Ok? <==> file.Some? && file.value in files)
    ensures component in [NWP, SATELLITE] && file.None? ==> r == Err(AssertionError)
    ensures component in [NWP, SATELLITE] && file.Some? && file.value !in files ==>
      r == Err(Http(404, FileNotFoundDetail(file.value)))
    ensures component in [NWP, SATELLITE] && r.Ok? ==> r.value == files[file.value]
  {
    match ComponentOf(component)
    case Err(e) => Err(e)
    case Ok(c) =>
      if c == Gsp then
        if |gspYieldsCreated| == 0 then Err(Http(404, NO_GSP_YIELDS)) else Ok(Latest(gspYieldsCreated))
      else if file.None? then Err(AssertionError)
      else if file.value !in files then Err(Http(404, FileNotFoundDetail(file.value)))
      else Ok(files[file.value])
  }

  /** The stored input times after the route has read `date` for `c`: set
      when there is no record, when the record has no time for `c`, or when
      the stored time is older; otherwise unchanged. */
  function UpdatedRecord(latest: Option<map<Component, Instant>>, c: Component, date: Instant)
    : Option<map<Component, Instant>>
  {
    if latest.Some? && c in latest.value && latest.value[c] >= date then latest
    else if latest.None? then Some(map[c := date])
    else Some(latest.value[c := date])
  }

  /** The update never moves a stored time backward: afterwards `c` holds the
      later of its old time and `date`, and every other component is as it
      was. */
  lemma UpdateNeverBackward(latest: Option<map<Component, Instant>>, c: Component, date: Instant, other: Component)
    ensures var r := UpdatedRecord(latest, c, date);
      && r.Some? && c in r.value && r.value[c] >= date
      && (latest.Some? && c in latest.value ==> r.value[c] == if latest.value[c] >= date then latest.value[c] else date)
      && (latest.Some? && c !in latest.value ==> r.value[c] == date)
      && (other != c ==> (latest.Some? && other in latest.value <==> other in r.value))
      && (other != c && latest.Some? && other in latest.value ==> r.value[other] == latest.value[other])
  {
  }

  /** Recording the same time twice changes nothing the second time, and
      recording an older time than the stored one changes nothing. */
  lemma UpdateIdempotent(latest: Option<map<Component, Instant>>, c: Component, date: Instant, older: Instant)
    requires older <= date
    ensures var once := UpdatedRecord(latest, c, date);
      && UpdatedRecord(once, c, date) == once
      && UpdatedRecord(once, c, older) == once
  {
  }

  /** The stored input times: None until one is recorded. */
  class InputDataStore {
    var latest: Option<map<Component, Instant>>

    constructor(initial: Option<map<Component, Instant>>)
      ensures latest == initial
    {
      latest := initial;
    }

    /** The comparison and the write of `update_last_data`. */
    method Record(c: Component, modifiedDate: Instant)
      modifies this
      ensures latest == UpdatedRecord(old(latest), c, modifiedDate)
    {
      var update := true;
      if latest.Some? {
        if c in latest.value {
          var currentDate := latest.value[c];
          if currentDate >= modifiedDate {
            update := false;
          }
        }
      }
      if update {
        if latest.None? {
          latest := Some(map[c := modifiedDate]);
        } else {
          latest := Some(latest.value[c := modifiedDate]);
        }
      }
    }

    /** `update_last_data`: the input time read for the component, returned
        whether or not it was recorded; nothing changes on an error. */
    method UpdateLastData(component: string, file: Option<string>, gspYieldsCreated: seq<Instant>,
        files: map<string, Instant>) returns (r: Result<Instant>)
      modifies this
      ensures r == ModifiedDate(component, file, gspYieldsCreated, files)
      ensures r.Err? ==> latest == old(latest)
      ensures r.Ok? ==> latest == UpdatedRecord(old(latest), ComponentOf(component).value, r.value)
    {
      var c := ComponentOf(component);
      if c.Err? {
        return Err(AssertionError);
      }
      var modifiedDate: Instant;
      if c.value == Gsp {
        if |gspYieldsCreated| == 0 {
          return Err(Http(404, NO_GSP_YIELDS));
        }
        modifiedDate := Latest(gspYieldsCreated);
      } else {
        if file.None? {
          return Err(AssertionError);
        }
        if file.value !in files {
          return Err(Http(404, FileNotFoundDetail(file.value)));
        }
        modifiedDate := files[file.value];
      }
      Record(c.value, modifiedDate);
      r := Ok(modifiedDate);
    }
  }
}
