/**
 * `src/dummy.py`: the dummy forecast served for testing, four zero values
 * on the half-hours from the current half-hour on. The clock reading is a
 * parameter.
 */
module Dummy {
  import opened Common
  import opened Models
  import TimeFloor

  const THIRTY_MINUTES: int := 30 * MINUTE

  /** The forecast of the forecast library that the dummy builds: any
      location type, a creation time, the values and the input times. */
  datatype DummyForecast<L> = DummyForecast(location: L, creationTime: Instant,
    values: seq<ForecastValue>, inputDataLastUpdated: InputDataLastUpdated)

  /** The location of the national dummy: label, region, gsp name and gsp
      group. */
  datatype DummyLocation = DummyLocation(labelText: string, regionName: string, gspName: string, gspGroup: string)

  const NATIONAL_LABEL: string := "GB (National)"
  const NATIONAL_REGION: string := "national_GB"

  /** `create_dummy_forecast_for_location`, at the clock reading `now`. */
  function DummyForecastForLocation<L>(location: L, now: Instant): DummyForecast<L>
  {
    var nowFloor30 := TimeFloor.Floor30Minutes(now);
    var datetimes := seq(4, i => nowFloor30 + i * THIRTY_MINUTES);
    DummyForecast(location, nowFloor30 - THIRTY_MINUTES,
      seq(4, i requires 0 <= i < 4 => PlainValue(datetimes[i], 0.0)),
      InputDataLastUpdated(nowFloor30, nowFloor30, nowFloor30, nowFloor30))
  }

  /** The dummy has four values of power 0 on consecutive half-hours, the
      first of them the half-hour that holds `now`; it was created half an
      hour before that, and every input time is that half-hour. */
  lemma DummyForecastShape<L>(location: L, now: Instant)
    ensures var f := DummyForecastForLocation(location, now);
      var start := TimeFloor.Floor30Minutes(now);
      && f.location == location
      && |f.values| == 4
      && (forall i :: 0 <= i < 4 ==> f.values[i].targetTime == start + i * THIRTY_MINUTES && f.values[i].powerMw == 0.0)
      && (forall i :: 0 <= i < 3 ==> f.values[i + 1].targetTime - f.values[i].targetTime == THIRTY_MINUTES)
      && f.values[0].targetTime <= now < f.values[0].targetTime + THIRTY_MINUTES
      && f.values[0].targetTime % THIRTY_MINUTES == 0
      && f.creationTime == f.values[0].targetTime - THIRTY_MINUTES
      && f.inputDataLastUpdated == InputDataLastUpdated(start, start, start, start)
  {
    TimeFloor.Floor30MinutesBounds(now);
  }

  /** The target times are strictly increasing. */
  lemma DummyTimesIncreasing<L>(location: L, now: Instant, i: int, j: int)
    requires 0 <= i < j < 4
    ensures var f := DummyForecastForLocation(location, now);
      f.values[i].targetTime < f.values[j].targetTime
  {
    var f := DummyForecastForLocation(location, now);
    var start := TimeFloor.Floor30Minutes(now);
    assert f.values[i].targetTime == start + i * THIRTY_MINUTES;
    assert f.values[j].targetTime == start + j * THIRTY_MINUTES;
    assert (j - i) * THIRTY_MINUTES > 0;
  }

  /** `create_dummy_national_forecast`. */
  function DummyNationalForecast(now: Instant): (f: DummyForecast<DummyLocation>)
    ensures f.location.labelText == NATIONAL_LABEL && f.location.regionName == NATIONAL_REGION
    ensures f == DummyForecastForLocation(f.location, now)
  {
    DummyForecastForLocation(DummyLocation(NATIONAL_LABEL, NATIONAL_REGION, "dummy_gsp_name", "dummy_gsp_group"), now)
  }
}
