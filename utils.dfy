/**
 * The helpers of `nowcasting_api/utils.py` other than the floors: the start
 * of a query window, the tracing sample rate, the plevel normaliser and the
 * target-time filter applied to forecasts.
 */
module Utils {
  import opened Common
  import opened Models

  // ---------------------------------------------------------------------
  // get_start_datetime

  /** `get_start_datetime`: a start that is given and at most `days` before
      now is returned unchanged; otherwise the default start, which depends
      on the Europe/London calendar and the N_HISTORY_DAYS setting and is a
      parameter here. */
  function GetStartDatetime(start: Option<Instant>, now: Instant, days: int, fallback: Instant): (r: Instant)
    ensures start.Some? && now - start.value <= days * DAY ==> r == start.value
    ensures start.None? || now - start.value > days * DAY ==> r == fallback
  {
    if start.None? || now - start.value > days * DAY then fallback else start.value
  }

  /** A recent start survives any window of at least as many days. */
  lemma GetStartDatetimeRecent(start: Instant, now: Instant, days: int, fallback: Instant)
    requires start <= now && days >= 0 && now - start <= days * DAY
    ensures GetStartDatetime(Some(start), now, days, fallback) == start
    ensures forall wider :: wider >= days ==> GetStartDatetime(Some(start), now, wider, fallback) == start
  {
    forall wider | wider >= days
      ensures now - start <= wider * DAY
    {
      assert wider * DAY >= days * DAY;
    }
  }

  /** `get_start_datetime` of `src/utils.py`: it takes no start and always
      gives the default start, which is what the function above gives
      without a start, whatever the window. */
  function GetStartDatetimeSrc(now: Instant, fallback: Instant): (r: Instant)
    ensures forall days :: r == GetStartDatetime(None, now, days, fallback)
  {
    fallback
  }

  // ---------------------------------------------------------------------
  // traces_sampler

  /** `sub` occurs in `s` (Python's `sub in s`). */
  predicate Contains(s: string, sub: string)
    decreases |s|
  {
    (|sub| <= |s| && s[..|sub|] == sub) || (|s| > 0 && Contains(s[1..], sub))
  }

  lemma ShorterNotContained(s: string, sub: string)
    requires |s| < |sub|
    ensures !Contains(s, sub)
  {
  }

  /** The parts of sentry's sampling context the sampler reads; None stands
      for a missing key. */
  datatype SamplingContext = SamplingContext(name: Option<string>, parentSampled: Option<Option<bool>>)

  /** `traces_sampler`: the sample rate of a transaction. */
  function TracesSampler(environment: Option<string>, context: SamplingContext): (r: Result<real>)
    ensures environment == Some("local") ==> r == Ok(0.0)
    ensures r.Ok? ==> r.value == 0.0 || r.value == 0.05 || r.value == 1.0
    ensures r == Ok(1.0) <==>
      environment != Some("local") && context.name.Some? && Contains(context.name.value, "error")
    ensures r == Ok(0.05) <==>
      environment != Some("local") && context.name.Some? && !Contains(context.name.value, "error") &&
      context.parentSampled.Some? && context.parentSampled.value != Some(true)
    ensures r.Err? <==>
      environment != Some("local") &&
      (context.name.None? || (!Contains(context.name.value, "error") && context.parentSampled.None?))
  {
    if environment == Some("local") then Ok(0.0)
    else if context.name.None? then Err(KeyError)
    else if Contains(context.name.value, "error") then Ok(1.0)
    else if context.parentSampled.None? then Err(KeyError)
    else if context.parentSampled.value == Some(true) then Ok(0.0)
    else Ok(0.05)
  }

  /** The sample rates of the four documented cases. */
  lemma TracesSamplerExamples()
    ensures TracesSampler(Some("local"), SamplingContext(None, None)) == Ok(0.0)
    ensures TracesSampler(Some("test"), SamplingContext(Some("warning"), Some(Some(false)))) == Ok(0.05)
    ensures TracesSampler(Some("test"), SamplingContext(Some("warning"), Some(Some(true)))) == Ok(0.0)
    ensures TracesSampler(Some("test"), SamplingContext(Some("error1"), Some(Some(false)))) == Ok(1.0)
  {
    assert "error1"[..5] == "error";
    var w := "warning";
    ShorterNotContained(w[3..], "error");
    assert w[2..][1..] == w[3..] && w[2..][..5][0] != "error"[0];
    assert !Contains(w[2..], "error");
    assert w[1..][1..] == w[2..] && w[1..][..5][0] != "error"[0];
    assert !Contains(w[1..], "error");
    assert w[..5][0] != "error"[0];
  }

  // ---------------------------------------------------------------------
  // format_plevels

  /** The default plevels of a value with the given power. */
  function DefaultPlevels(power: real): PlevelMap
  {
    map["plevel_10" := Some(power * 0.8), "plevel_90" := Some(power * 1.2)]
  }

  /** Renaming one key `c` to `plevel_c`; `round(None)` raises TypeError. */
  function Rename(m: PlevelMap, c: string, named: string): (r: Result<PlevelMap>)
  {
    if c !in m then Ok(m)
    else if m[c].None? then Err(TypeError)
    else Ok((m - {c})[named := m[c]])
  }

  /** A missing or None level is filled with its default; a missing key
      raises KeyError. */
  function FillDefault(m: PlevelMap, key: string, default: real): (r: Result<PlevelMap>)
  {
    if key !in m then Err(KeyError)
    else if m[key].None? then Ok(m[key := Some(default)])
    else Ok(m)
  }

  /** The dict `format_plevels` starts from: the defaults when the plevels
      are not a dict or are empty. */
  function Initial(p: Plevels, power: real): PlevelMap
  {
    if p.None? || p.value == map[] then DefaultPlevels(power) else p.value
  }

  /** `format_plevels`: the new plevels dict of a value with the given power.
      Rounding to two decimals is not modelled. */
  function FormatPlevels(p: Plevels, power: real): (r: Result<PlevelMap>)
    // the result is well formed: both levels set, the raw keys gone
    ensures r.Ok? ==>
      && "plevel_10" in r.value && r.value["plevel_10"].Some?
      && "plevel_90" in r.value && r.value["plevel_90"].Some?
      && "10" !in r.value && "90" !in r.value
    // every other key is kept with its value
    ensures r.Ok? ==> forall k :: k in r.value && k != "plevel_10" && k != "plevel_90" ==>
      k in Initial(p, power) && r.value[k] == Initial(p, power)[k]
    // the only errors are the two below
    ensures r.Err? ==> r.error == TypeError || r.error == KeyError
    // a missing or empty dict gives the defaults
    ensures p.None? || p.value == map[] ==> r == Ok(DefaultPlevels(power))
    // a raw level that is None cannot be rounded
    ensures r == Err(TypeError) <==>
      var m := Initial(p, power);
      ("10" in m && m["10"].None?) || ("90" in m && m["90"].None?)
    // a level given under neither name is a KeyError
    ensures r == Err(KeyError) <==>
      var m := Initial(p, power);
      && !(("10" in m && m["10"].None?) || ("90" in m && m["90"].None?))
      && (("10" !in m && "plevel_10" !in m) || ("90" !in m && "plevel_90" !in m))
    // where each level comes from: the raw key, else the named key, else the default
    ensures r.Ok? ==>
      var m := Initial(p, power);
      && r.value["plevel_10"] == (if "10" in m then m["10"]
                                  else if m["plevel_10"].Some? then m["plevel_10"] else Some(power * 0.8))
      && r.value["plevel_90"] == (if "90" in m then m["90"]
                                  else if m["plevel_90"].Some? then m["plevel_90"] else Some(power * 1.2))
  {
    var m := Initial(p, power);
    match Rename(m, "10", "plevel_10")
    case Err(e) => Err(e)
    case Ok(m1) =>
      match Rename(m1, "90", "plevel_90")
      case Err(e) => Err(e)
      case Ok(m2) =>
        match FillDefault(m2, "plevel_10", power * 0.8)
        case Err(e) => Err(e)
        case Ok(m3) => FillDefault(m3, "plevel_90", power * 1.2)
  }

  /** `format_plevels` as written: the renaming loop over "10" and "90",
      then the two default fills. */
  method FormatPlevelsLoop(p: Plevels, power: real) returns (r: Result<PlevelMap>)
    ensures r == FormatPlevels(p, power)
  {
    var m := Initial(p, power);
    var cs := ["10", "90"];
    for i := 0 to |cs|
      invariant i == 0 ==> m == Initial(p, power)
      invariant i == 1 ==> Rename(Initial(p, power), "10", "plevel_10") == Ok(m)
      invariant i == 2 ==> Rename(Initial(p, power), "10", "plevel_10").Ok? &&
                           Rename(Rename(Initial(p, power), "10", "plevel_10").value, "90", "plevel_90") == Ok(m)
    {
      var c := cs[i];
      assert "plevel_" + c == if i == 0 then "plevel_10" else "plevel_90";
      if c in m {
        var level := m[c];
        m := m - {c};
        if level.None? {
          return Err(TypeError);
        }
        m := m["plevel_" + c := level];
      }
    }
    if "plevel_10" !in m {
      return Err(KeyError);
    }
    if m["plevel_10"].None? {
      m := m["plevel_10" := Some(power * 0.8)];
    }
    if "plevel_90" !in m {
      return Err(KeyError);
    }
    if m["plevel_90"].None? {
      m := m["plevel_90" := Some(power * 1.2)];
    }
    r := Ok(m);
  }

  // ---------------------------------------------------------------------
  // filter_forecast_values

  /** One forecast with its values cut to the window, in their order. */
  function Trim(f: Forecast, start: Option<Instant>, end: Option<Instant>): Forecast
  {
    f.(values := Filter(f.values, Window(start, end)))
  }

  /** The specification of `filter_forecast_values`: without bounds the
      input; with bounds every forecast cut to the window. */
  function FilteredForecasts(forecasts: seq<Forecast>, start: Option<Instant>, end: Option<Instant>): seq<Forecast>
  {
    if start.None? && end.None? then forecasts
    else Map(forecasts, f => Trim(f, start, end))
  }

  /** The two list comprehensions of the loop keep the values of the window. */
  lemma TwoFilters(vs: seq<ForecastValue>, start: Option<Instant>, end: Option<Instant>)
    ensures var afterStart := if start.Some? then Filter(vs, NotBefore(start.value)) else vs;
      var afterEnd := if end.Some? then Filter(afterStart, NotAfter(end.value)) else afterStart;
      afterEnd == Filter(vs, Window(start, end))
  {
    var window := Window(start, end);
    if start.Some? && end.Some? {
      var p := NotBefore(start.value);
      var q := NotAfter(end.value);
      FilterFilter(vs, p, q);
      FilterExt(vs, Both(p, q), window);
    } else if start.Some? {
      FilterExt(vs, NotBefore(start.value), window);
    } else if end.Some? {
      FilterExt(vs, NotAfter(end.value), window);
    } else {
      FilterAll(vs, window);
    }
  }

  /** The body of the loop of `filter_forecast_values`: the two filtered
      comprehensions on one forecast's values. */
  method TrimOne(forecast: Forecast, start: Option<Instant>, end: Option<Instant>) returns (f: Forecast)
    ensures f == Trim(forecast, start, end)
  {
    var values := forecast.values;
    if start.Some? {
      values := Filter(values, NotBefore(start.value));
    }
    if end.Some? {
      values := Filter(values, NotAfter(end.value));
    }
    TwoFilters(forecast.values, start, end);
    f := forecast.(values := values);
  }

  /** `filter_forecast_values` as written: a loop over the forecasts that
      replaces each one's values by the two filtered comprehensions. */
  method FilterForecastValues(forecasts: seq<Forecast>, end: Option<Instant>, start: Option<Instant>)
    returns (r: seq<Forecast>)
    ensures r == FilteredForecasts(forecasts, start, end)
  {
    r := forecasts;
    if start.Some? || end.Some? {
      var filtered: seq<Forecast> := [];
      for i := 0 to |forecasts|
        invariant |filtered| == i
        invariant forall k :: 0 <= k < i ==> filtered[k] == Trim(forecasts[k], start, end)
      {
        var forecast := TrimOne(forecasts[i], start, end);
        filtered := filtered + [forecast];
      }
      r := filtered;
    }
  }

  /** Without bounds nothing is filtered; with bounds the number of forecasts
      is kept and each keeps exactly its values inside the inclusive window,
      in their original order, with every other field unchanged. */
  lemma {:induction false} FilteredForecastsSpec(forecasts: seq<Forecast>, start: Option<Instant>, end: Option<Instant>)
    ensures start.None? && end.None? ==> FilteredForecasts(forecasts, start, end) == forecasts
    ensures var r := FilteredForecasts(forecasts, start, end);
      && |r| == |forecasts|
      && (forall i :: 0 <= i < |r| ==> r[i].location == forecasts[i].location && r[i].latestValues == forecasts[i].latestValues)
      && (forall i, v :: 0 <= i < |r| ==> (v in r[i].values <==> v in forecasts[i].values && InWindow(v.targetTime, start, end)))
      && (forall i :: 0 <= i < |r| ==> IsSubsequence(r[i].values, forecasts[i].values))
    ensures var r := FilteredForecasts(forecasts, start, end);
      forall i :: 0 <= i < |r| ==>
        r[i].(values := forecasts[i].values) == forecasts[i] && r[i].values == Filter(forecasts[i].values, Window(start, end))
  {
    var r := FilteredForecasts(forecasts, start, end);
    forall i | 0 <= i < |r|
      ensures IsSubsequence(r[i].values, forecasts[i].values)
      ensures r[i].(values := forecasts[i].values) == forecasts[i]
      ensures r[i].values == Filter(forecasts[i].values, Window(start, end))
    {
      FilterSubsequence(forecasts[i].values, Window(start, end));
      if start.None? && end.None? {
        FilterAll(forecasts[i].values, Window(start, end));
      } else {
        assert r[i] == Trim(forecasts[i], start, end);
      }
    }
  }
}
