/**
 * The hand-written response cache of `src/cache.py`.
 *
 * `cache_response` wraps a route and keeps three dictionaries in its
 * closure: the last response per key, the instant it was stored, and
 * whether the route is running for that key. Each call logs the request,
 * evicts entries older than `delete_cache_time_seconds`, and then takes one
 * of the branches 1.0 to 1.4 of the source.
 *
 * The model is sequential. The wrapped route is not called: its return
 * value is the parameter `produced`, and `doneAt` is the clock reading
 * taken after it returns. `now` is the clock reading of the call (the
 * sweep and branch 1.2 use it). Sleeping is counted, not performed; since
 * nothing else runs meanwhile, the dictionaries do not change while the
 * wrapper polls them.
 */
module ResponseCache {
  import opened Common

  const CACHE_TIME_SECONDS: int := 120
  const DELETE_CACHE_TIME_SECONDS: int := 240
  const N_ATTEMPTS: int := 10

  /** The environment overrides of the three constants. */
  datatype Config = Config(cacheTimeSeconds: int, deleteCacheTimeSeconds: int, attempts: int)

  const DEFAULT_CONFIG: Config := Config(CACHE_TIME_SECONDS, DELETE_CACHE_TIME_SECONDS, N_ATTEMPTS)

  /** Keyword arguments of a route call, as (name, value) in call order. */
  type Kwargs = seq<(string, string)>

  /** The cache key: the keyword arguments without the three handles.
      `json.dumps` of that dict is injective, so the list itself stands for it. */
  type Key = seq<(string, string)>

  const HANDLES: set<string> := {"session", "user", "request"}

  predicate NotHandle(arg: (string, string)) { arg.0 !in HANDLES }

  /** `route_variables` after the three handles are popped. */
  function RouteKey(kwargs: Kwargs): (key: Key)
    ensures forall i :: 0 <= i < |key| ==> key[i] in kwargs && key[i].0 !in HANDLES
    ensures forall i :: 0 <= i < |kwargs| && kwargs[i].0 !in HANDLES ==> kwargs[i] in key
  {
    Filter(kwargs, NotHandle)
  }

  /** `kwargs.get(name, None)`. */
  function Get(kwargs: Kwargs, name: string): Option<string>
  {
    if |kwargs| == 0 then None
    else if kwargs[0].0 == name then Some(kwargs[0].1)
    else Get(kwargs[1..], name)
  }

  /** The arguments handed to `save_api_call_to_db` on every call. */
  datatype SavedCall = SavedCall(session: Option<string>, user: Option<string>, request: Option<string>)

  function SavedCallOf(kwargs: Kwargs): SavedCall
  {
    SavedCall(Get(kwargs, "session"), Get(kwargs, "user"), Get(kwargs, "request"))
  }

  // ---------------------------------------------------------------------
  // The three dictionaries as a value, and one call as a function of it

  datatype Store<V> = Store(response: map<Key, Option<V>>, lastUpdated: map<Key, Instant>, running: map<Key, bool>)

  /** Every key with a timestamp has a response, and the other way round. */
  predicate Synced<V>(s: Store<V>) { s.lastUpdated.Keys == s.response.Keys }

  /** `currently_running.get(key, False)`. */
  function Running<V>(s: Store<V>, key: Key): bool
  {
    key in s.running && s.running[key]
  }

  /** No route is marked running. */
  predicate Idle<V>(s: Store<V>) { forall k :: k in s.running ==> !s.running[k] }

  /** The entry stamped `stamp` is removed by the sweep at `now`. */
  predicate Expired(stamp: Instant, now: Instant, removeSeconds: int)
  {
    now - removeSeconds * SECOND > stamp
  }

  /** `remove_old_cache` on both maps. */
  function Sweep<V>(s: Store<V>, now: Instant, removeSeconds: int): Store<V>
  {
    Store(
      map k | k in s.response && !(k in s.lastUpdated && Expired(s.lastUpdated[k], now, removeSeconds)) :: s.response[k],
      map k | k in s.lastUpdated && !Expired(s.lastUpdated[k], now, removeSeconds) :: s.lastUpdated[k],
      s.running)
  }

  /** The branch that produced the answer. */
  datatype Branch =
    | JoinedRunner   // 1.0: another call finished while this one waited
    | FirstRun       // 1.1
    | StaleRerun     // 1.2
    | EmptyRerun     // 1.3
    | CacheHit       // 1.4

  /** What one call returns: a value (None is Python's None) and the seconds
      it slept, or the KeyError of line 147 when a running key has no timestamp. */
  datatype Outcome<V> = Served(value: Option<V>, branch: Branch, sleptSeconds: int) | LookupFailed(sleptSeconds: int)

  /** Seconds slept by a polling loop that never sees a change. */
  function FullWait(attempts: int): int { if attempts > 0 then attempts else 0 }

  /** The route's result is stored, the key is marked idle, and stamped. */
  function Invoke<V>(s: Store<V>, key: Key, produced: Option<V>, stamp: Instant): Store<V>
  {
    Store(s.response[key := produced], s.lastUpdated[key := stamp], s.running[key := false])
  }

  /** One call of the wrapper on key `key` from store `s`, in a sequential run. */
  function Step<V>(cfg: Config, s: Store<V>, key: Key, now: Instant, doneAt: Instant, produced: Option<V>)
    : (Store<V>, Outcome<V>)
  {
    Decide(cfg, Sweep(s, now, cfg.deleteCacheTimeSeconds), key, now, doneAt, produced)
  }

  /** Branches 1.0 to 1.4 on the swept store `t`. */
  function Decide<V>(cfg: Config, t: Store<V>, key: Key, now: Instant, doneAt: Instant, produced: Option<V>)
    : (Store<V>, Outcome<V>)
  {
    var running := Running(t, key);
    var waited := if running then FullWait(cfg.attempts) else 0;
    if key !in t.lastUpdated && !running then
      (Invoke(t, key, produced, doneAt), Served(produced, FirstRun, 0))
    else if key !in t.lastUpdated then
      (t, LookupFailed(waited))
    else if now - cfg.cacheTimeSeconds * SECOND > t.lastUpdated[key] && !running then
      (Invoke(t, key, produced, now), Served(produced, StaleRerun, 0))
    else if key !in t.response || t.response[key].None? then
      (Invoke(t, key, produced, now), Served(produced, EmptyRerun, waited + FullWait(cfg.attempts)))
    else
      (t, Served(t.response[key], CacheHit, waited))
  }

  // ---------------------------------------------------------------------
  // The imperative wrapper

  /** `remove_old_cache`: collect the expired keys of a copy of
      `last_updated`, then pop each from both maps (a missing response is the
      swallowed KeyError). */
  method RemoveOldCache<V>(lastUpdated: map<Key, Instant>, response: map<Key, V>, now: Instant, removeSeconds: int)
    returns (lastUpdated': map<Key, Instant>, response': map<Key, V>)
    ensures lastUpdated' == map k | k in lastUpdated && !Expired(lastUpdated[k], now, removeSeconds) :: lastUpdated[k]
    ensures response' == map k | k in response && !(k in lastUpdated && Expired(lastUpdated[k], now, removeSeconds)) :: response[k]
  {
    var keysToRemove: seq<Key> := [];
    var unseen := lastUpdated.Keys;
    while unseen != {}
      invariant unseen <= lastUpdated.Keys
      invariant forall k :: k in keysToRemove <==>
        k in lastUpdated && k !in unseen && Expired(lastUpdated[k], now, removeSeconds)
      decreases |unseen|
    {
      var key :| key in unseen;
      if Expired(lastUpdated[key], now, removeSeconds) {
        keysToRemove := keysToRemove + [key];
      }
      unseen := unseen - {key};
    }
    lastUpdated', response' := PopKeys(lastUpdated, response, keysToRemove);
  }

  /** The second loop of `remove_old_cache`: pop each key from
      `last_updated` and then from `response`; a key missing from either
      raises a KeyError that is logged and skips the rest of that key. */
  method PopKeys<V>(lastUpdated: map<Key, Instant>, response: map<Key, V>, keys: seq<Key>)
    returns (lastUpdated': map<Key, Instant>, response': map<Key, V>)
    requires forall k :: k in keys ==> k in lastUpdated
    ensures lastUpdated' == Without(lastUpdated, keys)
    ensures response' == Without(response, keys)
  {
    lastUpdated', response' := lastUpdated, response;
    var i := 0;
    while i < |keys|
      invariant 0 <= i <= |keys|
      invariant forall k :: k in lastUpdated' <==> k in lastUpdated && k !in keys[..i]
      invariant forall k :: k in response' <==> k in response && k !in keys[..i]
      invariant forall k :: k in lastUpdated' ==> lastUpdated'[k] == lastUpdated[k]
      invariant forall k :: k in response' ==> response'[k] == response[k]
    {
      var key := keys[i];
      assert keys[..i + 1] == keys[..i] + [key];
      if key in lastUpdated' {
        lastUpdated' := lastUpdated' - {key};
        if key in response' {
          response' := response' - {key};
        }
      } else {
        assert key in keys[..i];
      }
      i := i + 1;
    }
    assert keys[..|keys|] == keys;
  }

  /** A map without the keys listed in `done`. */
  function Without<W>(m: map<Key, W>, done: seq<Key>): (r: map<Key, W>)
    ensures forall k :: k in r <==> k in m && k !in done
  {
    map k | k in m && k !in done :: m[k]
  }

  class ResponseCache<V(==)> {
    const config: Config
    var response: map<Key, Option<V>>
    var lastUpdated: map<Key, Instant>
    var currentlyRunning: map<Key, bool>
    /** The calls made to `save_api_call_to_db`, oldest first. */
    var savedCalls: seq<SavedCall>

    function State(): Store<V>
      reads this
    {
      Store(response, lastUpdated, currentlyRunning)
    }

    predicate Valid()
      reads this
    {
      Synced(State())
    }

    /** A freshly decorated route: three empty dictionaries. */
    constructor (config: Config)
      ensures Valid() && this.config == config && Idle(State())
      ensures response == map[] && lastUpdated == map[] && currentlyRunning == map[] && savedCalls == []
    {
      this.config := config;
      response, lastUpdated, currentlyRunning := map[], map[], map[];
      savedCalls := [];
    }

    /** Branch 1.0's loop: poll once per second while the route is marked
        running. Returns the cached response if it finished with one. */
    method AwaitRunner(key: Key) returns (cached: Option<Option<V>>, polls: int)
      ensures cached.Some? <==> config.attempts > 0 && !Running(State(), key) && key in response
      ensures cached.Some? ==> key in response && cached.value == response[key]
      ensures polls == if config.attempts > 0 && !Running(State(), key) then 1 else FullWait(config.attempts)
    {
      cached := None;
      var attempt := 0;
      while attempt < config.attempts
        invariant 0 <= attempt && (attempt <= config.attempts || attempt == 0)
        invariant attempt > 0 ==> Running(State(), key)
      {
        attempt := attempt + 1;
        if !Running(State(), key) {
          if key in response {
            cached := Some(response[key]);
            return cached, attempt;
          } else {
            break;
          }
        }
      }
      polls := attempt;
    }

    /** Branch 1.3's loop: poll once per second until a non-None response is
        stored. Returns the attempts made. */
    method AwaitResponse(key: Key) returns (attempt: int)
      ensures attempt == if config.attempts <= 0 then 0
                         else if key in response && response[key].Some? then 1
                         else config.attempts
    {
      attempt := 0;
      while attempt < config.attempts
        invariant 0 <= attempt && (attempt <= config.attempts || attempt == 0)
        invariant attempt > 0 ==> !(key in response && response[key].Some?)
      {
        attempt := attempt + 1;
        if key in response && response[key].Some? {
          break;
        }
      }
    }

    /** One call of the wrapped route with keyword arguments `kwargs`. */
    method Call(kwargs: Kwargs, now: Instant, doneAt: Instant, produced: Option<V>) returns (outcome: Outcome<V>)
      requires Valid()
      modifies this
      ensures Valid()
      ensures savedCalls == old(savedCalls) + [SavedCallOf(kwargs)]
      ensures (State(), outcome) == Step(config, old(State()), RouteKey(kwargs), now, doneAt, produced)
    {
      savedCalls := savedCalls + [SavedCallOf(kwargs)];
      var key := RouteKey(kwargs);
      lastUpdated, response := RemoveOldCache(lastUpdated, response, now, config.deleteCacheTimeSeconds);
      assert State() == Sweep(old(State()), now, config.deleteCacheTimeSeconds);
      outcome := Dispatch(key, now, doneAt, produced);
    }

    /** Mark the key running, run the route (whose result is `produced`),
        store the result, mark the key idle and stamp it. */
    method RunRoute(key: Key, produced: Option<V>, stamp: Instant)
      requires Valid()
      modifies this`response, this`lastUpdated, this`currentlyRunning
      ensures Valid()
      ensures State() == Invoke(old(State()), key, produced, stamp)
    {
      currentlyRunning := currentlyRunning[key := true];
      response := response[key := produced];
      currentlyRunning := currentlyRunning[key := false];
      lastUpdated := lastUpdated[key := stamp];
      assert currentlyRunning == old(currentlyRunning)[key := false];
    }

    /** Branches 1.0 to 1.4, after the sweep. */
    method Dispatch(key: Key, now: Instant, doneAt: Instant, produced: Option<V>) returns (outcome: Outcome<V>)
      requires Valid()
      modifies this`response, this`lastUpdated, this`currentlyRunning
      ensures Valid()
      ensures (State(), outcome) == Decide(config, old(State()), key, now, doneAt, produced)
    {
      var slept := 0;

      // 1.0
      if Running(State(), key) {
        var cached, polls := AwaitRunner(key);
        slept := polls;
        match cached {
          case Some(value) =>
            outcome := Served(value, JoinedRunner, slept);
            return;
          case None =>
        }
      }

      // 1.1
      if key !in lastUpdated && !Running(State(), key) {
        RunRoute(key, produced, doneAt);
        assert slept == 0;
        outcome := Served(response[key], FirstRun, slept);
        return;
      }

      // 1.2
      if key !in lastUpdated {
        outcome := LookupFailed(slept);
        return;
      }
      if now - config.cacheTimeSeconds * SECOND > lastUpdated[key] && !Running(State(), key) {
        RunRoute(key, produced, now);
        outcome := Served(response[key], StaleRerun, slept);
        return;
      }

      // 1.3
      if key !in response || response[key].None? {
        var attempt := AwaitResponse(key);
        slept := slept + attempt;
        if attempt >= config.attempts {
          RunRoute(key, produced, now);
          assert slept == (if Running(old(State()), key) then FullWait(config.attempts) else 0) + FullWait(config.attempts);
          outcome := Served(response[key], EmptyRerun, slept);
          return;
        }
      }

      // 1.4
      outcome := Served(response[key], CacheHit, slept);
    }
  }

  // ---------------------------------------------------------------------
  // What one call does

  /** The cache key ignores the handles: adding a session, user or request
      argument anywhere leaves the key unchanged. */
  lemma HandlesIgnored(before: Kwargs, name: string, value: string, after: Kwargs)
    requires name in HANDLES
    ensures RouteKey(before + [(name, value)] + after) == RouteKey(before + after)
  {
    FilterAppend(before + [(name, value)], after, NotHandle);
    FilterAppend(before, [(name, value)], NotHandle);
    FilterAppend(before, after, NotHandle);
    assert [(name, value)][..0] == [];
  }

  /** 1.1: a key with no timestamp that is not running is computed once,
      stored with the instant the route returned, and its result returned. */
  lemma FirstCall<V>(cfg: Config, s: Store<V>, key: Key, now: Instant, doneAt: Instant, produced: Option<V>)
    requires key !in s.lastUpdated && !Running(s, key)
    ensures var (s', out) := Step(cfg, s, key, now, doneAt, produced);
      && out == Served(produced, FirstRun, 0)
      && s'.response[key] == produced && s'.lastUpdated[key] == doneAt && !Running(s', key)
  {
  }

  /** 1.4: within `cache_time_seconds` of its timestamp, and when the
      eviction window is at least as long, a stored non-None response is
      returned without running the route and without changing its entry. */
  lemma FreshHit<V>(cfg: Config, s: Store<V>, key: Key, now: Instant, doneAt: Instant, produced: Option<V>)
    requires Synced(s) && !Running(s, key) && key in s.lastUpdated && s.response[key].Some?
    requires cfg.cacheTimeSeconds <= cfg.deleteCacheTimeSeconds
    requires now - cfg.cacheTimeSeconds * SECOND <= s.lastUpdated[key]
    ensures var (s', out) := Step(cfg, s, key, now, doneAt, produced);
      && out == Served(s.response[key], CacheHit, 0)
      && key in s'.response && s'.response[key] == s.response[key]
      && key in s'.lastUpdated && s'.lastUpdated[key] == s.lastUpdated[key]
  {
    assert (cfg.deleteCacheTimeSeconds - cfg.cacheTimeSeconds) * SECOND >= 0;
  }

  /** 1.2: an entry older than `cache_time_seconds` but not yet evicted is
      computed again and stamped with this call's time. */
  lemma StaleEntryRerun<V>(cfg: Config, s: Store<V>, key: Key, now: Instant, doneAt: Instant, produced: Option<V>)
    requires !Running(s, key) && key in s.lastUpdated
    requires !Expired(s.lastUpdated[key], now, cfg.deleteCacheTimeSeconds)
    requires now - cfg.cacheTimeSeconds * SECOND > s.lastUpdated[key]
    ensures var (s', out) := Step(cfg, s, key, now, doneAt, produced);
      && out == Served(produced, StaleRerun, 0)
      && s'.response[key] == produced && s'.lastUpdated[key] == now
  {
  }

  /** With the default constants an entry is re-run between 120 and 240
      seconds after its stamp, and computed afresh after that. */
  lemma DefaultStaleOrEvicted<V>(s: Store<V>, key: Key, now: Instant, doneAt: Instant, produced: Option<V>)
    requires !Running(s, key) && key in s.lastUpdated && now > s.lastUpdated[key] + 120 * SECOND
    ensures var (s', out) := Step(DEFAULT_CONFIG, s, key, now, doneAt, produced);
      && out.Served? && s'.response[key] == produced
      && out.branch == (if now > s.lastUpdated[key] + 240 * SECOND then FirstRun else StaleRerun)
  {
  }

  /** A stored None is never served: the call polls for the full number of
      attempts and then runs the route. */
  lemma NoneNeverServed<V>(cfg: Config, s: Store<V>, key: Key, now: Instant, doneAt: Instant, produced: Option<V>)
    ensures var (s', out) := Step(cfg, s, key, now, doneAt, produced);
      && (out.Served? && out.branch == CacheHit ==> out.value.Some?)
      && (out.Served? && out.branch == EmptyRerun ==>
            out.sleptSeconds >= FullWait(cfg.attempts) && s'.response[key] == produced)
  {
  }

  /** 1.3 is taken when a fresh entry holds None. */
  lemma EmptyEntryRerun<V>(cfg: Config, s: Store<V>, key: Key, now: Instant, doneAt: Instant, produced: Option<V>)
    requires Synced(s) && !Running(s, key) && key in s.lastUpdated && s.response[key].None?
    requires !Expired(s.lastUpdated[key], now, cfg.deleteCacheTimeSeconds)
    requires now - cfg.cacheTimeSeconds * SECOND <= s.lastUpdated[key]
    ensures var (s', out) := Step(cfg, s, key, now, doneAt, produced);
      && out == Served(produced, EmptyRerun, FullWait(cfg.attempts))
      && s'.response[key] == produced && s'.lastUpdated[key] == now
  {
  }

  /** The sweep removes exactly the expired keys, from both maps. */
  lemma SweepExact<V>(s: Store<V>, now: Instant, removeSeconds: int, k: Key)
    requires Synced(s)
    ensures var t := Sweep(s, now, removeSeconds);
      && Synced(t)
      && (k in t.lastUpdated <==> k in s.lastUpdated && !Expired(s.lastUpdated[k], now, removeSeconds))
      && (k in t.lastUpdated ==> t.lastUpdated[k] == s.lastUpdated[k] && t.response[k] == s.response[k])
  {
  }

  /** Every call keeps the two maps in step and leaves the called key idle
      whenever it ran the route; from an idle store it stays idle. */
  lemma StepKeepsInvariants<V>(cfg: Config, s: Store<V>, key: Key, now: Instant, doneAt: Instant, produced: Option<V>)
    requires Synced(s)
    ensures var (s', out) := Step(cfg, s, key, now, doneAt, produced);
      && Synced(s')
      && (Idle(s) ==> Idle(s'))
      && (out.Served? && out.branch != CacheHit ==> !Running(s', key))
  {
  }

  // ---------------------------------------------------------------------
  // Sequential runs

  datatype Request<V> = Request(kwargs: Kwargs, now: Instant, doneAt: Instant, produced: Option<V>)

  /** The outcomes of a sequence of calls, one after the other. */
  function Run<V>(cfg: Config, s: Store<V>, calls: seq<Request<V>>): (Store<V>, seq<Outcome<V>>)
    decreases |calls|
  {
    if |calls| == 0 then (s, [])
    else
      var c := calls[0];
      var (s1, out) := Step(cfg, s, RouteKey(c.kwargs), c.now, c.doneAt, c.produced);
      var (s2, outs) := Run(cfg, s1, calls[1..]);
      (s2, [out] + outs)
  }

  /** In a sequential run from an idle store, no call ever waits for another
      one and no call fails: the waiting branch 1.0 and the KeyError of line
      147 are unreachable, and only 1.3 sleeps. */
  lemma {:induction false} SequentialRunNeverWaits<V>(cfg: Config, s: Store<V>, calls: seq<Request<V>>)
    requires Synced(s) && Idle(s)
    ensures var (s', outs) := Run(cfg, s, calls);
      && |outs| == |calls| && Synced(s') && Idle(s')
      && forall i :: 0 <= i < |outs| ==>
           outs[i].Served? && outs[i].branch != JoinedRunner &&
           outs[i].sleptSeconds == (if outs[i].branch == EmptyRerun then FullWait(cfg.attempts) else 0)
    decreases |calls|
  {
    if |calls| > 0 {
      var c := calls[0];
      var (s1, out) := Step(cfg, s, RouteKey(c.kwargs), c.now, c.doneAt, c.produced);
      StepKeepsInvariants(cfg, s, RouteKey(c.kwargs), c.now, c.doneAt, c.produced);
      SequentialRunNeverWaits(cfg, s1, calls[1..]);
      var (s2, outs) := Run(cfg, s1, calls[1..]);
      assert Run(cfg, s, calls).1 == [out] + outs;
      assert forall i :: 0 < i <= |outs| ==> ([out] + outs)[i] == outs[i - 1];
    }
  }
}
