/**
 * The fastapi-cache configuration of `nowcasting_api/cache.py`: the cache
 * key built from a request, the decorator's settings and the API-call
 * logging dependency.
 *
 * A key is `f"{path}:{sorted(query_params.items())}"`. The model keeps it
 * as the pair (path, sorted parameter list); the f-string and the `repr`
 * of the list render that pair injectively, so two keys are equal exactly
 * when the pairs are.
 */
module ApiCache {
  import opened Common
  import opened Grouping
  import opened Models
  import Database
  import Decimal

  /** The defaults of the seconds a cached response lives and of the age at
      which the hand-written cache of the other service evicts it
      (`CACHE_TIME_SECONDS`, `DELETE_CACHE_TIME_SECONDS`); the environment
      may override both, see `EnvSeconds`. */
  const CACHE_TIME_SECONDS: int := 120
  const DELETE_CACHE_TIME_SECONDS: int := 240

  /** `int(os.getenv(name, default))`, from the variable's text (None when
      it is not set): the default when unset, otherwise the text read as an
      integer, and ValueError when it is not one. */
  function EnvSeconds(value: Option<string>, default: int): (r: Result<int>)
    ensures value.None? ==> r == Ok(default)
    ensures r.Err? ==> value.Some? && r.error == ValueError
  {
    if value.None? then Ok(default) else Decimal.ParseInt(value.value)
  }

  /** A variable set to the decimal text of a number configures exactly that
      number, whatever the default. */
  lemma EnvSecondsRendered(n: int, default: int)
    ensures EnvSeconds(Some(Decimal.Render(n)), default) == Ok(n)
  {
    Decimal.RenderRoundTrip(n);
  }

  type Param = (string, string)

  /** `request.query_params.items()`: Starlette keeps, for each name, the
      value of its last occurrence, at the place the name first occurred. */
  function QueryItems(r: HttpRequest): seq<Param>
  {
    Items(PutFold(r.query))
  }

  /** The parameter map of a request: name to its (last) value. */
  function QueryMap(r: HttpRequest): map<string, string>
  {
    PutFold(r.query).entries
  }

  // ---------------------------------------------------------------------
  // Python's order on strings and on (name, value) tuples

  /** `a < b` on Python strings: code points compared left to right, a
      proper prefix is smaller. */
  predicate StrLess(a: string, b: string)
    decreases |a|
  {
    if |a| == 0 then |b| > 0
    else |b| > 0 && (a[0] < b[0] || (a[0] == b[0] && StrLess(a[1..], b[1..])))
  }

  /** `p < q` on tuples of two strings. */
  predicate PairLess(p: Param, q: Param)
  {
    StrLess(p.0, q.0) || (p.0 == q.0 && StrLess(p.1, q.1))
  }

  predicate PairLe(p: Param, q: Param)
  {
    p == q || PairLess(p, q)
  }

  lemma {:induction false} StrLessIrreflexive(a: string)
    ensures !StrLess(a, a)
  {
    if |a| > 0 {
      StrLessIrreflexive(a[1..]);
    }
  }

  lemma {:induction false} StrLessAsymmetric(a: string, b: string)
    ensures StrLess(a, b) ==> !StrLess(b, a)
    decreases |a|
  {
    if |a| > 0 && |b| > 0 {
      StrLessAsymmetric(a[1..], b[1..]);
    }
  }

  lemma {:induction false} StrLessTransitive(a: string, b: string, c: string)
    requires StrLess(a, b) && StrLess(b, c)
    ensures StrLess(a, c)
    decreases |a|
  {
    if |a| > 0 && a[0] == b[0] && b[0] == c[0] {
      StrLessTransitive(a[1..], b[1..], c[1..]);
    }
  }

  lemma {:induction false} StrLessTotal(a: string, b: string)
    ensures a == b || StrLess(a, b) || StrLess(b, a)
    decreases |a|
  {
    if |a| > 0 && |b| > 0 && a[0] == b[0] {
      StrLessTotal(a[1..], b[1..]);
      if a[1..] == b[1..] {
        assert a == [a[0]] + a[1..] && b == [b[0]] + b[1..];
      }
    }
  }

  /** The tuple order is a strict total order. */
  lemma PairOrder(p: Param, q: Param, s: Param)
    ensures !PairLess(p, p)
    ensures PairLess(p, q) ==> !PairLess(q, p)
    ensures PairLess(p, q) && PairLess(q, s) ==> PairLess(p, s)
    ensures p == q || PairLess(p, q) || PairLess(q, p)
  {
    StrLessIrreflexive(p.0);
    StrLessIrreflexive(p.1);
    StrLessAsymmetric(p.0, q.0);
    StrLessAsymmetric(p.1, q.1);
    StrLessTotal(p.0, q.0);
    StrLessTotal(p.1, q.1);
    if PairLess(p, q) && PairLess(q, s) {
      if StrLess(p.0, q.0) && StrLess(q.0, s.0) {
        StrLessTransitive(p.0, q.0, s.0);
      } else if p.0 == q.0 && q.0 == s.0 {
        StrLessTransitive(p.1, q.1, s.1);
      }
    }
  }

  // ---------------------------------------------------------------------
  // sorted()

  predicate Sorted(s: seq<Param>)
  {
    forall i, j :: 0 <= i < j < |s| ==> PairLe(s[i], s[j])
  }

  function Insert(x: Param, s: seq<Param>): (r: seq<Param>)
    requires Sorted(s)
    ensures Sorted(r) && multiset(r) == multiset(s) + multiset{x}
  {
    if |s| == 0 then [x]
    else if PairLe(x, s[0]) then
      assert forall j :: 0 <= j < |s| ==> PairLe(x, s[j]) by {
        forall j | 0 <= j < |s| ensures PairLe(x, s[j]) {
          PairOrder(x, s[0], s[j]);
        }
      }
      [x] + s
    else
      PairOrder(x, s[0], x);
      SortedTail(s);
      var rest := Insert(x, s[1..]);
      ConsSorted(s, x, rest);
      [s[0]] + rest
  }

  /** Putting the head of a sorted list in front of a sorted list of its
      other elements and one larger element keeps it sorted. */
  lemma ConsSorted(s: seq<Param>, x: Param, rest: seq<Param>)
    requires Sorted(s) && |s| > 0 && PairLe(s[0], x)
    requires Sorted(rest) && multiset(rest) == multiset(s[1..]) + multiset{x}
    ensures Sorted([s[0]] + rest)
    ensures multiset([s[0]] + rest) == multiset(s) + multiset{x}
  {
    assert s == [s[0]] + s[1..];
    var r := [s[0]] + rest;
    forall j | 0 <= j < |rest| ensures PairLe(s[0], rest[j]) {
      assert rest[j] in multiset(rest);
      if rest[j] != x {
        assert rest[j] in multiset(s[1..]);
        var k :| 0 <= k < |s[1..]| && s[1..][k] == rest[j];
        assert s[k + 1] == rest[j];
      }
    }
    forall i, j | 0 <= i < j < |r| ensures PairLe(r[i], r[j]) {
      if i > 0 {
        assert r[i] == rest[i - 1] && r[j] == rest[j - 1];
      } else {
        assert r[j] == rest[j - 1];
      }
    }
  }

  /** `sorted(items)`: insertion sort, which gives the same list as any
      other sort on a total order. */
  function Sort(s: seq<Param>): (r: seq<Param>)
    ensures Sorted(r) && multiset(r) == multiset(s)
  {
    if |s| == 0 then []
    else
      assert s == [s[0]] + s[1..];
      Insert(s[0], Sort(s[1..]))
  }

  /** The first element of a sorted list is below every other one. */
  lemma SortedHeadLeast(a: seq<Param>, x: Param)
    requires Sorted(a) && x in multiset(a)
    ensures PairLe(a[0], x)
  {
    var i :| 0 <= i < |a| && a[i] == x;
    if i > 0 {
      assert PairLe(a[0], a[i]);
    }
  }

  lemma SortedTail(a: seq<Param>)
    requires Sorted(a) && |a| > 0
    ensures Sorted(a[1..])
  {
    var t := a[1..];
    forall i, j | 0 <= i < j < |t| ensures PairLe(t[i], t[j]) {
      assert t[i] == a[i + 1] && t[j] == a[j + 1];
    }
  }

  lemma SameHeadTails(a: seq<Param>, b: seq<Param>)
    requires |a| > 0 && |b| > 0 && a[0] == b[0] && multiset(a) == multiset(b)
    ensures multiset(a[1..]) == multiset(b[1..])
  {
    assert a == [a[0]] + a[1..] && b == [b[0]] + b[1..];
    assert multiset(a[1..]) == multiset(a) - multiset{a[0]};
    assert multiset(b[1..]) == multiset(b) - multiset{b[0]};
  }

  /** Two sorted lists with the same elements are the same list. */
  lemma {:induction false} SortedUnique(a: seq<Param>, b: seq<Param>)
    requires Sorted(a) && Sorted(b) && multiset(a) == multiset(b)
    ensures a == b
  {
    if |a| > 0 {
      assert |b| == |a| by {
        assert |multiset(b)| == |multiset(a)|;
      }
      assert a[0] == b[0] by {
        SortedHeadLeast(b, a[0]);
        SortedHeadLeast(a, b[0]);
        PairOrder(a[0], b[0], a[0]);
      }
      SameHeadTails(a, b);
      SortedTail(a);
      SortedTail(b);
      SortedUnique(a[1..], b[1..]);
      assert a == [a[0]] + a[1..] && b == [b[0]] + b[1..];
    }
  }

  // ---------------------------------------------------------------------
  // generate_cache_key

  datatype CacheKey = CacheKey(path: string, params: seq<Param>)

  /** `generate_cache_key(func, request, *args, **kwargs)`: the key depends
      on the request alone, which is why the route handler and the other
      arguments do not appear here. */
  function GenerateCacheKey(request: HttpRequest): (k: CacheKey)
    ensures k.path == request.path
    ensures Sorted(k.params) && multiset(k.params) == multiset(QueryItems(request))
  {
    CacheKey(request.path, Sort(QueryItems(request)))
  }

  /** A dict's items: each key once, with its value. */
  lemma ItemsMembers(d: ODict<string, string>)
    requires Wf(d)
    ensures Distinct(Items(d))
    ensures forall p :: p in Items(d) <==> p.0 in d.entries && p.1 == d.entries[p.0]
  {
    var its := Items(d);
    forall p: Param | p.0 in d.entries && p.1 == d.entries[p.0]
      ensures p in its
    {
      var i :| 0 <= i < |d.keys| && d.keys[i] == p.0;
      assert its[i] == p;
    }
  }

  /** A list without duplicates holds each of its elements once. */
  lemma {:induction false} DistinctCount(a: seq<Param>, x: Param)
    requires Distinct(a)
    ensures multiset(a)[x] == if x in a then 1 else 0
  {
    if |a| > 0 {
      var n := |a| - 1;
      assert a == a[..n] + [a[n]];
      assert Distinct(a[..n]);
      DistinctCount(a[..n], x);
      if x == a[n] {
        assert x !in a[..n];
      }
    }
  }

  lemma SameItemsMultiset(d1: ODict<string, string>, d2: ODict<string, string>)
    requires Wf(d1) && Wf(d2)
    ensures d1.entries == d2.entries <==> multiset(Items(d1)) == multiset(Items(d2))
  {
    ItemsMembers(d1);
    ItemsMembers(d2);
    if d1.entries == d2.entries {
      forall x ensures multiset(Items(d1))[x] == multiset(Items(d2))[x] {
        DistinctCount(Items(d1), x);
        DistinctCount(Items(d2), x);
      }
    }
    if multiset(Items(d1)) == multiset(Items(d2)) {
      forall k | k in d1.entries ensures k in d2.entries && d2.entries[k] == d1.entries[k] {
        assert (k, d1.entries[k]) in multiset(Items(d2));
      }
      forall k | k in d2.entries ensures k in d1.entries {
        assert (k, d2.entries[k]) in multiset(Items(d1));
      }
    }
  }

  /** Two requests share a key exactly when they have the same path and the
      same parameters: the order of the parameters in the URL does not
      matter, an extra or changed parameter gives another key. */
  lemma SameKeyIff(r1: HttpRequest, r2: HttpRequest)
    ensures GenerateCacheKey(r1) == GenerateCacheKey(r2) <==>
      r1.path == r2.path && QueryMap(r1) == QueryMap(r2)
  {
    SameItemsMultiset(PutFold(r1.query), PutFold(r2.query));
    if r1.path == r2.path && QueryMap(r1) == QueryMap(r2) {
      SortedUnique(GenerateCacheKey(r1).params, GenerateCacheKey(r2).params);
    }
  }

  /** Names occurring once each, values as given. */
  lemma DistinctNamesMap(q: seq<Param>, p: Param)
    requires Distinct(Keys(q))
    ensures p in q <==> p.0 in PutFold(q).entries && PutFold(q).entries[p.0] == p.1
  {
    if p in q {
      var j :| 0 <= j < |q| && q[j] == p;
      DistinctLast(q, j);
    }
    if p.0 in PutFold(q).entries {
      PutFoldKeys(q, p.0);
      var j :| 0 <= j < |q| && Keys(q)[j] == p.0;
      assert q[j].0 == p.0;
      DistinctLast(q, j);
      assert PutFold(q).entries[p.0] == q[j].1;
    }
  }

  /** With distinct names every pair is the last with its name. */
  lemma DistinctLast(q: seq<Param>, j: int)
    requires Distinct(Keys(q)) && 0 <= j < |q|
    ensures q[j].0 in PutFold(q).entries && PutFold(q).entries[q[j].0] == q[j].1
  {
    assert LastKeyAt(q, j) by {
      forall l | j < l < |q|
        ensures q[l].0 != q[j].0
      {
        assert Keys(q)[l] == q[l].0 && Keys(q)[j] == q[j].0;
      }
    }
    PutFoldLast(q, j);
  }

  /** Two lists of pairs with distinct names and the same members build the
      same map. */
  lemma SameMembersSameMap(q1: seq<Param>, q2: seq<Param>)
    requires Distinct(Keys(q1)) && Distinct(Keys(q2))
    requires forall p :: p in q1 <==> p in q2
    ensures PutFold(q1).entries == PutFold(q2).entries
  {
    var m1, m2 := PutFold(q1).entries, PutFold(q2).entries;
    forall k | k in m1 ensures k in m2 && m2[k] == m1[k] {
      DistinctNamesMap(q1, (k, m1[k]));
      DistinctNamesMap(q2, (k, m1[k]));
    }
    forall k | k in m2 ensures k in m1 {
      DistinctNamesMap(q2, (k, m2[k]));
      DistinctNamesMap(q1, (k, m2[k]));
    }
  }

  /** The same parameters in any order give the same key. */
  lemma ReorderedSameKey(r1: HttpRequest, r2: HttpRequest)
    requires r1.path == r2.path
    requires Distinct(Keys(r1.query)) && Distinct(Keys(r2.query))
    requires forall p :: p in r1.query <==> p in r2.query
    ensures GenerateCacheKey(r1) == GenerateCacheKey(r2)
  {
    SameMembersSameMap(r1.query, r2.query);
    SameKeyIff(r1, r2);
  }

  /** A parameter that is new, or that changes a value, changes the key,
      so such a request does not hit the cached entry (e.g. `?test=test2`). */
  lemma ExtraParameterNewKey(r: HttpRequest, name: string, value: string)
    requires name !in QueryMap(r) || QueryMap(r)[name] != value
    ensures GenerateCacheKey(r) != GenerateCacheKey(r.(query := r.query + [(name, value)]))
  {
    var r2 := r.(query := r.query + [(name, value)]);
    assert r2.query[..|r2.query| - 1] == r.query;
    assert QueryMap(r2) == QueryMap(r)[name := value];
    SameKeyIff(r, r2);
  }

  // ---------------------------------------------------------------------
  // cache_response and save_api_call

  datatype CacheSettings = CacheSettings(expire: int, namespace: string, keyBuilder: HttpRequest -> CacheKey)

  /** `cache_response(expiration)`: the settings handed to fastapi-cache;
      without an expiration the configured `CACHE_TIME_SECONDS`, which is
      `cacheTimeSeconds` (the value `EnvSeconds` read at import). */
  function CacheResponse(expiration: Option<int>, cacheTimeSeconds: int): (s: CacheSettings)
    ensures s.expire == if expiration.Some? then expiration.value else cacheTimeSeconds
    ensures s.namespace == "api"
    ensures forall r :: s.keyBuilder(r) == GenerateCacheKey(r)
  {
    CacheSettings(if expiration.Some? then expiration.value else cacheTimeSeconds, "api", GenerateCacheKey)
  }

  /** Without an expiration a response lives for the configured default
      `d`, whatever it is; an explicit expiration overrides it. */
  lemma ConfiguredExpiry(d: int, e: int)
    ensures CacheResponse(None, EnvSeconds(None, d).value).expire == d
    ensures CacheResponse(Some(e), d).expire == e
  {
  }

  /** Without an expiration and without the variable set, a response is
      cached for 120 seconds; with the variable set to the text of `n`, for
      `n` seconds. */
  lemma DefaultExpiry(n: int)
    ensures EnvSeconds(None, CACHE_TIME_SECONDS).Ok?
      && CacheResponse(None, EnvSeconds(None, CACHE_TIME_SECONDS).value).expire == 120
    ensures EnvSeconds(Some(Decimal.Render(n)), CACHE_TIME_SECONDS).Ok?
      && CacheResponse(None, EnvSeconds(Some(Decimal.Render(n)), CACHE_TIME_SECONDS).value).expire == n
  {
    EnvSecondsRendered(n, CACHE_TIME_SECONDS);
  }

  /** `save_api_call`: the dependency logs the call and hands the request on. */
  method SaveApiCall(request: HttpRequest, user: Option<Database.User>, session: Database.Session)
    returns (r: HttpRequest)
    modifies session
    ensures r == request
    ensures session.pending == []
    ensures session.committed == old(session.committed) + old(session.pending)
      + [Database.ApiRequest(request.url, Database.EmailOf(user))]
  {
    Database.SaveApiCallToDb(request, session, user);
    r := request;
  }
}
