/** The cached, throttled and retried iNaturalist API requests of inat_api.py
    (`get_taxa_by_id` and `get_taxa`). The HTTP server is a sequence of
    responses, the clock an explicit reading in seconds. */
module ApiCache {
  import opened Wrappers
  import opened Text
  import opened Throttling

  const ApiHost: string := "https://api.inaturalist.org/v1"
  /** Two weeks, in seconds. */
  const CacheExpiration: int := 14 * 24 * 3600
  /** The first pause after a "too many requests" answer, in seconds. */
  const TooManyApiCallsDelay: int := 60

  const StatusOk: int := 200
  const StatusTooMany: int := 429

  /** A cached answer: the time its request started and the decoded body. */
  datatype Entry = Entry(stamp: real, payload: string)

  /** A request parameter value; `get_taxa` spells booleans as text. */
  datatype ParamValue = Flag(b: bool) | Text(s: string)
  datatype Param = Param(name: string, value: ParamValue)

  /** A cache key: the URL of an id request, or the URL and parameters of a
      query (the source keys the latter by their serialization). */
  datatype Key = UrlKey(url: string) | QueryKey(url: string, params: seq<Param>)

  /** One answer of the server. */
  datatype Response = Response(status: int, payload: string)

  /** The argument of `get_taxa_by_id`: one id or a list of ids. */
  datatype IdArg = OneId(id: int) | IdList(ids: seq<int>)

  /** The URL `get_taxa_by_id` requests: the ids joined by an encoded comma. */
  function TaxaUrl(arg: IdArg): string
  {
    match arg
    case OneId(id) => ApiHost + "/taxa/" + IntToString(id)
    case IdList(ids) => ApiHost + "/taxa/" + JoinWith(IntStrings(ids), "%2C")
  }

  /** A single id and the list holding only it share one URL, hence one
      cache entry. */
  lemma SingleIdUrl(id: int)
    ensures TaxaUrl(OneId(id)) == TaxaUrl(IdList([id]))
  {
    assert IntStrings([id]) == [IntToString(id)];
  }

  /** `True` and `False` become 'true' and 'false'; other values stay. */
  function NormalizeValue(v: ParamValue): (r: ParamValue)
    ensures r.Text?
    ensures v.Text? ==> r == v
  {
    match v
    case Flag(b) => Text(if b then "true" else "false")
    case Text(s) => v
  }

  /** The boolean rewriting `get_taxa` applies before forming its key. */
  function NormalizeParams(ps: seq<Param>): (r: seq<Param>)
    ensures |r| == |ps|
    ensures forall i :: 0 <= i < |ps| ==> r[i].name == ps[i].name && r[i].value == NormalizeValue(ps[i].value)
  {
    seq(|ps|, i requires 0 <= i < |ps| => Param(ps[i].name, NormalizeValue(ps[i].value)))
  }

  /** Two values a request cannot tell apart: equal, or a boolean and its
      spelling. */
  predicate SameSpelling(v: ParamValue, w: ParamValue)
  {
    || v == w
    || (v.Flag? && w == Text(if v.b then "true" else "false"))
    || (w.Flag? && v == Text(if w.b then "true" else "false"))
  }

  /** Normalized parameters contain no booleans and normalizing again
      changes nothing. */
  lemma NormalizeIdempotent(ps: seq<Param>)
    ensures forall i :: 0 <= i < |ps| ==> NormalizeParams(ps)[i].value.Text?
    ensures NormalizeParams(NormalizeParams(ps)) == NormalizeParams(ps)
  {
  }

  /** Two parameter lists get the same key exactly when they name the same
      parameters in the same order with values a request cannot tell apart. */
  lemma SameKeyIffSameSpelling(ps: seq<Param>, qs: seq<Param>)
    ensures NormalizeParams(ps) == NormalizeParams(qs) <==>
              && |ps| == |qs|
              && forall i :: 0 <= i < |ps| ==> ps[i].name == qs[i].name && SameSpelling(ps[i].value, qs[i].value)
  {
    if NormalizeParams(ps) == NormalizeParams(qs) {
      forall i | 0 <= i < |ps|
        ensures ps[i].name == qs[i].name && SameSpelling(ps[i].value, qs[i].value)
      {
        assert NormalizeParams(ps)[i] == NormalizeParams(qs)[i];
      }
    }
    if |ps| == |qs| && forall i :: 0 <= i < |ps| ==> ps[i].name == qs[i].name && SameSpelling(ps[i].value, qs[i].value) {
      assert forall i :: 0 <= i < |ps| ==> NormalizeParams(ps)[i] == NormalizeParams(qs)[i];
    }
  }

  /** The key `get_taxa` caches under. */
  function QueryCacheKey(params: seq<Param>): Key
  {
    QueryKey(ApiHost + "/taxa", NormalizeParams(params))
  }

  /** An entry stored at `stamp` is still served at `now`. */
  predicate Fresh(e: Entry, now: real)
  {
    e.stamp >= now - CacheExpiration as real
  }

  /** The answer the cache gives at `now` without a request. */
  function Cached(cache: map<Key, Entry>, key: Key, now: real): Option<string>
  {
    if key in cache && Fresh(cache[key], now) then Some(cache[key].payload) else None
  }

  /** An answer stored by a request that started at `start` is served for
      exactly the two weeks that follow. */
  lemma CachedForTwoWeeks(cache: map<Key, Entry>, key: Key, start: real, payload: string, now: real)
    requires start <= now
    ensures Cached(cache[key := Entry(start, payload)], key, now).Some? <==> now <= start + CacheExpiration as real
    ensures Cached(cache[key := Entry(start, payload)], key, now).Some? ==>
              Cached(cache[key := Entry(start, payload)], key, now) == Some(payload)
  {
  }

  function Pow2(n: nat): (r: nat)
    ensures r >= 1
  {
    if n == 0 then 1 else 2 * Pow2(n - 1)
  }

  /** The pause after the `n`-th "too many requests" in a row, counted from
      0: 60 s, then doubling each time. */
  function Backoff(n: nat): (d: int)
    ensures d >= TooManyApiCallsDelay
  {
    if n == 0 then TooManyApiCallsDelay else 2 * Backoff(n - 1)
  }

  /** The `n`-th pause is 60 seconds times 2 to the power `n`. */
  lemma {:induction false} BackoffIsPow2(n: nat)
    ensures Backoff(n) == TooManyApiCallsDelay * Pow2(n)
  {
    if n > 0 {
      BackoffIsPow2(n - 1);
    }
  }

  /** The first `n` pauses. */
  function Pauses(n: nat): (r: seq<int>)
    ensures |r| == n && forall j :: 0 <= j < n ==> r[j] == Backoff(j)
  {
    if n == 0 then [] else Pauses(n - 1) + [Backoff(n - 1)]
  }

  /** The time slept over the first `n` pauses, in seconds. */
  function Slept(n: nat): (r: int)
    ensures r >= 0
  {
    if n == 0 then 0 else Slept(n - 1) + Backoff(n - 1)
  }

  /** The first `n` pauses sum to 60 seconds times 2 to the power `n`, less
      one minute. */
  lemma {:induction false} SleptIsPow2(n: nat)
    ensures Slept(n) == TooManyApiCallsDelay * (Pow2(n) - 1)
  {
    if n > 0 {
      SleptIsPow2(n - 1);
      BackoffIsPow2(n - 1);
    }
  }

  /** The throttle and the clock after the attempts of one request started
      at `now` that met `n` "too many requests" in a row: every attempt
      first waits for the throttle, and the `j`-th pause separates attempt
      `j` from attempt `j + 1`. So `n + 1` calls are throttled, and all the
      pauses pass on the clock. */
  function Attempts(callTimes: seq<real>, now: real, n: nat): Waited
  {
    if n == 0 then Wait(callTimes, now)
    else
      var before := Attempts(callTimes, now, n - 1);
      Wait(before.callTimes, before.time + Backoff(n - 1) as real)
  }

  /** The index of the first answer that is not "too many requests". */
  function FirstAnswer(server: seq<Response>): (k: nat)
    requires exists i :: 0 <= i < |server| && server[i].status != StatusTooMany
    ensures k < |server| && server[k].status != StatusTooMany
    ensures forall j :: 0 <= j < k ==> server[j].status == StatusTooMany
  {
    if server[0].status != StatusTooMany then 0
    else
      assert exists i :: 0 <= i < |server[1..]| && server[1..][i].status != StatusTooMany by {
        var i :| 0 <= i < |server| && server[i].status != StatusTooMany;
        assert server[1..][i - 1] == server[i];
      }
      1 + FirstAnswer(server[1..])
  }

  /** The throttle keeps at most `MaxCalls` call times, and the clock has
      moved on by at least all the pauses. */
  lemma {:induction false} AttemptsSleep(callTimes: seq<real>, now: real, n: nat)
    ensures |Attempts(callTimes, now, n).callTimes| <= MaxCalls
    ensures Attempts(callTimes, now, n).time >= now + Slept(n) as real
  {
    if n > 0 {
      AttemptsSleep(callTimes, now, n - 1);
    }
  }

  /** The attempt after the `n`-th pause: the clock moves on by the pause,
      and the throttle is waited for once more. */
  method NextAttempt(callTimes: seq<real>, now: real, n: nat, w: Waited) returns (next: Waited)
    requires w == Attempts(callTimes, now, n)
    ensures next == Attempts(callTimes, now, n + 1)
    ensures next.time >= w.time + Backoff(n) as real
  {
    next := Wait(w.callTimes, w.time + Backoff(n) as real);
  }

  /** The attempts of one request that is not served from the cache: each
      waits for the throttle, and each "too many requests" answer is followed
      by a pause of 60, 120, 240, ... seconds and another attempt, without
      limit. The result holds the index of the answer that ends the loop. */
  method Retry(now: real, callTimes: seq<real>, server: seq<Response>)
    returns (k: nat, calls: seq<real>, clock: real, sleeps: seq<int>)
    requires exists i :: 0 <= i < |server| && server[i].status != StatusTooMany
    ensures k == FirstAnswer(server)
    ensures sleeps == Pauses(k)
    ensures Waited(calls, clock) == Attempts(callTimes, now, k)
  {
    var delay := TooManyApiCallsDelay;
    sleeps := [];
    var w := Attempts(callTimes, now, 0);
    var last := FirstAnswer(server);
    k := 0;
    while server[k].status == StatusTooMany
      invariant 0 <= k <= last
      invariant delay == Backoff(k)
      invariant sleeps == Pauses(k)
      invariant w == Attempts(callTimes, now, k)
      decreases last - k
    {
      w := NextAttempt(callTimes, now, k, w);
      sleeps := sleeps + [delay];
      delay := delay * 2;
      k := k + 1;
    }
    calls, clock := w.callTimes, w.time;
  }

  /** What one request did: its answer, the cache and throttle afterwards,
      the clock when it returned, the pauses after "too many requests", and
      how many times the server was asked. */
  datatype Fetched = Fetched(answer: Option<string>, cache: map<Key, Entry>, callTimes: seq<real>,
                             clock: real, sleeps: seq<int>, attempts: nat)

  /** The request logic shared by `get_taxa_by_id` and `get_taxa`, started
      at `now`: a fresh cached answer is returned without asking the server.
      Otherwise the attempts run as `Retry` describes. An OK answer is stored
      with the request's start time; any other answer gives `None` and leaves
      the cache alone. The server must eventually answer otherwise than "too
      many requests", or the source loops forever. */
  method Fetch(cache: map<Key, Entry>, key: Key, now: real, callTimes: seq<real>, server: seq<Response>)
    returns (r: Fetched)
    requires exists i :: 0 <= i < |server| && server[i].status != StatusTooMany
    ensures Cached(cache, key, now).Some? ==>
              r == Fetched(Cached(cache, key, now), cache, callTimes, now, [], 0)
    ensures Cached(cache, key, now).None? ==>
              var k := FirstAnswer(server);
              && r.attempts == k + 1
              && |r.sleeps| == k && (forall j :: 0 <= j < k ==> r.sleeps[j] == Backoff(j))
              && |r.callTimes| <= MaxCalls && r.clock >= now
              && Waited(r.callTimes, r.clock) == Attempts(callTimes, now, k)
              && r.clock >= now + Slept(k) as real
              && (server[k].status == StatusOk ==>
                    r.answer == Some(server[k].payload) && r.cache == cache[key := Entry(now, server[k].payload)])
              && (server[k].status != StatusOk ==> r.answer.None? && r.cache == cache)
  {
    if Cached(cache, key, now).Some? {
      return Fetched(Cached(cache, key, now), cache, callTimes, now, [], 0);
    }
    var k, calls, clock, sleeps := Retry(now, callTimes, server);
    AttemptsSleep(callTimes, now, k);
    var response := server[k];
    if response.status == StatusOk {
      r := Fetched(Some(response.payload), cache[key := Entry(now, response.payload)], calls, clock, sleeps, k + 1);
    } else {
      r := Fetched(None, cache, calls, clock, sleeps, k + 1);
    }
  }
}
