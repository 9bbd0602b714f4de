/** `/api/weather`: a 30-minute cache in front of the weather script. Times
    are milliseconds since the epoch, passed in where the server reads
    `Date.now()`; the script's run is passed in as its result. */
module WeatherCache {
  import opened Nullable

  /** The object the weather script prints, as opaque field/value pairs. */
  datatype Weather = Weather(fields: seq<(string, string)>)

  /** One run of the weather script. `Parsed(None, at)` is output that parsed
      to a falsy JSON value (`null`, `false`, `0`, `""`); `at` is when the
      script finished. */
  datatype Fetch = Unparsable | Parsed(value: Option<Weather>, at: int)

  /** The answers of `/api/weather`. */
  datatype Reply =
    | Hit(weather: Weather, lastUpdated: int)          // cached: true
    | Fresh(value: Option<Weather>, lastUpdated: int)  // cached: false, with the location
    | Stale(weather: Weather, lastUpdated: int)        // cached: true, with the fetch error
    | Unavailable                                      // status 500

  /** `WEATHER_CACHE_DURATION`: 30 minutes in milliseconds. */
  const CacheDuration := 30 * 60 * 1000

  /** `cachedWeather` and `lastWeatherFetch`. */
  datatype CacheState = CacheState(cached: Option<Weather>, lastFetch: int)

  predicate IsHit(s: CacheState, now: int)
  {
    s.cached.Some? && now - s.lastFetch < CacheDuration
  }

  /** One request at time `now`: the new cache and the answer. A hit never
      runs the script; a parsed result replaces the cache; a failed parse
      leaves the cache as it was and falls back on it. */
  function Serve(s: CacheState, now: int, fetch: Fetch): (out: (CacheState, Reply))
    ensures out.1.Hit? <==> IsHit(s, now)
    ensures IsHit(s, now) ==> out == (s, Hit(s.cached.value, s.lastFetch))
    ensures !IsHit(s, now) && fetch.Parsed? ==>
              out == (CacheState(fetch.value, fetch.at), Fresh(fetch.value, fetch.at))
    ensures !IsHit(s, now) && fetch.Unparsable? ==> out.0 == s
    ensures !IsHit(s, now) && fetch.Unparsable? ==>
              out.1 == if s.cached.Some? then Stale(s.cached.value, s.lastFetch) else Unavailable
  {
    if s.cached.Some? && now - s.lastFetch < CacheDuration then
      (s, Hit(s.cached.value, s.lastFetch))
    else
      match fetch
      case Parsed(v, at) => (CacheState(v, at), Fresh(v, at))
      case Unparsable =>
        (s, if s.cached.Some? then Stale(s.cached.value, s.lastFetch) else Unavailable)
  }

  /** A request within 30 minutes of a fetch that produced a weather object
      is answered from the cache with that object, whatever the script
      would do now. */
  lemma HitWithinDuration(s: CacheState, now: int, w: Weather, at: int, later: int, fetch: Fetch)
    requires !IsHit(s, now)
    requires later - at < CacheDuration
    ensures Serve(Serve(s, now, Parsed(Some(w), at)).0, later, fetch) == (CacheState(Some(w), at), Hit(w, at))
  {
  }

  /** Thirty minutes after the fetch the cache has expired and the script
      runs again. */
  lemma ExpiresAfterDuration(s: CacheState, later: int, fetch: Fetch)
    requires later - s.lastFetch >= CacheDuration
    ensures !Serve(s, later, fetch).1.Hit?
  {
  }

  /** A falsy result is stored but never counts as cached: the next request
      runs the script again. */
  lemma FalsyIsRefetched(s: CacheState, now: int, at: int, later: int, fetch: Fetch)
    requires !IsHit(s, now)
    ensures !Serve(Serve(s, now, Parsed(None, at)).0, later, fetch).1.Hit?
  {
  }

  /** Once a weather object has been cached, failed fetches never turn the
      answer into an error: the last object keeps being served. */
  lemma FailureKeepsLastWeather(s: CacheState, now: int)
    requires s.cached.Some?
    ensures Serve(s, now, Unparsable).1 in {Hit(s.cached.value, s.lastFetch), Stale(s.cached.value, s.lastFetch)}
  {
  }

  class Cache {
    var cachedWeather: Option<Weather>
    var lastWeatherFetch: int

    function State(): CacheState
      reads this
    {
      CacheState(cachedWeather, lastWeatherFetch)
    }

    /** Server start: nothing cached, last fetch at time 0. */
    constructor ()
      ensures State() == CacheState(None, 0)
    {
      cachedWeather := None;
      lastWeatherFetch := 0;
    }

    /** The `/api/weather` handler. */
    method Get(now: int, fetch: Fetch) returns (reply: Reply)
      modifies this
      ensures (State(), reply) == Serve(old(State()), now, fetch)
    {
      if cachedWeather.Some? && now - lastWeatherFetch < CacheDuration {
        return Hit(cachedWeather.value, lastWeatherFetch);
      }
      match fetch {
        case Parsed(v, at) =>
          cachedWeather := v;
          lastWeatherFetch := at;
          reply := Fresh(v, at);
        case Unparsable =>
          if cachedWeather.Some? {
            reply := Stale(cachedWeather.value, lastWeatherFetch);
          } else {
            reply := Unavailable;
          }
      }
    }
  }
}
