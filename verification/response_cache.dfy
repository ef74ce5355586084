/** The in-memory cache of fetched detail pages: URL to (page text, time it was
    stored), with entries valid for two hours. Time is in seconds and `now` is an
    explicit parameter. */
module ResponseCache {
  import opened Common

  /** `CACHE_DURATION_HOURS` in seconds. */
  const CacheDuration: int := 2 * 3600

  type Cache = map<string, (string, int)>

  /** An entry stored at `stored` is still valid at `now`. */
  predicate Fresh(stored: int, now: int)
  {
    now - stored < CacheDuration
  }

  /** `get_cached_response(url)`: the page of a fresh entry; a stale entry is
      deleted on the way. */
  function Get(cache: Cache, url: string, now: int): (r: (Option<string>, Cache))
    ensures r.0.Some? <==> url in cache && Fresh(cache[url].1, now)
    ensures r.0.Some? ==> r.0.value == cache[url].0 && r.1 == cache
    ensures r.0.None? && url in cache ==> r.1 == cache - {url}
    ensures url !in cache ==> r.1 == cache
  {
    if url in cache then
      if Fresh(cache[url].1, now) then (Some(cache[url].0), cache)
      else (None, cache - {url})
    else (None, cache)
  }

  /** `cache_response(url, text)` */
  function Put(cache: Cache, url: string, text: string, now: int): (r: Cache)
    ensures r.Keys == cache.Keys + {url} && r[url] == (text, now)
    ensures forall u | u in cache && u != url :: r[u] == cache[u]
  {
    cache[url := (text, now)]
  }

  /** `clear_expired_cache()`: every entry stored before the cutoff two hours ago
      is removed. */
  function ClearExpired(cache: Cache, now: int): (r: Cache)
    ensures forall u :: u in r <==> u in cache && cache[u].1 >= now - CacheDuration
    ensures forall u | u in r :: r[u] == cache[u]
  {
    map u | u in cache && !(cache[u].1 < now - CacheDuration) :: cache[u]
  }

  /** A get leaves every other entry alone and never adds one. */
  lemma GetChangesOnlyItsEntry(cache: Cache, url: string, now: int)
    ensures Get(cache, url, now).1.Keys <= cache.Keys
    ensures forall u | u in cache && u != url :: u in Get(cache, url, now).1 && Get(cache, url, now).1[u] == cache[u]
  {
  }

  /** A page put at `t` comes back from a get at `now` exactly when fewer than two
      hours have passed. */
  lemma PutThenGet(cache: Cache, url: string, text: string, t: int, now: int)
    ensures Get(Put(cache, url, text, t), url, now).0 == (if now - t < CacheDuration then Some(text) else None)
  {
  }

  /** After a clear, no entry is older than two hours; one aged exactly two hours
      survives the clear although a get no longer returns it. */
  lemma ClearBoundary(cache: Cache, now: int)
    ensures forall u | u in ClearExpired(cache, now) :: now - ClearExpired(cache, now)[u].1 <= CacheDuration
    ensures forall u | u in cache && cache[u].1 == now - CacheDuration ::
              u in ClearExpired(cache, now) && Get(ClearExpired(cache, now), u, now).0.None?
  {
  }

  /** Clearing twice at the same time is clearing once. */
  lemma ClearIdempotent(cache: Cache, now: int)
    ensures ClearExpired(ClearExpired(cache, now), now) == ClearExpired(cache, now)
  {
  }

  /** A clear never removes an entry a get would still return. */
  lemma ClearKeepsFresh(cache: Cache, url: string, now: int)
    ensures Get(ClearExpired(cache, now), url, now).0 == Get(cache, url, now).0
  {
  }
}
