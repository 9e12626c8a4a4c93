/**
 * The two storage adapters of internal/adapters: one over the in-memory
 * cache, one over the memcached client. Both present the same face to the
 * use case: a miss is reported as the adapters' own `ErrNotFound`.
 */
module Adapters {
  import opened Wrappers
  import opened Errors
  import Cache
  import Memcached
  import Protocol

  const Second: int := 1_000_000_000

  // ---------------------------------------------------------------------
  // CacheAdapter

  /** `CacheAdapter.Set`: stores the item and never fails. */
  function CacheSet(c: Cache.Store, key: string, value: string, ttl: int, now: int): (r: (Cache.Store, Option<Error>))
    ensures r.1 == None
    ensures Cache.Get(r.0, key, now) == (value, true)
    ensures forall k | k != key :: Cache.Get(r.0, k, now) == Cache.Get(c, k, now)
  {
    (Cache.Set(c, key, value, ttl, now), None)
  }

  /** `CacheAdapter.Get`: a hit is the value with no error; a miss is `""` with `ErrNotFound`. */
  function CacheGet(c: Cache.Store, key: string, now: int): (r: Fetch)
    ensures r.err.None? <==> key in c && Cache.Live(c[key], now)
    ensures r.err.None? ==> r.value == c[key].value
    ensures r.err.Some? ==> r == Fetch("", Some(Sentinel(AdaptersNotFound)))
  {
    var (value, ok) := Cache.Get(c, key, now);
    if !ok then Fetch(value, Some(Sentinel(AdaptersNotFound))) else Fetch(value, None)
  }

  /** `CacheAdapter.Delete`: removes the key and never fails. */
  function CacheDelete(c: Cache.Store, key: string): (r: (Cache.Store, Option<Error>))
    ensures r.1 == None
    ensures key !in r.0
    ensures forall k | k != key :: (k in r.0 <==> k in c) && (k in c ==> r.0[k] == c[k])
  {
    (Cache.Delete(c, key), None)
  }

  /** Through the adapter, what was set is got back while it lives, and missed afterwards. */
  lemma CacheAdapterRoundTrip(c: Cache.Store, key: string, value: string, ttl: int, t: int, t': int)
    requires t <= t'
    ensures var (c', _) := CacheSet(c, key, value, ttl, t);
            CacheGet(c', key, t') == if ttl <= 0 || t' - t <= ttl then Fetch(value, None)
                                     else Fetch("", Some(Sentinel(AdaptersNotFound)))
  {
    Cache.SetThenGet(c, key, value, ttl, t, t');
  }

  /** Through the adapter, a deleted key is a miss. */
  lemma CacheAdapterDeleteMisses(c: Cache.Store, key: string, now: int)
    ensures CacheGet(CacheDelete(c, key).0, key, now) == Fetch("", Some(Sentinel(AdaptersNotFound)))
  {
  }

  // ---------------------------------------------------------------------
  // MemcachedAdapter

  /**
   * `int(ttl.Seconds())`: a duration in nanoseconds as whole seconds,
   * truncated toward zero.
   */
  function Seconds(ttl: int): (s: int)
    ensures ttl >= 0 ==> s >= 0 && s * Second <= ttl < (s + 1) * Second
    ensures ttl < 0 ==> s <= 0 && (s - 1) * Second < ttl <= s * Second
    ensures ttl % Second == 0 ==> s * Second == ttl
  {
    if ttl >= 0 then ttl / Second else -((-ttl) / Second)
  }

  /** `MemcachedAdapter.Set`: the client's `Set`, with the ttl in seconds. */
  function MemcachedSet(acq: Memcached.Acquisition, key: string, value: string, ttl: int,
                        writeFailure: Option<string>, rs: seq<Protocol.ReadResult>): (r: Memcached.Call)
    ensures acq.Acquired? ==> r.sent == Some(Protocol.EncodeSet(key, value, Seconds(ttl)))
    ensures r.outcome.Returned? && r.outcome.err.Some? ==> r.outcome.err.value.kind in {McGetConn, McConnWrite, McSet}
  {
    Memcached.Set(acq, key, value, Seconds(ttl), writeFailure, rs)
  }

  /** A whole number of seconds reaches the server unchanged. */
  lemma WholeSecondsExact(k: int)
    ensures Seconds(k * Second) == k
  {
    assert (k * Second) % Second == 0;
  }

  /**
   * `MemcachedAdapter.Get`: the client's miss becomes the adapters'
   * `ErrNotFound`, the value passed through; everything else is returned as
   * it came.
   */
  function MemcachedGet(client: Memcached.Outcome): (r: Memcached.Outcome)
    ensures client.Blocked? <==> r.Blocked?
    ensures client.Returned? ==> r.value == client.value
    ensures client.Returned? && Is(client.err, McNotFound) ==> r.err == Some(Sentinel(AdaptersNotFound))
    ensures client.Returned? && !Is(client.err, McNotFound) ==> r == client
  {
    match client
    case Blocked => Memcached.Blocked
    case Returned(value, err) =>
      if Is(err, McNotFound) then Memcached.Returned(value, Some(Sentinel(AdaptersNotFound))) else client
  }

  /** Through the memcached adapter, a miss answers to the adapters' `ErrNotFound` and nothing else does. */
  lemma MemcachedMissIsNotFound(acq: Memcached.Acquisition, key: string,
                                writeFailure: Option<string>, rs: seq<Protocol.ReadResult>)
    ensures var client := Memcached.Get(acq, key, writeFailure, rs).outcome;
            var r := MemcachedGet(client);
            r.Returned? ==>
              (Is(r.err, AdaptersNotFound) <==>
                 && acq.Acquired? && writeFailure.None? && Protocol.GetResponse(rs).Done?
                 && !Protocol.GetData(Protocol.GetResponse(rs).buf).1)
  {
  }
}
