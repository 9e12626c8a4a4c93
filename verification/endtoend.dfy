/**
 * The layers stacked: a storage adapter under the use case under the gRPC
 * controller, as cmd/storage wires them. What a client of the service sees
 * of a miss, and of every other failure, follows from the three error
 * mappings together.
 */
module EndToEnd {
  import opened Wrappers
  import opened Text
  import opened Errors
  import Cache
  import Adapters
  import Memcached
  import Protocol
  import UseCase
  import Controller

  /** The cache adapter's three operations, with the cache in state `c` and the clock at `now`. */
  function AdapterPut(c: Cache.Store, now: int, k: string, v: string, t: int): Option<Error> {
    Adapters.CacheSet(c, k, v, t, now).1
  }

  function AdapterFetch(c: Cache.Store, now: int, k: string): Fetch {
    Adapters.CacheGet(c, k, now)
  }

  function AdapterRemove(c: Cache.Store, k: string): Option<Error> {
    Adapters.CacheDelete(c, k).1
  }

  /** `st` is the cache adapter, as the use case sees it. */
  ghost predicate StoresInCache(st: UseCase.Storage, c: Cache.Store, now: int) {
    && (forall k, v, t :: st.put(k, v, t) == AdapterPut(c, now, k, v, t))
    && (forall k :: st.fetch(k) == AdapterFetch(c, now, k))
    && (forall k :: st.remove(k) == AdapterRemove(c, k))
  }

  function CacheStorage(c: Cache.Store, now: int): (st: UseCase.Storage)
    ensures StoresInCache(st, c, now)
  {
    UseCase.Storage(
      (k: string, v: string, t: int) => AdapterPut(c, now, k, v, t),
      (k: string) => AdapterFetch(c, now, k),
      (k: string) => AdapterRemove(c, k))
  }

  /** The use case `New` builds from a logger and the cache adapter (see `UseCase.NewWithLoggerAndStorage`). */
  function CacheUseCase(c: Cache.Store, now: int): (uc: UseCase.UseCase)
    ensures uc.storage.Some? && StoresInCache(uc.storage.value, c, now)
  {
    UseCase.UseCase(true, Some(CacheStorage(c, now)))
  }

  /** The use case's three operations over the cache adapter. */
  function CachePut(c: Cache.Store, now: int, k: string, v: string, t: int): Option<Error> {
    UseCase.Set(CacheUseCase(c, now), k, v, t)
  }

  function CacheFetch(c: Cache.Store, now: int, k: string): Fetch {
    UseCase.Get(CacheUseCase(c, now), k)
  }

  function CacheRemove(c: Cache.Store, now: int, k: string): Option<Error> {
    UseCase.Delete(CacheUseCase(c, now), k)
  }

  /** `svc` is the use case over the cache adapter, as the controller sees it. */
  ghost predicate OverCache(svc: Controller.Service, c: Cache.Store, now: int) {
    && (forall k, v, t :: svc.put(k, v, t) == CachePut(c, now, k, v, t))
    && (forall k :: svc.fetch(k) == CacheFetch(c, now, k))
    && (forall k :: svc.remove(k) == CacheRemove(c, now, k))
  }

  /** The stack `cmd/storage` builds with the cache backend. */
  function CacheService(c: Cache.Store, now: int): (svc: Controller.Service)
    ensures OverCache(svc, c, now)
  {
    Controller.Service(
      (k: string, v: string, t: int) => CachePut(c, now, k, v, t),
      (k: string) => CacheFetch(c, now, k),
      (k: string) => CacheRemove(c, now, k))
  }

  /** The cache adapter's answer, through `UseCase.Get` and the controller's report. */
  lemma CacheAnswer(c: Cache.Store, k: string, now: int)
    ensures var r := Controller.GetStatus(CacheFetch(c, now, k));
            && (r.Rejected? ==> r.status == Controller.Status(Controller.NotFound, Controller.ErrNotFoundText))
            && (r.Rejected? <==> !(k in c && Cache.Live(c[k], now)))
            && (r.Served? ==> k in c && r.response == c[k].value)
  {
  }

  /**
   * Over the cache, a `Get` of a key that is missing or expired answers
   * `NotFound`, a live key answers its value, and `Internal` never happens.
   */
  lemma CacheGetStatus(svc: Controller.Service, c: Cache.Store, key: string, now: int)
    requires OverCache(svc, c, now)
    requires !AllSpace(key)
    ensures var k := TrimSpace(key);
            var r := Controller.Get(svc, key);
            && (r.Rejected? ==> r.status == Controller.Status(Controller.NotFound, Controller.ErrNotFoundText))
            && (r.Rejected? <==> !(k in c && Cache.Live(c[k], now)))
            && (r.Served? ==> k in c && r.response == c[k].value)
  {
    CacheAnswer(c, TrimSpace(key), now);
  }

  /** Over the cache, a `Set` that passes validation, and any `Delete` of a non-blank key, succeed. */
  lemma CacheWritesSucceed(svc: Controller.Service, c: Cache.Store, key: string, value: string,
                           ttlSeconds: Controller.Int64, now: int)
    requires OverCache(svc, c, now)
    requires !AllSpace(key)
    ensures !AllSpace(value) && Controller.TtlNanos(ttlSeconds) >= 0 ==>
              Controller.Set(svc, key, value, ttlSeconds) == Controller.Served(Controller.Empty)
    ensures Controller.Delete(svc, key) == Controller.Served(Controller.Empty)
  {
  }

  /** The use case's view of what the memcached adapter returned. */
  function AsFetch(o: Memcached.Outcome): (f: Fetch)
    requires o.Returned?
    ensures f.value == o.value && f.err == o.err
  {
    Fetch(o.value, o.err)
  }

  /**
   * Over memcached, a `Get` that returns answers `NotFound` exactly when the
   * reply held no value line, and `Internal` for every other failure:
   * no connection, a failed write, a failed read, or an error reply.
   */
  lemma MemcachedGetStatus(acq: Memcached.Acquisition, key: string,
                           writeFailure: Option<string>, rs: seq<Protocol.ReadResult>)
    requires Memcached.Get(acq, key, writeFailure, rs).outcome.Returned?
    ensures var client := Memcached.Get(acq, key, writeFailure, rs).outcome;
            var r := Controller.GetStatus(UseCase.GetAnswer(AsFetch(Adapters.MemcachedGet(client))));
            var hit := acq.Acquired? && writeFailure.None? && Protocol.GetResponse(rs).Done?;
            && ((r.Rejected? && r.status.code == Controller.NotFound) <==>
                  hit && !Protocol.GetData(Protocol.GetResponse(rs).buf).1)
            && (r.Served? <==> hit && Protocol.GetData(Protocol.GetResponse(rs).buf).1)
            && (r.Served? ==> r.response == Protocol.GetData(Protocol.GetResponse(rs).buf).0)
            && (r.Rejected? && r.status.code == Controller.Internal <==> !hit)
  {
    Adapters.MemcachedMissIsNotFound(acq, key, writeFailure, rs);
  }

  /** Over memcached, a stored value containing `ERROR` surfaces as `Internal`, not as the value. */
  lemma MemcachedErrorValueIsInternal(c: nat, key: string, flags: nat, value: string)
    requires Contains(value, Protocol.ResponseError)
    ensures var client := Memcached.Get(Memcached.Acquired(c), key, None,
                                        [Protocol.Data(Protocol.ValueReply(key, flags, value))]).outcome;
            && client.Returned?
            && Controller.GetStatus(UseCase.GetAnswer(AsFetch(Adapters.MemcachedGet(client))))
               == Controller.Rejected(Controller.Status(Controller.Internal, Controller.ErrGetText))
  {
    Memcached.GetValueWithError(c, key, flags, value);
  }
}
