/**
 * The gRPC controller of internal/controller/grpc/storage/grpc.go: it
 * validates each request, calls the use case, and turns the use case's
 * error into a gRPC status code.
 *
 * The use case is a Go interface; here it is a record of three functions.
 * A status is its code and message; the protobuf and gRPC machinery is not
 * modelled.
 */
module Controller {
  import opened Wrappers
  import opened Text
  import opened Errors

  /** The gRPC codes the controller uses. */
  datatype Code = InvalidArgument | NotFound | Internal

  datatype Status = Status(code: Code, message: string)

  /** A handler's answer: a response, or an error status. */
  datatype Rpc<T> = Served(response: T) | Rejected(status: Status)

  /** The empty response of `Set` and `Delete`. */
  datatype Empty = Empty

  const ErrSetText := "grpc controller: unable to set key-value pair"
  const ErrBadKeyText := "grpc controller: bad key"
  const ErrBadValueText := "grpc controller: bad value"
  const ErrBadTtlText := "grpc controller: ttl must be grater or equals 0"
  const ErrGetText := "grpc controller: unable to get value"
  const ErrDeleteText := "grpc controller: unable to delete value"
  const ErrNotFoundText := "grpc controller: value not found"

  const Second: int := 1_000_000_000
  const TwoTo63: int := 0x8000_0000_0000_0000
  const TwoTo64: int := 0x1_0000_0000_0000_0000

  type Int64 = x: int | -TwoTo63 <= x < TwoTo63

  /** Go's signed 64-bit arithmetic: the exact result, wrapped into range. */
  function Int64Wrap(x: int): (r: Int64)
    ensures (r - x) % TwoTo64 == 0
    ensures -TwoTo63 <= x < TwoTo63 ==> r == x
  {
    (x + TwoTo63) % TwoTo64 - TwoTo63
  }

  /** `time.Duration(ttl) * time.Second`: seconds to nanoseconds, in 64 bits. */
  function TtlNanos(ttlSeconds: Int64): (d: Int64)
    ensures (d - ttlSeconds * Second) % TwoTo64 == 0
  {
    Int64Wrap(ttlSeconds * Second)
  }

  /** The largest number of seconds whose nanoseconds fit in 64 bits. */
  const MaxTtlSeconds: int := (TwoTo63 - 1) / Second

  /** Within range, the ttl is exact and never negative for a non-negative request. */
  lemma TtlInRange(ttlSeconds: Int64)
    requires -MaxTtlSeconds <= ttlSeconds <= MaxTtlSeconds
    ensures TtlNanos(ttlSeconds) == ttlSeconds * Second
    ensures TtlNanos(ttlSeconds) < 0 <==> ttlSeconds < 0
  {
  }

  /** One second past the range, a positive ttl wraps to a negative duration. */
  lemma TtlOverflowNegative()
    ensures TtlNanos(MaxTtlSeconds + 1) < 0
  {
    assert MaxTtlSeconds + 1 == 9_223_372_037;
  }

  /** A larger positive ttl wraps to a small positive duration, about 0.29 seconds. */
  lemma TtlOverflowPositive()
    ensures TtlNanos(18_446_744_074) == 290_448_384
  {
  }

  /** The use case as the controller sees it (the `StorageUseCase` interface). */
  datatype Service = Service(
    put: (string, string, int) -> Option<Error>,
    fetch: string -> Fetch,
    remove: string -> Option<Error>)

  /**
   * `Controller.Set`: the trimmed key, then the trimmed value, then the ttl
   * are checked, each rejecting with `InvalidArgument`; a valid request is
   * handed to the use case with the trimmed key and value, and the use
   * case's error becomes `Internal`.
   */
  function Set(svc: Service, key: string, value: string, ttlSeconds: Int64): (r: Rpc<Empty>)
    ensures r == Rejected(Status(InvalidArgument, ErrBadKeyText)) <==> AllSpace(key)
    ensures r == Rejected(Status(InvalidArgument, ErrBadValueText)) <==> !AllSpace(key) && AllSpace(value)
    ensures r == Rejected(Status(InvalidArgument, ErrBadTtlText)) <==>
              !AllSpace(key) && !AllSpace(value) && TtlNanos(ttlSeconds) < 0
    ensures r.Rejected? && r.status.code == Internal <==>
              && !AllSpace(key) && !AllSpace(value) && TtlNanos(ttlSeconds) >= 0
              && svc.put(TrimSpace(key), TrimSpace(value), TtlNanos(ttlSeconds)).Some?
    ensures r.Rejected? && r.status.code == Internal ==> r.status.message == ErrSetText
    ensures r.Served? <==>
              && !AllSpace(key) && !AllSpace(value) && TtlNanos(ttlSeconds) >= 0
              && svc.put(TrimSpace(key), TrimSpace(value), TtlNanos(ttlSeconds)).None?
    ensures r.Rejected? ==> r.status.code != NotFound
  {
    var k := TrimSpace(key);
    if k == "" then Rejected(Status(InvalidArgument, ErrBadKeyText))
    else
      var v := TrimSpace(value);
      if v == "" then Rejected(Status(InvalidArgument, ErrBadValueText))
      else
        var ttl := TtlNanos(ttlSeconds);
        if ttl < 0 then Rejected(Status(InvalidArgument, ErrBadTtlText))
        else if svc.put(k, v, ttl).Some? then Rejected(Status(Internal, ErrSetText))
        else Served(Empty)
  }

  /**
   * How `Controller.Get` reports the use case's answer: its `ErrNotFound` is
   * `NotFound`, any other error is `Internal`, and otherwise the value.
   */
  function GetStatus(f: Fetch): (r: Rpc<string>)
    ensures r == Rejected(Status(NotFound, ErrNotFoundText)) <==> Is(f.err, UcNotFound)
    ensures r == Rejected(Status(Internal, ErrGetText)) <==> f.err.Some? && !Is(f.err, UcNotFound)
    ensures r == Served(f.value) <==> f.err.None?
    ensures r.Rejected? ==> r.status.code != InvalidArgument
  {
    if Is(f.err, UcNotFound) then Rejected(Status(NotFound, ErrNotFoundText))
    else if f.err.Some? then Rejected(Status(Internal, ErrGetText))
    else Served(f.value)
  }

  /** `Controller.Get`: a blank key is `InvalidArgument`; otherwise the use case's answer, reported. */
  function Get(svc: Service, key: string): (r: Rpc<string>)
    ensures r == Rejected(Status(InvalidArgument, ErrBadKeyText)) <==> AllSpace(key)
    ensures !AllSpace(key) ==> r == GetStatus(svc.fetch(TrimSpace(key)))
  {
    var k := TrimSpace(key);
    if k == "" then Rejected(Status(InvalidArgument, ErrBadKeyText))
    else GetStatus(svc.fetch(k))
  }

  /** `Controller.Delete`: a blank key is `InvalidArgument`; the use case's error is `Internal`. */
  function Delete(svc: Service, key: string): (r: Rpc<Empty>)
    ensures r == Rejected(Status(InvalidArgument, ErrBadKeyText)) <==> AllSpace(key)
    ensures r == Rejected(Status(Internal, ErrDeleteText)) <==>
              !AllSpace(key) && svc.remove(TrimSpace(key)).Some?
    ensures r.Served? <==> !AllSpace(key) && svc.remove(TrimSpace(key)).None?
  {
    var k := TrimSpace(key);
    if k == "" then Rejected(Status(InvalidArgument, ErrBadKeyText))
    else if svc.remove(k).Some? then Rejected(Status(Internal, ErrDeleteText))
    else Served(Empty)
  }

  /** A key is checked before the value, and the value before the ttl. */
  lemma ValidationOrder(svc: Service, key: string, value: string, ttlSeconds: Int64)
    ensures AllSpace(key) ==> Set(svc, key, value, ttlSeconds) == Rejected(Status(InvalidArgument, ErrBadKeyText))
    ensures !AllSpace(key) && AllSpace(value) ==>
              Set(svc, key, value, ttlSeconds) == Rejected(Status(InvalidArgument, ErrBadValueText))
  {
  }

  /** A zero ttl (no expiry) is accepted and handed on as zero. */
  lemma ZeroTtlAccepted(svc: Service, key: string, value: string)
    requires !AllSpace(key) && !AllSpace(value)
    requires svc.put(TrimSpace(key), TrimSpace(value), 0).None?
    ensures Set(svc, key, value, 0) == Served(Empty)
  {
  }
}
