# swanden/storage: the storage tier in Dafny

This project models the storage tier of the `swanden/storage` key-value
service and proves properties of the model. The tier has four parts:

- **the memcached text client** (`pkg/memcached/memcached.go`). It writes `set`,
  `get` and `delete` commands and reads replies that carry no length prefix. A
  read loop looks for markers, and `getData` digs the value out of a `get` reply.
- **the connection pool** behind that client (`pkg/memcached/pool/pool.go`). It
  keeps an idle list, a count of open connections, a queue of waiting requests
  and a handler that serves them.
- **the in-memory TTL cache** (`pkg/cache/cache.go`). It expires items lazily.
- **the error-mapping layers**: the two storage adapters, the storage use case
  and the gRPC controller. Together they turn a backend's errors into the
  sentinels of each layer and, at the top, into gRPC status codes.

Everything is a pure function over immutable values. What the Go code gets from
the outside world is a parameter instead:

- whether the pool handed out a connection;
- whether the write failed;
- the results of the successive `conn.Read` calls;
- what a dial produced;
- the clock reading `now`;
- which case of a `select` fires.

A Go error is its sentinel (the only thing `errors.Is` can find through
`errors.Wrap`) together with its full text. Module `Errors` holds that model.

## Model

| member | source | states |
|---|---|---|
| Errors.Wrap | pkg/memcached/memcached.go:79 | A wrapped error answers `errors.Is` for its sentinel, starts with the inner message, and is never the bare sentinel. |
| Errors.Sentinel | pkg/memcached/errors.go:5-16 | A bare sentinel answers `errors.Is` for itself. |
| Decimal.IntRoundTrip | pkg/memcached/memcached.go:83 | Reading back the decimal digits `%d` prints for the ttl gives the ttl back, negative values included. |
| Decimal.NatRoundTrip | pkg/memcached/memcached.go:83 | Reading back the digits printed for the value's length gives that length back. |
| Text.TrimSpace | internal/controller/grpc/storage/grpc.go:73 | `strings.TrimSpace`: what is left sits inside the input with only whitespace cut on either side, and it is empty exactly when the input is all whitespace. |
| Protocol.EncodeSet | pkg/memcached/memcached.go:83 | The `set` command ends in the value verbatim plus CRLF. For a key without whitespace, a server reading it gets back the key, flags 0, the ttl and the value. |
| Protocol.EncodeGet | pkg/memcached/memcached.go:106 | For a key without whitespace, a server reads the `get` command back as a `get` of that key. |
| Protocol.EncodeDelete | pkg/memcached/memcached.go:135 | For a key without whitespace, a server reads the `delete` command back as a `delete` of that key. |
| Protocol.SetRoundTrip | pkg/memcached/memcached.go:83 | Round trip of the `set` framing: header fields, then exactly the length's worth of value bytes, then CRLF. |
| Protocol.KeyCommandRoundTrip | pkg/memcached/memcached.go:106 | Round trip of the one-line `get` and `delete` commands. |
| Protocol.ErrorMarkersContainError | pkg/memcached/memcached.go:27-29 | `CLIENT_ERROR` and `SERVER_ERROR` both contain `ERROR`. |
| Protocol.TerminatorsComplete | pkg/memcached/memcached.go:23-26 | Each of the four success terminators ends the read loop on its own and holds no `ERROR`. |
| Protocol.Classify | pkg/memcached/memcached.go:175-186 | The checks after each read: a failure exactly when the buffer holds `ERROR`; complete exactly when it holds no `ERROR` but a terminator. The server-error branch is unreachable. |
| Protocol.ReadFrom | pkg/memcached/memcached.go:164-189 | The read loop: it returns the buffer at EOF or on the first terminator, fails on a read error or an error marker, and stalls while bytes keep coming without an end. A returned buffer extends what was gathered and never gains an `ERROR`. |
| Protocol.GetResponse | pkg/memcached/memcached.go:158-192 | `getResponse` returns a buffer without `ERROR`, or fails with the client error or a wrapped read error. It waits forever only when every read delivered bytes. |
| Protocol.ReadFromSkips | pkg/memcached/memcached.go:173-188 | Reads that leave the buffer incomplete are absorbed: the loop continues from the concatenated bytes. |
| Protocol.GetResponseDecidedAt | pkg/memcached/memcached.go:164-189 | The first read after a run of incomplete ones decides the outcome: EOF returns the bytes so far, a read error fails, and a terminator or an `ERROR` settles it. |
| Protocol.GetData | pkg/memcached/memcached.go:148-156 | `getData`: a miss is the empty string, and a hit is a single line without CRLF. |
| Protocol.GetDataHit | pkg/memcached/memcached.go:148-156 | A header line and a value line followed by `END` give the value back when neither line holds CR or ends in `END`. |
| Protocol.GetDataRoundTrip | pkg/memcached/memcached.go:148-156 | The server's `VALUE` reply for a stored value without CR, and not ending in `END`, gives that value back. |
| Protocol.GetDataDropsEnd | pkg/memcached/memcached.go:149 | Removing every `END\r\n` also eats a value's own trailing `END`, so the reply reads as a miss. |
| Protocol.GetDataLosesEndValue | pkg/memcached/memcached.go:148-156 | A stored value ending in `END` reads back as a miss. |
| Protocol.GetDataMiss | pkg/memcached/memcached.go:148-156 | `END` alone is a miss. |
| Memcached.Set | pkg/memcached/memcached.go:76-97 | `Client.Set` writes the `set` command exactly when it has a connection, and gives it back exactly when it returns. Each error is `ErrGetConn`, `ErrConnWrite` or a wrapped `ErrSet`, never the bare `ErrSet`. A failed read is `ErrSet` wrapping the read error. It succeeds exactly when the read loop returns. |
| Memcached.Get | pkg/memcached/memcached.go:99-126 | `Client.Get`: the same connection discipline. A failed read is `ErrGet` wrapping the read error. A miss is the bare `ErrNotFound`, exactly when the reply holds no value line, and the bare `ErrGet` never comes back. A hit returns the value `getData` extracts. |
| Memcached.Delete | pkg/memcached/memcached.go:128-146 | `Client.Delete`: the same connection discipline. A failed read is `ErrDelete` wrapping the read error. It succeeds exactly when the read loop returns, whatever the reply says. |
| Memcached.OneRead | pkg/memcached/memcached.go:181-186 | A single read of a terminator settles the loop with that buffer. |
| Memcached.SetStored | pkg/memcached/memcached.go:76-97 | `STORED` makes `Set` succeed and give the connection back, and the server reads the intended command. |
| Memcached.SetErrorReply | pkg/memcached/memcached.go:88-91 | A reply containing `ERROR` fails `Set` with `ErrSet` wrapping the client error. |
| Memcached.SetHangUpSucceeds | pkg/memcached/memcached.go:166-168 | A server that closes the connection without replying makes `Set` report success. |
| Memcached.GetHit | pkg/memcached/memcached.go:99-126 | A stored value comes back from `Get` when it survives the reply's framing. |
| Memcached.GetValueWithError | pkg/memcached/memcached.go:111-114 | A stored value containing `ERROR` cannot be read: `Get` fails with `ErrGet`. |
| Memcached.GetValueEndingInEnd | pkg/memcached/memcached.go:119-123 | A stored value ending in `END` is reported as `ErrNotFound`. |
| Memcached.GetMiss | pkg/memcached/memcached_test.go:86 | `END` alone makes `Get` return `""` and the bare `ErrNotFound`, and the connection goes back. |
| Memcached.GetHangUpIsMiss | pkg/memcached/memcached.go:119-123 | A server that closes the connection without replying makes `Get` report a miss. |
| Memcached.DeleteEitherWay | pkg/memcached/memcached.go:140-145 | `Delete` succeeds on `DELETED` and on `NOT_FOUND` alike. |
| Memcached.AcquireReleaseKeepsAccounting | pkg/memcached/memcached.go:77-81 | Taking a connection, then giving back what the operation released, keeps the pool's invariants. A connection not given back stays counted as out. |
| Memcached.DialFailureReachesCaller | pkg/memcached/memcached.go:76-80 | A dial refused inside `pool.Get` reaches the caller of `Set`, `Get` and `Delete` as `ErrGetConn` wrapping the pool's `ErrServerConnect`. Nothing is written, and the pool is as it was. |
| Memcached.SetKeepsPoolAccounting | pkg/memcached/memcached.go:76-97 | A `Set` that returns leaves the pool's books as they were. One that blocks keeps its connection out. |
| ConnPool.Apply | pkg/memcached/pool/options.go:5-35 | An option sets its field and leaves the other fields alone. |
| ConnPool.LastSettingWins | pkg/memcached/pool/pool.go:50-52 | Options run in order, so the last one that sets a field decides it. |
| ConnPool.UnsetFieldIsZero | pkg/memcached/pool/pool.go:45-48 | A field that no option sets keeps Go's zero value. |
| ConnPool.ConfigureUntouched | pkg/memcached/pool/pool.go:50-52 | Options that do not touch a field leave it as it was. |
| ConnPool.NewPool | pkg/memcached/pool/pool.go:44-59 | `NewPool` has the settings the options give, an empty idle list, nothing open, and is not closed. A negative idle capacity panics, so it is excluded. |
| ConnPool.NewPoolValid | pkg/memcached/pool/pool.go:44-59 | A fresh pool satisfies the idle bound, the open bound and the accounting invariant. |
| ConnPool.RemoveIdle | pkg/memcached/pool/pool.go:116-119 | `removeIdleConn` drops exactly the i-th entry and keeps the order of the rest. |
| ConnPool.OpenNewConnection | pkg/memcached/pool/pool.go:121-132 | A dial either yields the connection, or fails with `ErrServerConnect` wrapping the dial error. |
| ConnPool.Get | pkg/memcached/pool/pool.go:74-114 | `Pool.Get` reuses the first idle connection exactly when one exists, and enqueues exactly when none is idle and the limit is reached. Otherwise it dials: the count rises on success and is restored on failure. |
| ConnPool.Put | pkg/memcached/pool/pool.go:61-72 | `Pool.Put` keeps the connection idle exactly when there is room. Otherwise it closes it and decrements the open count. |
| ConnPool.Close | pkg/memcached/pool/pool.go:193-207 | `Pool.Close` empties the idle list, sets the idle limit to zero, hands back the connections to close, and leaves the open count untouched. |
| ConnPool.Serve | pkg/memcached/pool/pool.go:134-191 | One handler turn: a cancelled context or an expired timer answers with the matching error and leaves the pool alone. An idle connection is handed over and leaves the idle list. Otherwise one is dialled under the limit, which only adds one to the open count. A failed dial ends the turn without any reply, and the open count is back where it was. |
| ConnPool.GetKeepsInvariants | pkg/memcached/pool/pool.go:74-114 | `Get` keeps the bounds and the accounting. What it hands out joins the set of connections that are out. |
| ConnPool.ServeKeepsInvariants | pkg/memcached/pool/pool.go:134-191 | A handler turn keeps the bounds and the accounting. |
| ConnPool.PutKeepsInvariants | pkg/memcached/pool/pool.go:61-72 | Giving back a handed-out connection keeps the bounds and the accounting, and it leaves the set of connections that are out. |
| ConnPool.CloseLeavesStaleCount | pkg/memcached/pool/pool.go:201-206 | After `Close` the open count still includes the connections it closed. The books balance only if none were idle. |
| ConnPool.PutAfterClose | pkg/memcached/pool/pool.go:65-71 | After `Close`, every connection given back is closed and uncounted. |
| ConnPool.ServeAnswersUnlessDialFails | pkg/memcached/pool/pool.go:174-179 | The handler drops a request only when a dial fails. With nothing idle and no room to dial, it turns again. |
| Cache.New | pkg/cache/cache.go:19-24 | A new cache holds no key. |
| Cache.Get | pkg/cache/cache.go:26-37 | `Cache.Get` hits exactly when the key is stored and its item still lives, a positive ttl ending inclusively. A hit gives the stored value and a miss gives `""`. |
| Cache.Set | pkg/cache/cache.go:41-45 | `Cache.Set` stores the item stamped with `now`, and every other entry stays. |
| Cache.Delete | pkg/cache/cache.go:47-51 | `Cache.Delete` removes the key, and every other entry stays. |
| Cache.NewMisses | pkg/cache/cache.go:19-37 | A new cache misses every key. |
| Cache.SetThenGet | pkg/cache/cache_test.go:26-27 | After a `Set`, a later `Get` of that key returns the value while the item lives and misses afterwards. |
| Cache.LiveAtDeadline | pkg/cache/cache.go:32 | An item read exactly `ttl` after it was stored is still live. |
| Cache.NoTtlNeverExpires | pkg/cache/cache.go:32 | A zero or negative ttl never expires. |
| Cache.ExpiredStaysStored | pkg/cache/cache.go:26-37 | Expiry is lazy: an expired item reads as a miss but stays stored. |
| Cache.DeleteThenGet | pkg/cache/cache_test.go:48-50 | A deleted key misses, and deleting a missing key changes nothing. |
| Cache.SetReplaces | pkg/cache/cache.go:43 | A second `Set` on a key replaces the value, the time and the ttl. |
| Cache.OtherKeysUnaffected | pkg/cache/cache.go:41-51 | `Set` and `Delete` on one key leave what every other key reads. |
| Adapters.CacheSet | internal/adapters/cache.go:19-23 | The cache adapter's `Set` never fails, the new value reads back, and other keys are unaffected. |
| Adapters.CacheGet | internal/adapters/cache.go:25-32 | The cache adapter's `Get` returns no error exactly on a cache hit. A miss is `""` with the adapters' `ErrNotFound`. |
| Adapters.CacheDelete | internal/adapters/cache.go:34-38 | The cache adapter's `Delete` never fails, removes the key, and keeps every other entry. |
| Adapters.CacheAdapterRoundTrip | internal/adapters/cache.go:19-32 | Through the adapter, a set value is got back while it lives, and is `ErrNotFound` afterwards. |
| Adapters.CacheAdapterDeleteMisses | internal/adapters/cache.go:25-38 | Through the adapter, a deleted key is `ErrNotFound`. |
| Adapters.Seconds | internal/adapters/memcached.go:20-22 | A duration becomes whole seconds truncated toward zero, and a whole number of seconds is exact. |
| Adapters.WholeSecondsExact | internal/adapters/memcached.go:20-22 | A whole number of seconds reaches the client unchanged. |
| Adapters.MemcachedSet | internal/adapters/memcached.go:20-22 | The memcached adapter's `Set` sends the client's `set` with the ttl in seconds and returns only the client's errors. |
| Adapters.MemcachedGet | internal/adapters/memcached.go:24-31 | The client's `ErrNotFound` becomes the adapters' `ErrNotFound`, the value passed through. Anything else comes back unchanged. |
| Adapters.MemcachedMissIsNotFound | internal/adapters/memcached.go:24-31 | Through the memcached adapter, `ErrNotFound` comes back exactly when the reply held no value line. |
| UseCase.WithLogger | internal/usecase/storage/options.go:25-31 | The logger option records the logger and reports no error. |
| UseCase.WithStorage | internal/usecase/storage/options.go:33-39 | The storage option records the storage and reports no error. |
| UseCase.Validate | internal/usecase/storage/options.go:17-23 | Validation passes exactly when a logger is set, and otherwise fails with `ErrBadLogger`. |
| UseCase.New | internal/usecase/storage/usecase.go:34-53 | `New` runs the options in order, returns the first error one reports, then validates. On success it builds a use case from the resulting settings. |
| UseCase.StopsForGood | internal/usecase/storage/usecase.go:37-43 | Once an option has failed, later options do not run. |
| UseCase.NilOptionSkipped | internal/usecase/storage/usecase.go:38 | A nil option changes nothing. |
| UseCase.NewWithLoggerAndStorage | internal/usecase/storage/usecase.go:34-53 | With a logger and a storage, `New` succeeds over that storage. |
| UseCase.SetAnswer | internal/usecase/storage/usecase.go:73-88 | The storage's error comes back as `ErrSet` with the storage's text in front, and no error stays no error. |
| UseCase.GetAnswer | internal/usecase/storage/usecase.go:105-127 | The adapters' `ErrNotFound`, and only it, becomes the use case's `ErrNotFound`. Every other error becomes `ErrGet`, and either way the value is dropped. Success passes the value through. |
| UseCase.DeleteAnswer | internal/usecase/storage/usecase.go:144-157 | The storage's error comes back as `ErrDelete`, and no error stays no error. |
| UseCase.Set | internal/usecase/storage/usecase.go:55-89 | No error exactly when the storage's `Set` reports none. A storage error comes back as `ErrSet` wrapping the storage's text. |
| UseCase.Get | internal/usecase/storage/usecase.go:91-128 | The storage's value exactly when its `Get` reports no error. Its `ErrNotFound` comes back as the use case's `ErrNotFound`, and any other error as `ErrGet`, each wrapping the storage's text, with an empty value. |
| UseCase.Delete | internal/usecase/storage/usecase.go:130-158 | No error exactly when the storage's `Delete` reports none. A storage error comes back as `ErrDelete` wrapping the storage's text. |
| Controller.Int64Wrap | internal/controller/grpc/storage/grpc.go:96 | 64-bit signed arithmetic: the exact result reduced modulo 2^64 into range. It is exact when the result fits. |
| Controller.TtlNanos | internal/controller/grpc/storage/grpc.go:96 | The seconds-to-duration conversion agrees with the exact product modulo 2^64. |
| Controller.TtlInRange | internal/controller/grpc/storage/grpc.go:96-97 | Within about 292 years the conversion is exact, and it is negative exactly for a negative request. |
| Controller.TtlOverflowNegative | internal/controller/grpc/storage/grpc.go:96-97 | One second past the range, a positive ttl wraps to a negative duration and is rejected. |
| Controller.TtlOverflowPositive | internal/controller/grpc/storage/grpc.go:96-97 | A larger positive ttl wraps to a duration of about 0.29 seconds and is accepted. |
| Controller.Set | internal/controller/grpc/storage/grpc.go:61-124 | The key, then the value, then the ttl are checked, each rejection `InvalidArgument` with its own message. A valid request goes to the use case trimmed, and its error becomes `Internal`. It is served exactly when all checks pass and the use case succeeds. |
| Controller.GetStatus | internal/controller/grpc/storage/grpc.go:149-171 | The use case's `ErrNotFound` becomes `NotFound`, any other error becomes `Internal`, and no error serves the value. |
| Controller.Get | internal/controller/grpc/storage/grpc.go:126-172 | A blank key, and only a blank key, is `InvalidArgument`. Otherwise the answer is the use case's answer for the trimmed key, reported. |
| Controller.Delete | internal/controller/grpc/storage/grpc.go:174-210 | A blank key is `InvalidArgument`, and the use case's error becomes `Internal`. It is served exactly when the key is not blank and the use case succeeds. |
| Controller.ValidationOrder | internal/controller/grpc/storage/grpc.go:73-94 | A blank key is reported before a blank value, and a blank value before the ttl. |
| Controller.ZeroTtlAccepted | internal/controller/grpc/storage/grpc.go:96-107 | A zero ttl (no expiry) is accepted and handed on as zero. |
| EndToEnd.CacheAnswer | internal/controller/grpc/storage/grpc.go:149-171 | The cache adapter's answer, through `UseCase.Get` and the controller's report: `NotFound` exactly on a cache miss, and the value on a hit. |
| EndToEnd.CacheGetStatus | internal/controller/grpc/storage/grpc.go:126-172 | Over the cache adapter under `UseCase`, `Get` of a non-blank key answers `NotFound` exactly when the trimmed key misses, and `Internal` never happens. |
| EndToEnd.CacheWritesSucceed | internal/controller/grpc/storage/grpc.go:109-123 | Over the cache, a `Set` that passes validation, and a `Delete` of a non-blank key, are always served. |
| EndToEnd.MemcachedGetStatus | internal/controller/grpc/storage/grpc.go:149-171 | Over memcached, a returning `Get` answers `NotFound` exactly when the reply held no value line. It serves exactly on a hit. It answers `Internal` exactly for no connection, a failed write or a failed read. |
| EndToEnd.MemcachedErrorValueIsInternal | pkg/memcached/memcached.go:175-177 | Over memcached, a stored value containing `ERROR` surfaces to the gRPC client as `Internal`, not as the value. |

## Left out

- Concurrency is not modelled: the mutex, the request channel, its 10000-entry
  buffer and the handler goroutine. Each pool function is one critical section
  or one handler turn. The caller chooses the interleaving by choosing the
  calls.
- Liveness is not modelled. A requester whose handler turn is `Dropped` (a
  failed dial) waits forever, and `Close` drains queued requests without
  answering them. Only the first is stated, in `ConnPool.Serve`; the model
  has no request queue, so the second is not. Nothing is proved about waiting.
- Go's random choice between ready `select` cases is a parameter (`Signal`).
  The handler's default branch is the `Quiet` signal.
- Sockets, dialling and timeouts are inputs: a `Dial` result, a write failure,
  and a sequence of read results. Bytes that arrive together with `io.EOF` are
  dropped, as the loop does. The 1024-byte read size is not modelled because
  chunks have any size.
- Adapters.Seconds: `int(ttl.Seconds())` goes through a float64. The model
  truncates exactly, so it leaves out the float rounding that can lift a
  fraction just below a whole second to the next second once a duration
  exceeds about 2^24 seconds. Durations that come through the controller are
  whole seconds unless the controller's 64-bit multiplication wraps, and for
  whole seconds the two agree. A wrapped duration beyond about 2^24 seconds
  can differ by one: 8194354221727966100 seconds becomes
  8589934592999999488 ns, which the model reads as 8589934592 seconds and
  the float computation rounds to 8589934593.
- Adapters.MemcachedSet: uses the exact truncation of `Adapters.Seconds`, so
  the same float rounding is left out here.
- Logging is not modelled (the logger is only written to). Neither are the
  request UUID and the `time.Duration` `String` rendering that only logs use.
- The use case's logger is only a flag saying whether one was supplied.
- The wiring is not modelled (`cmd/storage`, `pkg/conf`,
  `pkg/interceptors`, `test/integration`, `pkg/logger`): it connects
  components and holds no logic of the tier.
- `memcached.Connect` and `memcached/options.go` are not modelled. `Connect`
  only passes its defaults and options on to `NewPool`, which is modelled.
- `Client.Close` and `MemcachedAdapter.Close` only delegate to `Pool.Close`,
  which is modelled as `ConnPool.Close`. `MemcachedAdapter.Delete` only
  delegates to `Client.Delete`. `CacheAdapter.Close` does nothing.
- `Controller.New` and the controller's options file are not modelled. They
  repeat the option loop and validation of `UseCase.New`, here with a logger
  and a use case.
- The text of the adapters' `ErrNotFound` is a stand-in, because
  internal/adapters/errors.go is not part of this model. Only its identity is
  used.
- Strings are sequences of characters. Go's bytes, UTF-8 decoding and invalid
  UTF-8 are not modelled, and `strings.TrimSpace` is modelled over the Unicode
  whitespace it recognises.
- `time.Time.Sub` saturates at the extremes of 64 bits. `Cache.Live` uses exact
  subtraction of clock readings instead.
- Cache.Get: the ttl and time arithmetic are unbounded integers, so 64-bit
  wrap-around in `time.Duration` is not modelled for the cache.
- ConnPool.Get: a `Get` on a closed pool that must enqueue sends on a closed
  channel and panics. That case is excluded by the precondition.
- ConnPool.Close: closing twice closes a closed channel and panics. The
  precondition excludes it.
- ConnPool.NewPool: a negative idle limit makes `make` panic. The precondition
  excludes it.
- UseCase.Set: a use case built without a storage dereferences nil and panics.
  The precondition excludes it. The same holds for `UseCase.Get` and
  `UseCase.Delete`.
- The protobuf and gRPC plumbing is not modelled: a status is its code and
  message, and a request's ttl is an `Int64`.
