/**
 * Go errors as the storage tier builds them with `github.com/pkg/errors`.
 *
 * Every error of the tier is either a package-level sentinel made by
 * `errors.New`, or `errors.Wrap(sentinel, inner.Error())`: the wrap keeps the
 * sentinel as the only identity `errors.Is` can find, and the inner error
 * survives only as text in front of the sentinel's message. An error is
 * therefore modelled as the sentinel it answers to (its kind) together with
 * its full `Error()` text.
 */
module Errors {
  import opened Wrappers

  datatype Kind =
    // pkg/memcached/pool/error.go
    | PoolServerConnect | PoolConnTimeout | PoolConnCanceled
    // pkg/memcached/errors.go
    | McClient | McServer | McSet | McGetConn | McConnWrite
    | McConnRead | McGet | McDelete | McNotFound
    // internal/adapters
    | AdaptersNotFound
    // internal/usecase/storage/errors.go
    | UcBadLogger | UcSet | UcGet | UcDelete | UcNotFound

  datatype Error = Error(kind: Kind, message: string)

  /** The message a sentinel was created with. */
  function SentinelText(k: Kind): string {
    match k
    case PoolServerConnect => "memcached pool: unable to connect to memcached server"
    case PoolConnTimeout => "memcached pool: connection request timeout"
    case PoolConnCanceled => "memcached pool: connection request canceled"
    case McClient => "memcached: client error"
    case McServer => "memcached: server error"
    case McSet => "memcached: unable to set key-value pair"
    case McGetConn => "memcached: unable to get connection from pool"
    case McConnWrite => "memcached: unable to write to connection"
    case McConnRead => "memcached: unable to read from connection"
    case McGet => "memcached: unable to get value from the store"
    case McDelete => "memcached: unable to delete value"
    case McNotFound => "memcached: value not found"
    case AdaptersNotFound => "adapters: value not found"
    case UcBadLogger => "usecase: bad logger implementation"
    case UcSet => "usecase: unable to set key-value pair"
    case UcGet => "usecase: unable to get value"
    case UcDelete => "usecase: unable to delete value"
    case UcNotFound => "usecase: value not found"
  }

  /** `errors.Is(err, sentinel)`: the sentinel is in the error's chain. */
  predicate Is(err: Option<Error>, k: Kind) {
    err.Some? && err.value.kind == k
  }

  /** The sentinel itself, as returned bare. */
  function Sentinel(k: Kind): (e: Error)
    ensures Is(Some(e), k)
  {
    Error(k, SentinelText(k))
  }

  /**
   * `errors.Wrap(sentinel, msg)`: answers `errors.Is` for the sentinel only,
   * starts with `msg`, and is never the bare sentinel.
   */
  function Wrap(k: Kind, msg: string): (e: Error)
    ensures Is(Some(e), k)
    ensures |msg| <= |e.message| && e.message[..|msg|] == msg
    ensures e != Sentinel(k)
  {
    Error(k, msg + ": " + SentinelText(k))
  }

  /** A value together with the error a Go `(string, error)` result carries. */
  datatype Fetch = Fetch(value: string, err: Option<Error>)
}
