/**
 * The memcached client of pkg/memcached/memcached.go: `Set`, `Get` and
 * `Delete`, each of which takes a connection from the pool, writes one
 * command, reads the reply and gives the connection back.
 *
 * The pool's answer, whether the write fails, and the results of the
 * successive reads are inputs. An operation whose read loop never sees the
 * end of its reply does not return; it is modelled as `Blocked`.
 */
module Memcached {
  import opened Wrappers
  import opened Text
  import opened Errors
  import opened Protocol
  import ConnPool

  /** What `pool.Get` gave the operation. */
  datatype Acquisition = Acquired(conn: ConnPool.Conn) | AcquireFailed(err: Error)

  /** How an operation ends: it returns a value and an error, or it never returns. */
  datatype Outcome = Returned(value: string, err: Option<Error>) | Blocked

  /** One operation: how it ended, what it wrote, and what it gave back to the pool. */
  datatype Call = Call(outcome: Outcome, sent: Option<string>, released: Option<ConnPool.Conn>)

  /** The part all three operations share: acquire, write, read. */
  datatype Exchange =
    | NoConn(err: Error)
    | WriteFailed(conn: ConnPool.Conn, reason: string)
    | Replied(conn: ConnPool.Conn, resp: Response)

  function Converse(acq: Acquisition, writeFailure: Option<string>, rs: seq<ReadResult>): (x: Exchange)
    ensures x.NoConn? <==> acq.AcquireFailed?
    ensures x.NoConn? ==> x.err == acq.err
    ensures !x.NoConn? ==> x.conn == acq.conn
    ensures x.WriteFailed? <==> acq.Acquired? && writeFailure.Some?
    ensures x.Replied? ==> x.resp == GetResponse(rs)
  {
    match acq
    case AcquireFailed(e) => NoConn(e)
    case Acquired(c) =>
      if writeFailure.Some? then WriteFailed(c, writeFailure.value) else Replied(c, GetResponse(rs))
  }

  /** The connection goes back to the pool on every path that returns after acquiring it. */
  function Finish(x: Exchange, wire: string, outcome: Outcome): (r: Call)
    ensures r.outcome == outcome
    ensures r.sent.Some? <==> !x.NoConn?
    ensures r.sent.Some? ==> r.sent.value == wire
    ensures r.released.Some? <==> !x.NoConn? && outcome.Returned?
    ensures r.released.Some? ==> r.released.value == x.conn
  {
    if x.NoConn? then Call(outcome, None, None)
    else if outcome.Blocked? then Call(outcome, Some(wire), None)
    else Call(outcome, Some(wire), Some(x.conn))
  }

  /**
   * `Client.Set`. Every error it returns answers to `ErrGetConn`,
   * `ErrConnWrite` or `ErrSet`, and the bare `ErrSet` of the check after
   * the read is never returned, because a reply holding `ERROR` has already
   * failed inside the read loop.
   */
  function Set(acq: Acquisition, key: string, value: string, ttl: int,
               writeFailure: Option<string>, rs: seq<ReadResult>): (r: Call)
    ensures r.sent == (if acq.Acquired? then Some(EncodeSet(key, value, ttl)) else None)
    ensures r.released == (if acq.Acquired? && r.outcome.Returned? then Some(acq.conn) else None)
    ensures acq.AcquireFailed? ==> r.outcome == Returned("", Some(Wrap(McGetConn, acq.err.message)))
    ensures acq.Acquired? && writeFailure.Some? ==>
              r.outcome == Returned("", Some(Wrap(McConnWrite, writeFailure.value)))
    ensures r.outcome.Returned? ==> r.outcome.value == ""
    ensures r.outcome.Returned? && r.outcome.err.Some? ==>
              r.outcome.err.value.kind in {McGetConn, McConnWrite, McSet}
              && r.outcome.err.value != Sentinel(McSet)
    ensures acq.Acquired? && writeFailure.None? && GetResponse(rs).Failed? ==>
              r.outcome == Returned("", Some(Wrap(McSet, GetResponse(rs).err.message)))
    ensures r.outcome == Returned("", None) <==>
              acq.Acquired? && writeFailure.None? && GetResponse(rs).Done?
    ensures r.outcome.Blocked? <==> acq.Acquired? && writeFailure.None? && GetResponse(rs).Stalled?
  {
    var x := Converse(acq, writeFailure, rs);
    var outcome :=
      match x
      case NoConn(e) => Returned("", Some(Wrap(McGetConn, e.message)))
      case WriteFailed(_, reason) => Returned("", Some(Wrap(McConnWrite, reason)))
      case Replied(_, resp) =>
        match resp
        case Failed(e) => Returned("", Some(Wrap(McSet, e.message)))
        case Stalled(_) => Blocked
        case Done(buf) =>
          if Contains(buf, ResponseError) then Returned("", Some(Sentinel(McSet)))
          else Returned("", None);
    Finish(x, EncodeSet(key, value, ttl), outcome)
  }

  /**
   * `Client.Get`. A reply without a value line is a miss and returns the
   * bare `ErrNotFound`; the bare `ErrGet` of the check after the read is
   * never returned.
   */
  function Get(acq: Acquisition, key: string, writeFailure: Option<string>,
               rs: seq<ReadResult>): (r: Call)
    ensures r.sent == (if acq.Acquired? then Some(EncodeGet(key)) else None)
    ensures r.released == (if acq.Acquired? && r.outcome.Returned? then Some(acq.conn) else None)
    ensures acq.AcquireFailed? ==> r.outcome == Returned("", Some(Wrap(McGetConn, acq.err.message)))
    ensures acq.Acquired? && writeFailure.Some? ==>
              r.outcome == Returned("", Some(Wrap(McConnWrite, writeFailure.value)))
    ensures r.outcome.Returned? && r.outcome.err.Some? ==>
              && r.outcome.value == ""
              && r.outcome.err.value.kind in {McGetConn, McConnWrite, McGet, McNotFound}
              && r.outcome.err.value != Sentinel(McGet)
    ensures acq.Acquired? && writeFailure.None? && GetResponse(rs).Failed? ==>
              r.outcome == Returned("", Some(Wrap(McGet, GetResponse(rs).err.message)))
    ensures r.outcome.Returned? && Is(r.outcome.err, McNotFound) <==>
              && acq.Acquired? && writeFailure.None? && GetResponse(rs).Done?
              && !GetData(GetResponse(rs).buf).1
    ensures r.outcome.Returned? && Is(r.outcome.err, McNotFound) ==> r.outcome.err == Some(Sentinel(McNotFound))
    ensures r.outcome.Returned? && r.outcome.err.None? <==>
              && acq.Acquired? && writeFailure.None? && GetResponse(rs).Done?
              && GetData(GetResponse(rs).buf).1
    ensures r.outcome.Returned? && r.outcome.err.None? ==>
              r.outcome.value == GetData(GetResponse(rs).buf).0
    ensures r.outcome.Blocked? <==> acq.Acquired? && writeFailure.None? && GetResponse(rs).Stalled?
  {
    var x := Converse(acq, writeFailure, rs);
    var outcome :=
      match x
      case NoConn(e) => Returned("", Some(Wrap(McGetConn, e.message)))
      case WriteFailed(_, reason) => Returned("", Some(Wrap(McConnWrite, reason)))
      case Replied(_, resp) =>
        match resp
        case Failed(e) => Returned("", Some(Wrap(McGet, e.message)))
        case Stalled(_) => Blocked
        case Done(buf) =>
          if Contains(buf, ResponseError) then Returned("", Some(Sentinel(McGet)))
          else
            var (data, ok) := GetData(buf);
            if !ok then Returned("", Some(Sentinel(McNotFound))) else Returned(data, None);
    Finish(x, EncodeGet(key), outcome)
  }

  /**
   * `Client.Delete`. Any reply that ends the read loop is a success,
   * `NOT_FOUND` included.
   */
  function Delete(acq: Acquisition, key: string, writeFailure: Option<string>,
                  rs: seq<ReadResult>): (r: Call)
    ensures r.sent == (if acq.Acquired? then Some(EncodeDelete(key)) else None)
    ensures r.released == (if acq.Acquired? && r.outcome.Returned? then Some(acq.conn) else None)
    ensures acq.AcquireFailed? ==> r.outcome == Returned("", Some(Wrap(McGetConn, acq.err.message)))
    ensures acq.Acquired? && writeFailure.Some? ==>
              r.outcome == Returned("", Some(Wrap(McConnWrite, writeFailure.value)))
    ensures r.outcome.Returned? ==> r.outcome.value == ""
    ensures r.outcome.Returned? && r.outcome.err.Some? ==>
              r.outcome.err.value.kind in {McGetConn, McConnWrite, McDelete}
    ensures acq.Acquired? && writeFailure.None? && GetResponse(rs).Failed? ==>
              r.outcome == Returned("", Some(Wrap(McDelete, GetResponse(rs).err.message)))
    ensures r.outcome == Returned("", None) <==>
              acq.Acquired? && writeFailure.None? && GetResponse(rs).Done?
    ensures r.outcome.Blocked? <==> acq.Acquired? && writeFailure.None? && GetResponse(rs).Stalled?
  {
    var x := Converse(acq, writeFailure, rs);
    var outcome :=
      match x
      case NoConn(e) => Returned("", Some(Wrap(McGetConn, e.message)))
      case WriteFailed(_, reason) => Returned("", Some(Wrap(McConnWrite, reason)))
      case Replied(_, resp) =>
        match resp
        case Failed(e) => Returned("", Some(Wrap(McDelete, e.message)))
        case Stalled(_) => Blocked
        case Done(_) => Returned("", None);
    Finish(x, EncodeDelete(key), outcome)
  }

  // ---------------------------------------------------------------------
  // Replies

  /** A single read of one terminator settles the read loop with that buffer. */
  lemma OneRead(t: string)
    requires t in {ResponseStored, ResponseEnd, ResponseNotFound, ResponseDeleted}
    ensures GetResponse([Data(t)]) == Done(t)
  {
    TerminatorsComplete();
    assert "" + t == t;
  }

  /** `STORED` makes `Set` succeed, and the server reads back what was asked. */
  lemma SetStored(c: ConnPool.Conn, key: string, value: string, ttl: int)
    requires IsKey(key)
    ensures var r := Set(Acquired(c), key, value, ttl, None, [Data(ResponseStored)]);
            && r.outcome == Returned("", None)
            && r.released == Some(c)
            && ParseCommand(r.sent.value) == Some(SetCommand(key, 0, ttl, value))
  {
    OneRead(ResponseStored);
  }

  /** A reply that contains `ERROR` anywhere makes `Set` fail with the wrapped client error. */
  lemma SetErrorReply(c: ConnPool.Conn, key: string, value: string, ttl: int, reply: string)
    requires Contains(reply, ResponseError)
    ensures Set(Acquired(c), key, value, ttl, None, [Data(reply)]).outcome
            == Returned("", Some(Wrap(McSet, SentinelText(McClient))))
  {
    assert "" + reply == reply;
  }

  /** A server that hangs up before replying still counts as a stored value. */
  lemma SetHangUpSucceeds(c: ConnPool.Conn, key: string, value: string, ttl: int)
    ensures Set(Acquired(c), key, value, ttl, None, [Eof]).outcome == Returned("", None)
  {
  }

  /** A stored value comes back from `Get`, provided it survives the reply's framing. */
  lemma GetHit(c: ConnPool.Conn, key: string, flags: nat, value: string)
    requires Lacks(key, '\r')
    requires Lacks(value, '\r') && !HasSuffix(value, "END")
    requires !Contains(ValueReply(key, flags, value), ResponseError)
    ensures Get(Acquired(c), key, None, [Data(ValueReply(key, flags, value))]).outcome
            == Returned(value, None)
  {
    var reply := ValueReply(key, flags, value);
    assert reply[|reply| - 5..] == ResponseEnd;
    assert OccursAt(reply, ResponseEnd, |reply| - 5);
    assert "" + reply == reply;
    assert GetResponse([Data(reply)]) == Done(reply);
    GetDataRoundTrip(key, flags, value);
  }

  /** A stored value that contains `ERROR` cannot be read: `Get` fails. */
  lemma GetValueWithError(c: ConnPool.Conn, key: string, flags: nat, value: string)
    requires Contains(value, ResponseError)
    ensures Get(Acquired(c), key, None, [Data(ValueReply(key, flags, value))]).outcome
            == Returned("", Some(Wrap(McGet, SentinelText(McClient))))
  {
    var reply := ValueReply(key, flags, value);
    var head := "VALUE " + key + " " + Decimal.NatToDec(flags) + " " + Decimal.NatToDec(|value|) + CRLF;
    assert reply == head + value + (CRLF + ResponseEnd);
    ContainsWithin(head, value, CRLF + ResponseEnd, ResponseError);
    assert "" + reply == reply;
  }

  /** A stored value ending in `END` reads as a miss. */
  lemma GetValueEndingInEnd(c: ConnPool.Conn, key: string, flags: nat, w: string)
    requires Lacks(key, '\r') && Lacks(w, '\r')
    requires !Contains(ValueReply(key, flags, w + "END"), ResponseError)
    ensures Get(Acquired(c), key, None, [Data(ValueReply(key, flags, w + "END"))]).outcome
            == Returned("", Some(Sentinel(McNotFound)))
  {
    var reply := ValueReply(key, flags, w + "END");
    assert reply[|reply| - 5..] == ResponseEnd;
    assert OccursAt(reply, ResponseEnd, |reply| - 5);
    assert "" + reply == reply;
    assert GetResponse([Data(reply)]) == Done(reply);
    GetDataLosesEndValue(key, flags, w);
  }

  /** `END` alone is a miss: the bare `ErrNotFound`, and the connection goes back. */
  lemma GetMiss(c: ConnPool.Conn, key: string)
    ensures Get(Acquired(c), key, None, [Data(ResponseEnd)])
            == Call(Returned("", Some(Sentinel(McNotFound))), Some(EncodeGet(key)), Some(c))
  {
    OneRead(ResponseEnd);
    GetDataMiss();
  }

  /** A server that hangs up before replying makes `Get` report a miss. */
  lemma GetHangUpIsMiss(c: ConnPool.Conn, key: string)
    ensures Get(Acquired(c), key, None, [Eof]).outcome == Returned("", Some(Sentinel(McNotFound)))
  {
    assert !Contains("", ResponseError);
    assert Split("", CRLF) == [""];
  }

  /** `Delete` succeeds whether the key was there (`DELETED`) or not (`NOT_FOUND`). */
  lemma DeleteEitherWay(c: ConnPool.Conn, key: string)
    ensures Delete(Acquired(c), key, None, [Data(ResponseDeleted)]).outcome == Returned("", None)
    ensures Delete(Acquired(c), key, None, [Data(ResponseNotFound)]).outcome == Returned("", None)
  {
    OneRead(ResponseDeleted);
    OneRead(ResponseNotFound);
  }

  // ---------------------------------------------------------------------
  // With the pool

  /** The client's view of the pool's answer, on the paths that do not wait for the handler. */
  function FromPool(a: ConnPool.Acquire): (acq: Acquisition)
    requires !a.Enqueued?
    ensures acq.Acquired? <==> a.Reused? || a.Dialed?
    ensures acq.Acquired? ==> acq.conn == a.conn
    ensures acq.AcquireFailed? ==> acq.err == a.err
  {
    match a
    case Reused(c) => Acquired(c)
    case Dialed(c) => Acquired(c)
    case DialFailed(e) => AcquireFailed(e)
  }

  /**
   * A dial refused inside `pool.Get` reaches the caller of each operation
   * as `ErrGetConn` wrapping the pool's `ErrServerConnect`, which wraps the
   * dial's own error; nothing is written and the pool is as it was.
   */
  lemma DialFailureReachesCaller(p: ConnPool.Pool, reason: string, key: string, value: string, ttl: int,
                                 writeFailure: Option<string>, rs: seq<ReadResult>)
    requires |p.idle| == 0 && !ConnPool.Saturated(p)
    ensures var (q, a) := ConnPool.Get(p, ConnPool.Refused(reason));
            var e := Some(Wrap(McGetConn, Wrap(PoolServerConnect, reason).message));
            && q == p && a.DialFailed?
            && Set(FromPool(a), key, value, ttl, writeFailure, rs) == Call(Returned("", e), None, None)
            && Get(FromPool(a), key, writeFailure, rs) == Call(Returned("", e), None, None)
            && Delete(FromPool(a), key, writeFailure, rs) == Call(Returned("", e), None, None)
  {
  }

  /** Give the connection back if the call released one. */
  function Release(p: ConnPool.Pool, released: Option<ConnPool.Conn>): ConnPool.Pool {
    if released.Some? then ConnPool.Put(p, released.value).0 else p
  }

  /**
   * Taking a connection and then giving back whatever the operation
   * released keeps the pool's invariants: with the connection back, the
   * books are as before; without it, the connection is still out.
   */
  lemma AcquireReleaseKeepsAccounting(p: ConnPool.Pool, dial: ConnPool.Dial, out: multiset<ConnPool.Conn>,
                                      returned: bool, released: Option<ConnPool.Conn>)
    requires !p.closed
    requires |p.idle| > 0 || !ConnPool.Saturated(p)
    requires ConnPool.IdleBounded(p) && ConnPool.OpenBounded(p) && ConnPool.Accounted(p, out)
    requires dial.Connected? ==> dial.conn !in multiset(p.idle) + out
    requires var a := ConnPool.Get(p, dial).1;
             released == if (a.Reused? || a.Dialed?) && returned then Some(a.conn) else None
    ensures var (q, a) := ConnPool.Get(p, dial);
            var q' := Release(q, released);
            && ConnPool.IdleBounded(q') && ConnPool.OpenBounded(q')
            && (returned || a.DialFailed? ==> ConnPool.Accounted(q', out))
            && (!returned && (a.Reused? || a.Dialed?) ==> ConnPool.Accounted(q', out + multiset{a.conn}))
  {
    var (q, a) := ConnPool.Get(p, dial);
    var q' := Release(q, released);
    ConnPool.GetKeepsInvariants(p, dial, out);
    if released.Some? {
      var c := released.value;
      assert c == a.conn && (a.Reused? || a.Dialed?);
      assert q' == ConnPool.Put(q, c).0;
      ConnPool.PutKeepsInvariants(q, c, out + multiset{c});
      assert out + multiset{c} - multiset{c} == out;
    } else {
      assert q' == q;
    }
  }

  /**
   * A `Set` that returns leaves the pool's books as they were: whatever it
   * took, it gave back. One that blocks keeps its connection.
   */
  lemma SetKeepsPoolAccounting(p: ConnPool.Pool, dial: ConnPool.Dial, out: multiset<ConnPool.Conn>,
                               key: string, value: string, ttl: int,
                               writeFailure: Option<string>, rs: seq<ReadResult>)
    requires !p.closed
    requires |p.idle| > 0 || !ConnPool.Saturated(p)
    requires ConnPool.IdleBounded(p) && ConnPool.OpenBounded(p) && ConnPool.Accounted(p, out)
    requires dial.Connected? ==> dial.conn !in multiset(p.idle) + out
    ensures var (q, a) := ConnPool.Get(p, dial);
            var r := Set(FromPool(a), key, value, ttl, writeFailure, rs);
            var q' := Release(q, r.released);
            && ConnPool.IdleBounded(q') && ConnPool.OpenBounded(q')
            && (r.outcome.Returned? ==> ConnPool.Accounted(q', out))
            && (r.outcome.Blocked? ==> ConnPool.Accounted(q', out + multiset{a.conn}))
  {
    var (q, a) := ConnPool.Get(p, dial);
    var r := Set(FromPool(a), key, value, ttl, writeFailure, rs);
    AcquireReleaseKeepsAccounting(p, dial, out, r.outcome.Returned?, r.released);
  }
}
