/**
 * The connection pool of pkg/memcached/pool/pool.go, one state transition at
 * a time. The mutex, the request channel and the handler goroutine are not
 * modelled as such: each function below is one critical section (or one
 * turn of the handler's `select`), and a dial is an input to it.
 *
 * Connections are named by natural numbers; which connections are handed
 * out at any moment is a multiset the accounting lemmas take as a parameter.
 */
module ConnPool {
  import opened Wrappers
  import opened Errors

  type Conn = nat

  // ---------------------------------------------------------------------
  // Settings

  /** The fields an option can set (pool/options.go). */
  datatype Field = Port | MaxIdleConns | MaxOpenConns | NewConnTimeout | ConnRetryTimeout

  /** One `With…` option: the field it sets and the value. */
  datatype Setting = Setting(field: Field, value: int)

  /** The pool's settings; a fresh `Pool` has every one of them zero. */
  datatype Settings = Settings(
    port: int, maxIdleConns: int, maxOpenConns: int, newConnTimeout: int, connRetryTimeout: int)

  const ZeroSettings := Settings(0, 0, 0, 0, 0)

  function Read(s: Settings, f: Field): int {
    match f
    case Port => s.port
    case MaxIdleConns => s.maxIdleConns
    case MaxOpenConns => s.maxOpenConns
    case NewConnTimeout => s.newConnTimeout
    case ConnRetryTimeout => s.connRetryTimeout
  }

  /** Running one option: its field takes its value, the other fields are untouched. */
  function Apply(s: Settings, o: Setting): (r: Settings)
    ensures Read(r, o.field) == o.value
    ensures forall f: Field | f != o.field :: Read(r, f) == Read(s, f)
  {
    match o.field
    case Port => s.(port := o.value)
    case MaxIdleConns => s.(maxIdleConns := o.value)
    case MaxOpenConns => s.(maxOpenConns := o.value)
    case NewConnTimeout => s.(newConnTimeout := o.value)
    case ConnRetryTimeout => s.(connRetryTimeout := o.value)
  }

  /** The settings after running `opts` in order on zero settings. */
  function Configure(opts: seq<Setting>): Settings
    decreases |opts|
  {
    if |opts| == 0 then ZeroSettings else Apply(Configure(opts[..|opts| - 1]), opts[|opts| - 1])
  }

  /** Options that do not touch a field leave it as it was. */
  lemma {:induction false} ConfigureUntouched(opts: seq<Setting>, rest: seq<Setting>, f: Field)
    requires forall j | 0 <= j < |rest| :: rest[j].field != f
    ensures Read(Configure(opts + rest), f) == Read(Configure(opts), f)
    decreases |rest|
  {
    if |rest| > 0 {
      var front := rest[..|rest| - 1];
      assert (opts + rest)[..|opts + rest| - 1] == opts + front;
      ConfigureUntouched(opts, front, f);
    } else {
      assert opts + rest == opts;
    }
  }

  /** The last option that sets a field decides it. */
  lemma LastSettingWins(opts: seq<Setting>, o: Setting, rest: seq<Setting>)
    requires forall j | 0 <= j < |rest| :: rest[j].field != o.field
    ensures Read(Configure(opts + [o] + rest), o.field) == o.value
  {
    ConfigureUntouched(opts + [o], rest, o.field);
    assert (opts + [o])[..|opts|] == opts;
  }

  /** A field no option sets stays zero. */
  lemma UnsetFieldIsZero(opts: seq<Setting>, f: Field)
    requires forall j | 0 <= j < |opts| :: opts[j].field != f
    ensures Read(Configure(opts), f) == 0
  {
    ConfigureUntouched([], opts, f);
    assert [] + opts == opts;
  }

  // ---------------------------------------------------------------------
  // The pool

  datatype Pool = Pool(settings: Settings, idle: seq<Conn>, openConns: int, closed: bool)

  /** A limit of zero or less on open connections means no limit. */
  predicate Saturated(p: Pool) {
    p.settings.maxOpenConns > 0 && p.openConns >= p.settings.maxOpenConns
  }

  /**
   * `NewPool(host, opts...)`: runs the options in order, then makes the idle
   * list with room for `maxIdleConns` connections, which panics when that is
   * negative. Nothing is open yet.
   */
  method NewPool(opts: seq<Setting>) returns (p: Pool)
    requires Configure(opts).maxIdleConns >= 0
    ensures p.settings == Configure(opts)
    ensures p.idle == [] && p.openConns == 0 && !p.closed
  {
    var s := ZeroSettings;
    var i := 0;
    while i < |opts|
      invariant 0 <= i <= |opts|
      invariant s == Configure(opts[..i])
    {
      assert opts[..i + 1][..i] == opts[..i];
      s := Apply(s, opts[i]);
      i := i + 1;
    }
    assert opts[..|opts|] == opts;
    p := Pool(s, [], 0, false);
  }

  /** `removeIdleConn(i)`: the idle list without its `i`-th entry, order kept. */
  function RemoveIdle(idle: seq<Conn>, i: nat): (r: seq<Conn>)
    requires i < |idle|
    ensures |r| == |idle| - 1
    ensures forall j | 0 <= j < i :: r[j] == idle[j]
    ensures forall j | i <= j < |r| :: r[j] == idle[j + 1]
    ensures multiset(r) + multiset{idle[i]} == multiset(idle)
  {
    assert idle == idle[..i] + [idle[i]] + idle[i + 1..];
    idle[..i] + idle[i + 1..]
  }

  /** What a dial produced. */
  datatype Dial = Connected(conn: Conn) | Refused(reason: string)

  /** `openNewConnection`: a refused dial is wrapped in `ErrServerConnect`. */
  datatype Opened = OpenedConn(conn: Conn) | OpenFailed(err: Error)

  function OpenNewConnection(dial: Dial): (r: Opened)
    ensures r.OpenedConn? <==> dial.Connected?
    ensures r.OpenFailed? ==> Is(Some(r.err), PoolServerConnect) && dial.reason <= r.err.message
  {
    match dial
    case Connected(c) => OpenedConn(c)
    case Refused(reason) => OpenFailed(Wrap(PoolServerConnect, reason))
  }

  /** How `Pool.Get` ends. */
  datatype Acquire =
    | Reused(conn: Conn)       // taken from the idle list
    | Dialed(conn: Conn)       // a new connection
    | DialFailed(err: Error)   // a new connection could not be made
    | Enqueued                 // handed to the request handler; see `Serve`

  /**
   * `Pool.Get`: the first idle connection if there is one; otherwise, when
   * the pool is at its limit, a request for the handler; otherwise a dial,
   * counted as open before it is made and uncounted again if it fails.
   * On a closed pool at its limit, the request is sent on a closed channel,
   * which panics; that is excluded.
   */
  function Get(p: Pool, dial: Dial): (r: (Pool, Acquire))
    requires !(p.closed && |p.idle| == 0 && Saturated(p))
    ensures r.1.Reused? <==> |p.idle| > 0
    ensures r.1.Reused? ==> r.1.conn == p.idle[0] && r.0.idle == RemoveIdle(p.idle, 0)
    ensures r.1.Enqueued? <==> |p.idle| == 0 && Saturated(p)
    ensures r.1.Dialed? || r.1.DialFailed? <==> |p.idle| == 0 && !Saturated(p)
    ensures r.1.Dialed? ==> dial == Connected(r.1.conn) && r.0.openConns == p.openConns + 1
    ensures r.1.DialFailed? ==> dial.Refused? && Is(Some(r.1.err), PoolServerConnect)
    ensures !r.1.Dialed? ==> r.0.openConns == p.openConns
    ensures !r.1.Reused? ==> r.0.idle == p.idle
    ensures r.0.settings == p.settings && r.0.closed == p.closed
  {
    if |p.idle| > 0 then
      (p.(idle := RemoveIdle(p.idle, 0)), Reused(p.idle[0]))
    else if Saturated(p) then
      (p, Enqueued)
    else
      match OpenNewConnection(dial)
      case OpenedConn(c) => (p.(openConns := p.openConns + 1), Dialed(c))
      case OpenFailed(e) => (p, DialFailed(e))
  }

  /** Whether `Pool.Put` kept the connection idle or closed it. */
  datatype Release = Kept | Discarded

  /**
   * `Pool.Put`: the connection goes back to the idle list while there is
   * room; otherwise it is closed and no longer counted as open.
   */
  function Put(p: Pool, c: Conn): (r: (Pool, Release))
    ensures r.1 == Kept <==> |p.idle| < p.settings.maxIdleConns
    ensures r.1 == Kept ==> r.0.idle == p.idle + [c] && r.0.openConns == p.openConns
    ensures r.1 == Discarded ==> r.0.idle == p.idle && r.0.openConns == p.openConns - 1
    ensures r.0.settings == p.settings && r.0.closed == p.closed
  {
    if p.settings.maxIdleConns > |p.idle| then
      (p.(idle := p.idle + [c]), Kept)
    else
      (p.(openConns := p.openConns - 1), Discarded)
  }

  /**
   * `Pool.Close`: the request channel is closed and drained, no connection
   * may be idle any more, and every idle connection is closed; the count of
   * open connections is left as it was. Closing twice closes a closed
   * channel, which panics; that is excluded.
   */
  function Close(p: Pool): (r: (Pool, seq<Conn>))
    requires !p.closed
    ensures r.0.closed && r.0.idle == [] && r.0.settings.maxIdleConns == 0
    ensures r.1 == p.idle
    ensures r.0.openConns == p.openConns
  {
    (p.(idle := [], settings := p.settings.(maxIdleConns := 0), closed := true), p.idle)
  }

  // ---------------------------------------------------------------------
  // The request handler

  /** Which case of the handler's `select` fires: the caller's context, the retry timer, or neither. */
  datatype Signal = ContextDone | TimerFired | Quiet

  /** What the handler sends back on a request's response channel. */
  datatype Reply = Handed(conn: Conn) | Refusal(err: Error)

  /** One turn of the handler on a request. */
  datatype Turn =
    | Respond(reply: Reply)   // a reply is sent and the request is finished
    | Again                   // nothing available yet; the loop turns again
    | Dropped                 // the loop ends without sending anything

  /**
   * One turn of `handleConnectionRequest` on the request at the head of the
   * queue. A cancelled context or an expired timer ends the request with the
   * matching error; otherwise an idle connection is handed over, or a new
   * one is dialled while under the limit. A failed dial ends the loop with
   * no reply at all, so the requester, blocked on the response channel with
   * no timeout of its own, never returns.
   */
  function Serve(p: Pool, signal: Signal, dial: Dial): (r: (Pool, Turn))
    ensures signal == ContextDone ==> r == (p, Respond(Refusal(Sentinel(PoolConnCanceled))))
    ensures signal == TimerFired ==> r == (p, Respond(Refusal(Sentinel(PoolConnTimeout))))
    ensures signal == Quiet && |p.idle| > 0 ==>
              r == (p.(idle := RemoveIdle(p.idle, 0)), Respond(Handed(p.idle[0])))
    ensures r.1.Respond? && r.1.reply.Handed? && |p.idle| == 0 ==>
              dial == Connected(r.1.reply.conn) && r.0 == p.(openConns := p.openConns + 1)
    ensures r.1 == Dropped <==> signal == Quiet && |p.idle| == 0 && dial.Refused?
                                && p.settings.maxOpenConns > 0 && !Saturated(p)
    ensures r.1 == Dropped ==> r.0 == p
    ensures r.1 == Again ==> r.0 == p
    ensures r.0.settings == p.settings && r.0.closed == p.closed
  {
    match signal
    case ContextDone => (p, Respond(Refusal(Sentinel(PoolConnCanceled))))
    case TimerFired => (p, Respond(Refusal(Sentinel(PoolConnTimeout))))
    case Quiet =>
      if |p.idle| > 0 then
        (p.(idle := RemoveIdle(p.idle, 0)), Respond(Handed(p.idle[0])))
      else if p.settings.maxOpenConns > 0 && p.openConns < p.settings.maxOpenConns then
        match OpenNewConnection(dial)
        case OpenedConn(c) => (p.(openConns := p.openConns + 1), Respond(Handed(c)))
        case OpenFailed(_) => (p, Dropped)
      else
        (p, Again)
  }

  // ---------------------------------------------------------------------
  // Invariants

  /** Idle connections never exceed the idle limit. */
  predicate IdleBounded(p: Pool) {
    |p.idle| <= p.settings.maxIdleConns
  }

  /** With a limit set, open connections never exceed it. */
  predicate OpenBounded(p: Pool) {
    p.settings.maxOpenConns > 0 ==> p.openConns <= p.settings.maxOpenConns
  }

  /** No connection is in two places at once (idle twice, or idle and out). */
  predicate Distinct(m: multiset<Conn>) {
    forall c | c in m :: m[c] == 1
  }

  /**
   * The open count is exactly the idle connections plus the connections
   * handed out (`out`), and no connection is counted twice.
   */
  predicate Accounted(p: Pool, out: multiset<Conn>) {
    p.openConns == |p.idle| + |out| && Distinct(multiset(p.idle) + out)
  }

  /** A fresh pool satisfies every invariant with nothing handed out. */
  lemma NewPoolValid(opts: seq<Setting>, p: Pool)
    requires Configure(opts).maxIdleConns >= 0
    requires p == Pool(Configure(opts), [], 0, false)
    ensures IdleBounded(p) && OpenBounded(p) && Accounted(p, multiset{})
  {
  }

  lemma DistinctMove(idle: seq<Conn>, out: multiset<Conn>)
    requires |idle| > 0
    requires Distinct(multiset(idle) + out)
    ensures multiset(idle[1..]) + (out + multiset{idle[0]}) == multiset(idle) + out
  {
    assert idle == [idle[0]] + idle[1..];
    assert multiset(idle) == multiset{idle[0]} + multiset(idle[1..]);
  }

  /** `Get` keeps the invariants; what it hands out joins `out`. */
  lemma GetKeepsInvariants(p: Pool, dial: Dial, out: multiset<Conn>)
    requires !(p.closed && |p.idle| == 0 && Saturated(p))
    requires IdleBounded(p) && OpenBounded(p) && Accounted(p, out)
    requires dial.Connected? ==> dial.conn !in multiset(p.idle) + out
    ensures var (q, a) := Get(p, dial);
            && IdleBounded(q) && OpenBounded(q)
            && (a.Reused? || a.Dialed? ==> Accounted(q, out + multiset{a.conn}))
            && (a.DialFailed? || a.Enqueued? ==> Accounted(q, out))
  {
    var (q, a) := Get(p, dial);
    if a.Reused? {
      DistinctMove(p.idle, out);
      assert q.idle == p.idle[1..];
    } else if a.Dialed? {
      assert multiset(q.idle) + (out + multiset{a.conn}) == (multiset(p.idle) + out) + multiset{a.conn};
    }
  }

  /** One handler turn keeps the invariants; what it hands out joins `out`. */
  lemma ServeKeepsInvariants(p: Pool, signal: Signal, dial: Dial, out: multiset<Conn>)
    requires IdleBounded(p) && OpenBounded(p) && Accounted(p, out)
    requires dial.Connected? ==> dial.conn !in multiset(p.idle) + out
    ensures var (q, t) := Serve(p, signal, dial);
            && IdleBounded(q) && OpenBounded(q)
            && (t.Respond? && t.reply.Handed? ==> Accounted(q, out + multiset{t.reply.conn}))
            && (!(t.Respond? && t.reply.Handed?) ==> Accounted(q, out))
  {
    var (q, t) := Serve(p, signal, dial);
    if t.Respond? && t.reply.Handed? {
      if |p.idle| > 0 {
        DistinctMove(p.idle, out);
        assert q.idle == p.idle[1..];
      } else {
        assert multiset(q.idle) + (out + multiset{t.reply.conn})
            == (multiset(p.idle) + out) + multiset{t.reply.conn};
      }
    }
  }

  /** Giving back a handed-out connection keeps the invariants; it leaves `out`. */
  lemma PutKeepsInvariants(p: Pool, c: Conn, out: multiset<Conn>)
    requires c in out
    requires IdleBounded(p) && OpenBounded(p) && Accounted(p, out)
    ensures var (q, _) := Put(p, c);
            IdleBounded(q) && OpenBounded(q) && Accounted(q, out - multiset{c})
  {
    var (q, k) := Put(p, c);
    assert out == (out - multiset{c}) + multiset{c};
    if k == Kept {
      assert multiset(q.idle) + (out - multiset{c}) == multiset(p.idle) + out;
    } else {
      assert multiset(q.idle) + (out - multiset{c}) <= multiset(p.idle) + out;
    }
  }

  /**
   * `Close` keeps the idle list within its (now zero) limit, but the
   * connections it closes stay counted as open: the count afterwards is the
   * handed-out connections plus the ones just closed.
   */
  lemma CloseLeavesStaleCount(p: Pool, out: multiset<Conn>)
    requires !p.closed
    requires Accounted(p, out)
    ensures var (q, closedConns) := Close(p);
            && IdleBounded(q)
            && q.openConns == |out| + |closedConns|
            && (Accounted(q, out) <==> |closedConns| == 0)
  {
  }

  /** After `Close`, every connection given back is closed and uncounted. */
  lemma PutAfterClose(p: Pool, c: Conn)
    requires !p.closed
    ensures var (q, _) := Close(p);
            Put(q, c) == (q.(openConns := q.openConns - 1), Discarded)
  {
  }

  /**
   * The handler never leaves a request unanswered except when a dial fails:
   * a quiet turn with nothing idle and no room to dial turns again.
   */
  lemma ServeAnswersUnlessDialFails(p: Pool, signal: Signal, dial: Dial)
    requires dial.Connected?
    ensures Serve(p, signal, dial).1 != Dropped
    ensures Serve(p, signal, dial).1 == Again <==>
              signal == Quiet && |p.idle| == 0 && !(p.settings.maxOpenConns > 0 && !Saturated(p))
  {
  }
}
