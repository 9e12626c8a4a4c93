/**
 * The memcached text protocol as the client in pkg/memcached/memcached.go
 * speaks it: the three commands it writes, the way it reads and classifies a
 * reply that has no length prefix, and the way it digs the value out of a
 * `get` reply.
 *
 * The server's side (reading a command, printing a `VALUE` reply) is not in
 * the client; it appears here as the reference the client's output and
 * input are checked against.
 */
module Protocol {
  import opened Wrappers
  import opened Text
  import opened Decimal
  import opened Errors

  const ResponseEnd: string := "END\r\n"
  const ResponseStored: string := "STORED\r\n"
  const ResponseNotFound: string := "NOT_FOUND\r\n"
  const ResponseDeleted: string := "DELETED\r\n"
  const ResponseError: string := "ERROR"
  const ResponseClientError: string := "CLIENT_ERROR"
  const ResponseServerError: string := "SERVER_ERROR"
  /** The flags word every `set` carries. */
  const Metadata: int := 0

  // ---------------------------------------------------------------------
  // Commands

  /** A command as the server reads it off the wire. */
  datatype Command =
    | SetCommand(key: string, flags: int, exptime: int, value: string)
    | GetCommand(key: string)
    | DeleteCommand(key: string)

  /** A key the server can read back: no whitespace (which covers CR and LF). */
  predicate IsKey(key: string) {
    forall i | 0 <= i < |key| :: !IsSpace(key[i])
  }

  /**
   * The server's reading of one command: a header line up to the first
   * CRLF, split on single spaces; a `set` is followed by exactly as many
   * bytes as its length field says, and a final CRLF.
   */
  function ParseCommand(wire: string): Option<Command> {
    var i := IndexOf(wire, CRLF);
    if i < 0 then None
    else
      var fields := Split(wire[..i], " ");
      var rest := wire[i + 2..];
      if |fields| == 2 && fields[0] == "get" && rest == "" then
        Some(GetCommand(fields[1]))
      else if |fields| == 2 && fields[0] == "delete" && rest == "" then
        Some(DeleteCommand(fields[1]))
      else if && |fields| == 5 && fields[0] == "set"
              && IsNumeral(fields[2]) && IsSignedNumeral(fields[3]) && IsNumeral(fields[4])
              && ParseNat(fields[4]) + 2 == |rest| && rest[ParseNat(fields[4])..] == CRLF then
        Some(SetCommand(fields[1], ParseNat(fields[2]), ParseInt(fields[3]), rest[..ParseNat(fields[4])]))
      else None
  }

  /**
   * The `set` command: a header of the key, the flags, the ttl in seconds
   * and the value's length, then the value and a CRLF. The value travels
   * verbatim after the header and is framed by its length, so the server
   * reads back exactly the key, flags 0, the ttl and the value.
   */
  function EncodeSet(key: string, value: string, ttl: int): (wire: string)
    ensures HasSuffix(wire, value + CRLF)
    ensures IsKey(key) ==> ParseCommand(wire) == Some(SetCommand(key, Metadata, ttl, value))
  {
    var wire := "set " + key + " " + IntToDec(Metadata) + " " + IntToDec(ttl) + " "
                + IntToDec(|value|) + CRLF + value + CRLF;
    assert wire[|wire| - |value + CRLF|..] == value + CRLF;
    if IsKey(key) then SetRoundTrip(key, value, ttl); wire else wire
  }

  /** The `get` command: the verb, one space, the key, CRLF. */
  function EncodeGet(key: string): (wire: string)
    ensures IsKey(key) ==> ParseCommand(wire) == Some(GetCommand(key))
  {
    var wire := "get " + key + CRLF;
    assert wire == "get" + " " + key + CRLF;
    if IsKey(key) then KeyCommandRoundTrip("get", key); wire else wire
  }

  /** The `delete` command: the verb, one space, the key, CRLF. */
  function EncodeDelete(key: string): (wire: string)
    ensures IsKey(key) ==> ParseCommand(wire) == Some(DeleteCommand(key))
  {
    var wire := "delete " + key + CRLF;
    assert wire == "delete" + " " + key + CRLF;
    if IsKey(key) then KeyCommandRoundTrip("delete", key); wire else wire
  }

  lemma NumeralLacks(s: string, c: char)
    requires IsSignedNumeral(s)
    requires !IsDigit(c) && c != '-'
    ensures Lacks(s, c)
  {
  }

  lemma KeyLacks(key: string)
    requires IsKey(key)
    ensures Lacks(key, ' ') && Lacks(key, '\r')
  {
    forall i | 0 <= i < |key| ensures key[i] != ' ' && key[i] != '\r' {
      assert !IsSpace(key[i]);
    }
  }

  /** The line of a one-word command and a key: the server finds the header, its two fields, and nothing after. */
  lemma KeyLine(verb: string, key: string)
    requires Lacks(verb, ' ') && Lacks(verb, '\r')
    requires IsKey(key)
    ensures var header := verb + " " + key;
            && IndexOf(header + CRLF, CRLF) == |header|
            && (header + CRLF)[..|header|] == header
            && (header + CRLF)[|header| + 2..] == ""
            && Split(header, " ") == [verb, key]
  {
    KeyLacks(key);
    var header := verb + " " + key;
    assert header + CRLF == header + CRLF + "";
    FramedLine(header, "");
    SplitOnSpace(verb, key);
    SplitLast(key, " ");
  }

  /** Reading back `get`/`delete` followed by a key. */
  lemma KeyCommandRoundTrip(verb: string, key: string)
    requires verb == "get" || verb == "delete"
    requires IsKey(key)
    ensures verb == "get" ==> ParseCommand(verb + " " + key + CRLF) == Some(GetCommand(key))
    ensures verb == "delete" ==> ParseCommand(verb + " " + key + CRLF) == Some(DeleteCommand(key))
  {
    KeyLine(verb, key);
  }

  /** A header line without CR, then CRLF: the server finds the header and what follows. */
  lemma FramedLine(header: string, rest: string)
    requires Lacks(header, '\r')
    ensures IndexOf(header + CRLF + rest, CRLF) == |header|
    ensures (header + CRLF + rest)[..|header|] == header
    ensures (header + CRLF + rest)[|header| + 2..] == rest
  {
    IndexAfter(header, CRLF, rest);
  }

  lemma SetHeaderShape(key: string, flags: string, t: string, n: string)
    ensures "set " + key + " " + flags + " " + t + " " + n
            == "set" + " " + (key + " " + (flags + " " + (t + " " + n)))
  {
  }

  /** A word without spaces, a space, and the rest: the word is the first field. */
  lemma SplitOnSpace(a: string, b: string)
    requires Lacks(a, ' ')
    ensures Split(a + " " + b, " ") == [a] + Split(b, " ")
  {
    SplitCons(a, " ", b);
  }

  /** The five space-separated fields of a `set` header. */
  lemma SetHeaderFields(key: string, flags: string, t: string, n: string)
    requires Lacks(key, ' ') && Lacks(flags, ' ') && Lacks(t, ' ') && Lacks(n, ' ')
    ensures Split("set " + key + " " + flags + " " + t + " " + n, " ") == ["set", key, flags, t, n]
  {
    var x3 := t + " " + n;
    var x2 := flags + " " + x3;
    var x1 := key + " " + x2;
    SplitOnSpace(t, n);
    SplitLast(n, " ");
    assert Split(x3, " ") == [t, n];
    SplitOnSpace(flags, x3);
    assert Split(x2, " ") == [flags, t, n];
    SplitOnSpace(key, x2);
    assert Split(x1, " ") == [key, flags, t, n];
    SplitOnSpace("set", x1);
    SetHeaderShape(key, flags, t, n);
  }

  /** How the server reads a well-formed `set`. */
  lemma ParseSet(header: string, key: string, flags: string, t: string, value: string)
    requires Lacks(header, '\r')
    requires IsNumeral(flags) && IsSignedNumeral(t)
    requires Split(header, " ") == ["set", key, flags, t, NatToDec(|value|)]
    ensures ParseCommand(header + CRLF + (value + CRLF))
            == Some(SetCommand(key, ParseNat(flags), ParseInt(t), value))
  {
    var rest := value + CRLF;
    FramedLine(header, rest);
    NatRoundTrip(|value|);
    assert rest[..|value|] == value;
    assert rest[|value|..] == CRLF;
  }

  /** Reading back a `set`: header fields, then exactly the value's bytes. */
  lemma SetRoundTrip(key: string, value: string, ttl: int)
    requires IsKey(key)
    ensures ParseCommand("set " + key + " " + IntToDec(Metadata) + " " + IntToDec(ttl) + " "
                         + IntToDec(|value|) + CRLF + value + CRLF)
            == Some(SetCommand(key, Metadata, ttl, value))
  {
    KeyLacks(key);
    var flags := IntToDec(Metadata);
    var t := IntToDec(ttl);
    var n := IntToDec(|value|);
    assert flags == "0" && ParseNat(flags) == 0;
    assert n == NatToDec(|value|);
    NumeralLacks(t, ' ');
    NumeralLacks(t, '\r');
    NumeralLacks(n, ' ');
    NumeralLacks(n, '\r');
    var header := "set " + key + " " + flags + " " + t + " " + n;
    assert Lacks(header, '\r');
    SetHeaderFields(key, flags, t, n);
    ParseSet(header, key, flags, t, value);
    IntRoundTrip(ttl);
    assert header + CRLF + (value + CRLF)
        == "set " + key + " " + flags + " " + t + " " + n + CRLF + value + CRLF;
  }

  // ---------------------------------------------------------------------
  // Reading a reply

  /** One `conn.Read` call: some bytes, end of stream, or a transport failure. */
  datatype ReadResult = Data(chunk: string) | Eof | Fail(reason: string)

  /** How the client's read loop judges the bytes accumulated so far. */
  datatype Class = ClientFailure | ServerFailure | Complete | Incomplete

  /** The buffer holds one of the four success terminators. */
  predicate Terminated(buf: string) {
    || Contains(buf, ResponseStored) || Contains(buf, ResponseEnd)
    || Contains(buf, ResponseNotFound) || Contains(buf, ResponseDeleted)
  }

  /** Both longer error markers carry `ERROR` inside them. */
  lemma ErrorMarkersContainError(buf: string)
    ensures Contains(buf, ResponseClientError) ==> Contains(buf, ResponseError)
    ensures Contains(buf, ResponseServerError) ==> Contains(buf, ResponseError)
  {
    assert ResponseClientError[7..12] == ResponseError;
    assert ResponseServerError[7..12] == ResponseError;
    if Contains(buf, ResponseClientError) {
      ContainsInner(buf, ResponseClientError, ResponseError, 7);
    }
    if Contains(buf, ResponseServerError) {
      ContainsInner(buf, ResponseServerError, ResponseError, 7);
    }
  }

  /** None of the four terminators holds `ERROR`, and each is complete on its own. */
  lemma TerminatorsComplete()
    ensures Classify(ResponseStored) == Complete
    ensures Classify(ResponseEnd) == Complete
    ensures Classify(ResponseNotFound) == Complete
    ensures Classify(ResponseDeleted) == Complete
  {
    var all := [ResponseStored, ResponseEnd, ResponseNotFound, ResponseDeleted];
    forall t | t in all ensures !Contains(t, ResponseError) && Contains(t, t) {
      assert OccursAt(t, t, 0);
      forall i: nat | i <= |t| ensures !OccursAt(t, ResponseError, i) {
        if i + 5 <= |t| {
          var w := t[i..i + 5];
          assert w[0] != 'E' || w[1] != 'R' || w[2] != 'R' || w[3] != 'O' || w[4] != 'R';
        }
      }
    }
    assert ResponseStored in all && ResponseEnd in all && ResponseNotFound in all && ResponseDeleted in all;
  }

  /**
   * The checks the read loop makes after every read, in its order. Because
   * `CLIENT_ERROR` and `SERVER_ERROR` both contain `ERROR`, the first check
   * catches every error marker and the server-error outcome never happens;
   * an `ERROR` anywhere wins over any terminator.
   */
  function Classify(buf: string): (c: Class)
    ensures c != ServerFailure
    ensures c == ClientFailure <==> Contains(buf, ResponseError)
    ensures c == Complete <==> !Contains(buf, ResponseError) && Terminated(buf)
  {
    ErrorMarkersContainError(buf);
    if Contains(buf, ResponseError) || Contains(buf, ResponseClientError) then ClientFailure
    else if Contains(buf, ResponseServerError) then ServerFailure
    else if Contains(buf, ResponseStored) || Contains(buf, ResponseEnd) then Complete
    else if Contains(buf, ResponseNotFound) || Contains(buf, ResponseDeleted) then Complete
    else Incomplete
  }

  /** What `getResponse` comes to; `Stalled` is a loop still waiting for bytes that never come. */
  datatype Response = Done(buf: string) | Failed(err: Error) | Stalled(buf: string)

  /** How many reads at the front delivered bytes. */
  function LeadingData(rs: seq<ReadResult>): (n: nat)
    ensures n <= |rs|
    ensures forall j | 0 <= j < n :: rs[j].Data?
    ensures n < |rs| ==> !rs[n].Data?
  {
    if |rs| == 0 || !rs[0].Data? then 0 else 1 + LeadingData(rs[1..])
  }

  /** The bytes of the reads at the front that delivered bytes. */
  function DataRun(rs: seq<ReadResult>): string {
    if |rs| == 0 || !rs[0].Data? then "" else rs[0].chunk + DataRun(rs[1..])
  }

  /** The bytes of every read in `rs`, oldest first. */
  function Chunks(rs: seq<ReadResult>): string {
    if |rs| == 0 then ""
    else Chunks(rs[..|rs| - 1]) + (if rs[|rs| - 1].Data? then rs[|rs| - 1].chunk else "")
  }

  /**
   * The read loop of `getResponse`, continuing from the bytes `acc` already
   * gathered. It returns the buffer at end of stream, fails on a transport
   * error or an error marker, returns the buffer as soon as it holds a
   * terminator, and otherwise reads on.
   */
  function ReadFrom(rs: seq<ReadResult>, acc: string): (r: Response)
    ensures r.Done? ==> acc <= r.buf <= acc + DataRun(rs)
    ensures r.Done? ==>
              || Classify(r.buf) == Complete
              || (r.buf == acc + DataRun(rs) && LeadingData(rs) < |rs| && rs[LeadingData(rs)].Eof?)
    ensures r.Done? && r.buf != acc ==> !Contains(r.buf, ResponseError)
    ensures r.Stalled? ==> LeadingData(rs) == |rs| && r.buf == acc + DataRun(rs)
    ensures r.Failed? ==>
              || r.err == Sentinel(McClient)
              || (&& LeadingData(rs) < |rs| && rs[LeadingData(rs)].Fail?
                  && r.err == Wrap(McConnRead, rs[LeadingData(rs)].reason))
    decreases |rs|
  {
    if |rs| == 0 then Stalled(acc)
    else match rs[0]
      case Eof => Done(acc)
      case Fail(reason) => Failed(Wrap(McConnRead, reason))
      case Data(chunk) =>
        var buf := acc + chunk;
        match Classify(buf)
        case ClientFailure => Failed(Sentinel(McClient))
        case ServerFailure => Failed(Sentinel(McServer))
        case Complete =>
          assert buf <= acc + DataRun(rs);
          Done(buf)
        case Incomplete =>
          assert acc + DataRun(rs) == buf + DataRun(rs[1..]);
          ReadFrom(rs[1..], buf)
  }

  /** `getResponse(conn)`: the read loop from an empty buffer. */
  function GetResponse(rs: seq<ReadResult>): (r: Response)
    ensures r.Done? ==> !Contains(r.buf, ResponseError)
    ensures r.Failed? ==> r.err.kind == McClient || r.err.kind == McConnRead
    ensures r.Stalled? ==> forall j | 0 <= j < |rs| :: rs[j].Data?
  {
    var r := ReadFrom(rs, "");
    assert !Contains("", ResponseError);
    r
  }

  /** Reads that leave the buffer incomplete are simply absorbed. */
  lemma {:induction false} ReadFromSkips(rs: seq<ReadResult>, acc: string, k: nat)
    requires k <= |rs|
    requires forall j | 0 <= j < k :: rs[j].Data?
    requires forall j | 1 <= j <= k :: Classify(acc + Chunks(rs[..j])) == Incomplete
    ensures ReadFrom(rs, acc) == ReadFrom(rs[k..], acc + Chunks(rs[..k]))
    decreases k
  {
    if k == 0 {
      assert rs[..0] == [];
      assert acc + "" == acc;
    } else {
      ReadFromSkips(rs, acc, k - 1);
      var before := acc + Chunks(rs[..k - 1]);
      var tail := rs[k - 1..];
      ChunksSnoc(rs, k);
      assert before + rs[k - 1].chunk == acc + Chunks(rs[..k]);
      assert tail[1..] == rs[k..];
      ReadFromStep(tail, before);
    }
  }

  /** The bytes of the first `k` reads are those of the first `k - 1` and then read `k`'s. */
  lemma ChunksSnoc(rs: seq<ReadResult>, k: nat)
    requires 0 < k <= |rs| && rs[k - 1].Data?
    ensures Chunks(rs[..k]) == Chunks(rs[..k - 1]) + rs[k - 1].chunk
  {
    assert rs[..k][..k - 1] == rs[..k - 1];
  }

  /** One read that leaves the buffer incomplete. */
  lemma ReadFromStep(rs: seq<ReadResult>, acc: string)
    requires |rs| > 0 && rs[0].Data?
    requires Classify(acc + rs[0].chunk) == Incomplete
    ensures ReadFrom(rs, acc) == ReadFrom(rs[1..], acc + rs[0].chunk)
  {
  }

  /**
   * `getResponse` is decided by the first read after which the loop stops:
   * given that every earlier read delivered bytes and left the buffer
   * incomplete, read `k` determines the outcome.
   */
  lemma GetResponseDecidedAt(rs: seq<ReadResult>, k: nat)
    requires k < |rs|
    requires forall j | 0 <= j < k :: rs[j].Data?
    requires forall j | 1 <= j <= k :: Classify(Chunks(rs[..j])) == Incomplete
    ensures rs[k].Eof? ==> GetResponse(rs) == Done(Chunks(rs[..k]))
    ensures rs[k].Fail? ==> GetResponse(rs) == Failed(Wrap(McConnRead, rs[k].reason))
    ensures rs[k].Data? && Classify(Chunks(rs[..k + 1])) == Complete
            ==> GetResponse(rs) == Done(Chunks(rs[..k + 1]))
    ensures rs[k].Data? && Classify(Chunks(rs[..k + 1])) == ClientFailure
            ==> GetResponse(rs) == Failed(Sentinel(McClient))
  {
    forall j | 1 <= j <= k ensures Classify("" + Chunks(rs[..j])) == Incomplete {
      assert "" + Chunks(rs[..j]) == Chunks(rs[..j]);
    }
    ReadFromSkips(rs, "", k);
    var acc := "" + Chunks(rs[..k]);
    assert acc == Chunks(rs[..k]);
    var tail := rs[k..];
    assert tail[0] == rs[k];
    if rs[k].Data? {
      assert rs[..k + 1][..k] == rs[..k];
      assert Chunks(rs[..k + 1]) == acc + rs[k].chunk;
    }
  }

  // ---------------------------------------------------------------------
  // Extracting a value

  /**
   * `getData(resp)`: delete every `END\r\n`, split on CRLF, and take the
   * second piece when there are more than two. A hit is a single line; a
   * miss carries the empty string.
   */
  function GetData(resp: string): (r: (string, bool))
    ensures !r.1 ==> r.0 == ""
    ensures r.1 ==> !Contains(r.0, CRLF)
  {
    var pieces := Split(RemoveAll(resp, ResponseEnd), CRLF);
    if |pieces| > 2 then (pieces[1], true) else ("", false)
  }

  /** One differing character rules out an occurrence. */
  lemma Mismatch(s: string, pat: string, i: nat, k: nat)
    requires k < |pat| && i + k < |s| && s[i + k] != pat[k]
    ensures !OccursAt(s, pat, i)
  {
    if i + |pat| <= |s| {
      assert s[i..i + |pat|][k] == s[i + k];
    }
  }

  /** A line without CR that does not end in `END` survives the removal of `END\r\n`. */
  lemma RemoveEndKeepsLine(h: string, rest: string)
    requires Lacks(h, '\r')
    requires !HasSuffix(h, "END")
    ensures RemoveAll(h + CRLF + rest, ResponseEnd) == h + CRLF + RemoveAll(rest, ResponseEnd)
  {
    var s := h + CRLF + rest;
    var line := h + CRLF;
    assert s == line + rest;
    assert s[|h|] == '\r' && s[|h| + 1] == '\n';
    forall i: nat | i < |line|
      ensures !OccursAt(s, ResponseEnd, i)
    {
      if i + 3 < |h| {
        assert s[i + 3] == h[i + 3];
        Mismatch(s, ResponseEnd, i, 3);
      } else if i + 3 == |h| {
        if i + 5 <= |s| {
          assert h[|h| - 3..] == s[i..i + 3];
          assert s[i..i + 5][..3] == s[i..i + 3];
        }
      } else if i + 2 == |h| {
        Mismatch(s, ResponseEnd, i, 3);
      } else if i + 1 == |h| {
        Mismatch(s, ResponseEnd, i, 1);
      } else {
        Mismatch(s, ResponseEnd, i, 0);
      }
    }
    RemoveAllSkip(line, rest, ResponseEnd);
  }

  /** A line without CR in front of `END\r\n` keeps only itself. */
  lemma RemoveEndAfterWord(w: string, rest: string)
    requires Lacks(w, '\r')
    ensures RemoveAll(w + ResponseEnd + rest, ResponseEnd) == w + RemoveAll(rest, ResponseEnd)
  {
    var s := w + ResponseEnd + rest;
    var tail := ResponseEnd + rest;
    assert s == w + tail;
    forall i: nat | i < |w|
      ensures !OccursAt(s, ResponseEnd, i)
    {
      if i + 3 < |w| {
        assert s[i + 3] == w[i + 3];
      } else {
        assert s[i + 3] == ResponseEnd[i + 3 - |w|];
      }
      Mismatch(s, ResponseEnd, i, 3);
    }
    RemoveAllSkip(w, tail, ResponseEnd);
    assert tail[..5] == ResponseEnd;
    assert tail[5..] == rest;
  }

  /**
   * A reply of a header line, a value line and `END` gives the value back,
   * provided neither line holds a CR or ends in `END`.
   */
  lemma GetDataHit(h: string, v: string)
    requires Lacks(h, '\r') && !HasSuffix(h, "END")
    requires Lacks(v, '\r') && !HasSuffix(v, "END")
    ensures GetData(h + CRLF + v + CRLF + ResponseEnd) == (v, true)
  {
    var cleaned := h + CRLF + (v + CRLF + "");
    RemoveEndHit(h, v);
    SplitHit(h, v);
  }

  lemma RemoveEndHit(h: string, v: string)
    requires Lacks(h, '\r') && !HasSuffix(h, "END")
    requires Lacks(v, '\r') && !HasSuffix(v, "END")
    ensures RemoveAll(h + CRLF + v + CRLF + ResponseEnd, ResponseEnd) == h + CRLF + (v + CRLF + "")
  {
    var resp := h + CRLF + v + CRLF + ResponseEnd;
    assert resp == h + CRLF + (v + CRLF + ResponseEnd);
    RemoveEndKeepsLine(h, v + CRLF + ResponseEnd);
    RemoveEndKeepsLine(v, ResponseEnd);
    RemoveEndAlone();
  }

  lemma SplitHit(h: string, v: string)
    requires Lacks(h, '\r') && Lacks(v, '\r')
    ensures Split(h + CRLF + (v + CRLF + ""), CRLF) == [h, v, ""]
  {
    SplitCons(h, CRLF, v + CRLF + "");
    SplitCons(v, CRLF, "");
    assert Split("", CRLF) == [""];
  }

  /** `END\r\n` alone is removed entirely. */
  lemma RemoveEndAlone()
    ensures RemoveAll(ResponseEnd, ResponseEnd) == ""
  {
  }

  /**
   * A value ending in `END` loses the ending together with the terminator,
   * and the reply reads as a miss.
   */
  lemma GetDataDropsEnd(h: string, w: string)
    requires Lacks(h, '\r') && !HasSuffix(h, "END")
    requires Lacks(w, '\r')
    ensures GetData(h + CRLF + (w + "END") + CRLF + ResponseEnd) == ("", false)
  {
    RemoveEndDrops(h, w);
    SplitCons(h, CRLF, w);
    SplitLast(w, CRLF);
  }

  lemma RemoveEndDrops(h: string, w: string)
    requires Lacks(h, '\r') && !HasSuffix(h, "END")
    requires Lacks(w, '\r')
    ensures RemoveAll(h + CRLF + (w + "END") + CRLF + ResponseEnd, ResponseEnd) == h + CRLF + w
  {
    var resp := h + CRLF + (w + "END") + CRLF + ResponseEnd;
    assert resp == h + CRLF + (w + ResponseEnd + ResponseEnd);
    RemoveEndKeepsLine(h, w + ResponseEnd + ResponseEnd);
    RemoveEndAfterWord(w, ResponseEnd);
    RemoveEndAlone();
  }

  /** The server's reply to `get` when the key is stored. */
  function ValueReply(key: string, flags: nat, value: string): string {
    "VALUE " + key + " " + NatToDec(flags) + " " + NatToDec(|value|) + CRLF + value + CRLF + ResponseEnd
  }

  /** The value line of a hit comes back intact when it has no CR and does not end in `END`. */
  lemma GetDataRoundTrip(key: string, flags: nat, value: string)
    requires Lacks(key, '\r')
    requires Lacks(value, '\r') && !HasSuffix(value, "END")
    ensures GetData(ValueReply(key, flags, value)) == (value, true)
  {
    var h := "VALUE " + key + " " + NatToDec(flags) + " " + NatToDec(|value|);
    NumeralLacks(NatToDec(flags), '\r');
    NumeralLacks(NatToDec(|value|), '\r');
    assert Lacks(h, '\r');
    var n := NatToDec(|value|);
    assert h[|h| - 1] == n[|n| - 1];
    assert !HasSuffix(h, "END");
    GetDataHit(h, value);
  }

  /** A stored value ending in `END` reads back as a miss. */
  lemma GetDataLosesEndValue(key: string, flags: nat, w: string)
    requires Lacks(key, '\r') && Lacks(w, '\r')
    ensures GetData(ValueReply(key, flags, w + "END")) == ("", false)
  {
    var value := w + "END";
    var h := "VALUE " + key + " " + NatToDec(flags) + " " + NatToDec(|value|);
    NumeralLacks(NatToDec(flags), '\r');
    NumeralLacks(NatToDec(|value|), '\r');
    assert Lacks(h, '\r');
    var n := NatToDec(|value|);
    assert h[|h| - 1] == n[|n| - 1];
    assert !HasSuffix(h, "END");
    GetDataDropsEnd(h, w);
  }

  /** The reply to a `get` of a missing key reads as a miss. */
  lemma GetDataMiss()
    ensures GetData(ResponseEnd) == ("", false)
  {
    assert ResponseEnd[..5] == ResponseEnd;
    assert RemoveAll(ResponseEnd, ResponseEnd) == RemoveAll("", ResponseEnd) == "";
    assert Split("", CRLF) == [""];
  }
}
