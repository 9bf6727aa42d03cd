/** The C++ client's slot table: every request gets the next 16-bit session
    id and a work item whose promise the read loop fulfils when the response
    with that session arrives. Any protocol error on the read side poisons the
    connection and fails every outstanding slot. */
module RpcClient {
  import opened Wire
  import opened Wrappers
  import opened FrameHeader
  import opened RpcConnection
  import opened RecvContext

  const ErrBadHeader: string := "Could not parse header from server"
  const ErrBadPayload: string := "Could not parse response from server. Bad payload"
  const ErrInvalidSession: string := "Invalid session"

  datatype PromiseState =
    | Waiting
    | Fulfilled(ctx: RecvCtx)
    | RemoteConnectionError

  class WorkItem {
    const session: u16
    var promise: PromiseState

    constructor (idx: u16)
      ensures session == idx && promise == Waiting
    {
      session := idx;
      promise := Waiting;
    }
  }

  /** The outgoing message: a header and its body. */
  datatype Envelope = Envelope(header: Header, body: Bytes)

  datatype ClientError =
    | InvalidConnectionState
    | SlotAlreadyAllocated     // debug-build check in raw_send
    | InvalidCounter           // debug-build check in process_one_request
    | Parser(err: ParseError)
    | DifferentCompression(flag: u8)

  /** The check applied once the incoming filters have run: a body still
      compressed means the two ends disagree on compression. */
  function CheckResponseCompression(ctx: RecvCtx): (r: Result<RecvCtx, ClientError>)
    ensures r.Ok? <==> ctx.header.compression == CompressionNone
    ensures r.Ok? ==> r.value == ctx
  {
    if ctx.header.compression != CompressionNone then Err(DifferentCompression(ctx.header.compression))
    else Ok(ctx)
  }

  class Client {
    var conn: Connection?
    var sessionIdx: u16
    /** `read_counter_`: requests sent and not yet answered. */
    var readCounter: nat
    var rpcSlots: map<u16, WorkItem>

    /** Each slot holds its own waiting work item, filed under its session,
        and the read counter covers every slot. */
    ghost predicate Valid()
      reads this, rpcSlots.Values
    {
      && (forall s :: s in rpcSlots ==> rpcSlots[s].session == s && rpcSlots[s].promise.Waiting?)
      && readCounter >= |rpcSlots|
    }

    function IsConnValid(): (r: bool)
      reads this, conn
      ensures r <==> conn != null && conn.IsValid()
    {
      conn != null && conn.IsValid()
    }

    constructor ()
      ensures Valid() && conn == null && sessionIdx == 0 && readCounter == 0 && rpcSlots == map[]
    {
      conn, sessionIdx, readCounter, rpcSlots := null, 0, 0, map[];
    }

    /** `raw_send` up to the hand-off to the outgoing filters: the envelope
        to write, stamped with the new session, and the slot's work item. */
    method RawSend(e: Envelope) returns (r: Result<(Envelope, WorkItem), ClientError>)
      requires Valid()
      modifies this`sessionIdx, this`readCounter, this`rpcSlots
      ensures Valid() && conn == old(conn)
      ensures r.Err? <==> !IsConnValid() || (old(sessionIdx) + 1) % 0x1_0000 in old(rpcSlots)
      ensures !IsConnValid() ==>
        && r == Err(InvalidConnectionState)
        && sessionIdx == old(sessionIdx) && readCounter == old(readCounter) && rpcSlots == old(rpcSlots)
      ensures IsConnValid() ==> sessionIdx == (old(sessionIdx) + 1) % 0x1_0000 && readCounter == old(readCounter) + 1
      ensures IsConnValid() && sessionIdx in old(rpcSlots) ==> r == Err(SlotAlreadyAllocated) && rpcSlots == old(rpcSlots)
      ensures r.Ok? ==>
        var (stamped, work) := r.value;
        && fresh(work) && work.session == sessionIdx && work.promise == Waiting
        && rpcSlots == old(rpcSlots)[sessionIdx := work]
        && stamped == Envelope(e.header.(session := sessionIdx), e.body)
    {
      if !IsConnValid() {
        return Err(InvalidConnectionState);
      }
      sessionIdx := (sessionIdx + 1) % 0x1_0000;
      readCounter := readCounter + 1;
      if sessionIdx in rpcSlots {
        return Err(SlotAlreadyAllocated);
      }
      var work := new WorkItem(sessionIdx);
      rpcSlots := rpcSlots[sessionIdx := work];
      r := Ok((Envelope(e.header.(session := sessionIdx), e.body), work));
    }

    /** `fail_outstanding_futures`: disables a still-valid connection, then
        fails and erases every slot, in the map's own order. */
    method FailOutstandingFutures()
      requires Valid()
      modifies conn, rpcSlots.Values, this`rpcSlots
      ensures Valid() && rpcSlots == map[]
      ensures conn == old(conn) && readCounter == old(readCounter) && sessionIdx == old(sessionIdx)
      ensures conn != null ==>
        && conn.enabled == (old(conn.enabled) && !old(IsConnValid()))
        && conn.error == old(conn.error) && conn.eof == old(conn.eof)
        && conn.istreamActiveParser == old(conn.istreamActiveParser)
      ensures forall s :: s in old(rpcSlots) ==> old(rpcSlots)[s].promise == RemoteConnectionError
    {
      if IsConnValid() {
        conn.Disable();
      }
      FailSlots();
    }

    /** The loop of `fail_outstanding_futures`: each slot's promise fails
        and the slot is erased, until none is left. */
    method FailSlots()
      requires forall s :: s in rpcSlots ==> rpcSlots[s].session == s
      modifies rpcSlots.Values, this`rpcSlots
      ensures rpcSlots == map[]
      ensures forall s :: s in old(rpcSlots) ==> old(rpcSlots)[s].promise == RemoteConnectionError
    {
      while rpcSlots != map[]
        invariant rpcSlots.Keys <= old(rpcSlots).Keys
        invariant forall s :: s in rpcSlots ==> rpcSlots[s] == old(rpcSlots)[s]
        invariant forall s :: s in old(rpcSlots) && s !in rpcSlots ==> old(rpcSlots)[s].promise == RemoteConnectionError
        decreases |rpcSlots|
      {
        var session := AnyKey(rpcSlots);
        var promisePtr := rpcSlots[session];
        promisePtr.promise := RemoteConnectionError;
        rpcSlots := rpcSlots - {session};
      }
    }

    /** The error branch of `process_one_request`: `set_error`, then
        `fail_outstanding_futures`. The error is set first, so the connection
        is no longer valid and is not disabled. */
    method FailWith(e: string)
      requires Valid() && conn != null
      modifies conn, rpcSlots.Values, this`rpcSlots
      ensures Valid() && rpcSlots == map[] && conn == old(conn)
      ensures readCounter == old(readCounter) && sessionIdx == old(sessionIdx)
      ensures conn.error == Some(JoinError(old(conn.error), e))
      ensures conn.enabled == old(conn.enabled) && conn.eof == old(conn.eof)
      ensures conn.istreamActiveParser == old(conn.istreamActiveParser)
      ensures forall s :: s in old(rpcSlots) ==> old(rpcSlots)[s].promise == RemoteConnectionError
    {
      conn.SetError(e);
      FailOutstandingFutures();
    }

    /** `process_one_request` past the header and the counter check: the
        payload is parsed and handed to the slot of its session. */
    method Deliver(xx: XxHash64, hdr: Header, bodyRead: Bytes) returns (r: Result<(), ClientError>)
      requires Valid() && conn != null && readCounter > 0
      modifies conn, rpcSlots.Values, this`rpcSlots, this`readCounter
      ensures Valid() && conn == old(conn) && sessionIdx == old(sessionIdx) && r == Ok(())
      ensures conn.enabled == old(conn.enabled) && conn.eof == old(conn.eof)
      ensures conn.istreamActiveParser == old(conn.istreamActiveParser)
      ensures var payload := ParsePayload(xx, hdr, bodyRead);
        && (payload.None? ==> conn.error == Some(JoinError(old(conn.error), ErrBadPayload)) && rpcSlots == map[])
        && (payload.Some? && payload.value.Session() !in old(rpcSlots) ==>
              conn.error == Some(JoinError(old(conn.error), ErrInvalidSession)) && rpcSlots == map[])
        && (payload.Some? && payload.value.Session() in old(rpcSlots) ==>
              var s := payload.value.Session();
              && rpcSlots == old(rpcSlots) - {s} && readCounter == old(readCounter) - 1
              && old(rpcSlots)[s].promise == Fulfilled(payload.value)
              && conn.error == old(conn.error))
      ensures conn.error != old(conn.error) ==>
        forall s :: s in old(rpcSlots) ==> old(rpcSlots)[s].promise == RemoteConnectionError
    {
      var opt := ParsePayload(xx, hdr, bodyRead);
      if opt.None? {
        FailWith(ErrBadPayload);
        return Ok(());
      }
      var sess := opt.value.Session();
      if sess !in rpcSlots {
        FailWith(ErrInvalidSession);
        return Ok(());
      }
      readCounter := readCounter - 1;
      var it := rpcSlots[sess];
      it.promise := Fulfilled(opt.value);
      rpcSlots := rpcSlots - {sess};
      r := Ok(());
    }

    /** `process_one_request` on the bytes the two `read_exactly` calls
        returned: the header read, then the body read. */
    method ProcessOneRequest(xx: XxHash64, headerRead: Bytes, bodyRead: Bytes) returns (r: Result<(), ClientError>)
      requires Valid() && conn != null
      modifies conn, rpcSlots.Values, this`rpcSlots, this`readCounter
      ensures Valid() && conn == old(conn) && sessionIdx == old(sessionIdx)
      ensures conn.istreamActiveParser == old(conn.istreamActiveParser)
      ensures conn.enabled == old(conn.enabled) && conn.eof == old(conn.eof)
      ensures old(conn.istreamActiveParser) != 0 ==>
        r == Err(Parser(InterleavedRead)) && rpcSlots == old(rpcSlots) && conn.error == old(conn.error)
      ensures old(conn.istreamActiveParser) == 0 && ParseHeaderBytes(headerRead).None? ==>
        r == Ok(()) && conn.error == Some(JoinError(old(conn.error), ErrBadHeader)) && rpcSlots == map[]
      ensures old(conn.istreamActiveParser) == 0 && ParseHeaderBytes(headerRead).Some? && old(readCounter) == 0 ==>
        r == Err(InvalidCounter) && rpcSlots == old(rpcSlots) && conn.error == old(conn.error)
      ensures old(conn.istreamActiveParser) == 0 && ParseHeaderBytes(headerRead).Some? && old(readCounter) > 0 ==>
        var payload := ParsePayload(xx, ParseHeaderBytes(headerRead).value, bodyRead);
        && r == Ok(())
        && (payload.None? ==> conn.error == Some(JoinError(old(conn.error), ErrBadPayload)) && rpcSlots == map[])
        && (payload.Some? && payload.value.Session() !in old(rpcSlots) ==>
              conn.error == Some(JoinError(old(conn.error), ErrInvalidSession)) && rpcSlots == map[])
        && (payload.Some? && payload.value.Session() in old(rpcSlots) ==>
              var s := payload.value.Session();
              && rpcSlots == old(rpcSlots) - {s} && readCounter == old(readCounter) - 1
              && old(rpcSlots)[s].promise == Fulfilled(payload.value)
              && conn.error == old(conn.error))
      ensures conn.error != old(conn.error) ==>
        forall s :: s in old(rpcSlots) ==> old(rpcSlots)[s].promise == RemoteConnectionError
    {
      var parsed := ParseHeader(conn, headerRead);
      if parsed.Err? {
        return Err(Parser(parsed.error));
      }
      var hdr := parsed.value;
      if hdr.None? {
        FailWith(ErrBadHeader);
        return Ok(());
      }
      if readCounter <= 0 {
        return Err(InvalidCounter);
      }
      r := Deliver(xx, hdr.value, bodyRead);
    }
  }

  /** Some key of a non-empty map: `rpc_slots_.begin()` of an unordered map. */
  method AnyKey<V>(m: map<u16, V>) returns (k: u16)
    requires m != map[]
    ensures k in m
  {
    EmptyOrKey(m);
    k :| k in m;
  }

  lemma EmptyOrKey<V>(m: map<u16, V>)
    ensures m == map[] || exists k :: k in m
  {
    if forall k :: k !in m {
      assert m == map[];
    }
  }
}
