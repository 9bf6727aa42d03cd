/** The Java pending-call tables: a map from session id to the future the
    caller waits on. A response removes its session's entry, completes that
    future and releases the id, whether or not an entry was found. */
module Dispatchers {
  import opened Wire
  import opened FrameHeader
  import opened SessionIds
  import D = JavaDecoders

  datatype Cause =
    | InvalidChecksum(computed: u32, received: u32)
    | ClosedRpcRequest(reason: string)

  datatype FutureState = Pending | Completed(value: Bytes) | Failed(cause: Cause)

  /** `CompletableFuture`: completes at most once; later completions are
      ignored. */
  class ResultFuture {
    var state: FutureState

    constructor ()
      ensures state == Pending
    {
      state := Pending;
    }

    method Complete(value: Bytes) returns (changed: bool)
      modifies this
      ensures changed == old(state).Pending?
      ensures state == if changed then Completed(value) else old(state)
    {
      changed := state.Pending?;
      if changed { state := Completed(value); }
    }

    method CompleteExceptionally(cause: Cause) returns (changed: bool)
      modifies this
      ensures changed == old(state).Pending?
      ensures state == if changed then Failed(cause) else old(state)
    {
      changed := state.Pending?;
      if changed { state := Failed(cause); }
    }
  }

  /** The state a future is left in by `completeExceptionally(cause)`. */
  function FailedWith(s: FutureState, cause: Cause): (r: FutureState)
    ensures s.Pending? ==> r == Failed(cause)
    ensures !s.Pending? ==> r == s
  {
    if s.Pending? then Failed(cause) else s
  }

  /** Completing twice changes nothing the first time did not: the reason
      `forceCloseOnAwaitingRequests` may meet one future under two ids. */
  lemma FailedWithIdempotent(s: FutureState, c: Cause, d: Cause)
    ensures FailedWith(FailedWith(s, c), d) == FailedWith(s, c)
  {
  }

  /** What the client dispatcher does to the future it found for `msg`. */
  function Resolved(s: FutureState, msg: D.Decoded): FutureState
  {
    match msg
    case InvalidRpcResponse(h, computed) => FailedWith(s, InvalidChecksum(computed, h.checksum))
    case RpcResponse(_, body) => if s.Pending? then Completed(body) else s
    case RpcRequest(_, body) => if s.Pending? then Completed(body) else s
  }

  /** Some element of a non-empty set: a hash map's `forEach` visits
      entries in an order the model leaves open. */
  method PickAny<T>(s: set<T>) returns (k: T)
    requires s != {}
    ensures k in s
  {
    EmptyOrElement(s);
    k :| k in s;
  }

  lemma EmptyOrElement<T>(s: set<T>)
    ensures s == {} || exists x :: x in s
  {
    if forall x :: x !in s {
      assert s == {};
    }
  }

  /** smf.client.core.Dispatcher. */
  class ClientDispatcher {
    var pendingRpcCalls: map<int, ResultFuture>
    const sessionIdGenerator: SessionIdGenerator

    constructor (generator: SessionIdGenerator)
      ensures pendingRpcCalls == map[] && sessionIdGenerator == generator
    {
      pendingRpcCalls := map[];
      sessionIdGenerator := generator;
    }

    /** `channelRead0` for a message of the client's response decoder. */
    method ChannelRead0(msg: D.Decoded)
      modifies this, sessionIdGenerator, pendingRpcCalls.Values
      ensures var session := msg.header.session;
        && pendingRpcCalls == old(pendingRpcCalls) - {session}
        && sessionIdGenerator.pendingSessions == old(sessionIdGenerator.pendingSessions) - {session}
        && sessionIdGenerator.sessionIdGen == old(sessionIdGenerator.sessionIdGen)
        && (session in old(pendingRpcCalls) ==>
              var f := old(pendingRpcCalls)[session];
              f.state == Resolved(old(f.state), msg)
              && forall g :: g in old(pendingRpcCalls).Values && g != f ==> g.state == old(g.state))
        && (session !in old(pendingRpcCalls) ==>
              forall g :: g in old(pendingRpcCalls).Values ==> g.state == old(g.state))
    {
      var session := msg.header.session;
      if session in pendingRpcCalls {
        var resultFuture := pendingRpcCalls[session];
        pendingRpcCalls := pendingRpcCalls - {session};
        var changed;
        if msg.InvalidRpcResponse? {
          changed := resultFuture.CompleteExceptionally(InvalidChecksum(msg.computed, msg.header.checksum));
        } else {
          changed := resultFuture.Complete(msg.body);
        }
      }
      sessionIdGenerator.Release(session);
    }

    /** `forceCloseOnAwaitingRequests`: every future still in the table is
        failed with a closed-request cause; the table keeps its entries. */
    method ForceCloseOnAwaitingRequests(reason: string)
      modifies pendingRpcCalls.Values
      ensures forall f :: f in pendingRpcCalls.Values ==>
        f.state == FailedWith(old(f.state), ClosedRpcRequest(reason))
    {
      // Completing a future once per entry or once per distinct future is
      // the same (FailedWithIdempotent), so the loop visits distinct futures.
      var remaining := pendingRpcCalls.Values;
      while remaining != {}
        invariant remaining <= pendingRpcCalls.Values
        invariant forall f :: f in remaining ==> f.state == old(f.state)
        invariant forall f :: f in pendingRpcCalls.Values - remaining ==>
          f.state == FailedWith(old(f.state), ClosedRpcRequest(reason))
        decreases remaining
      {
        var f := PickAny(remaining);
        var changed := f.CompleteExceptionally(ClosedRpcRequest(reason));
        remaining := remaining - {f};
      }
    }

    /** `assignCallback`: a map `put`, replacing any entry for the id. */
    method AssignCallback(sessionId: int, resultFuture: ResultFuture)
      modifies this`pendingRpcCalls
      ensures pendingRpcCalls == old(pendingRpcCalls)[sessionId := resultFuture]
    {
      pendingRpcCalls := pendingRpcCalls[sessionId := resultFuture];
    }
  }

  /** smf.core.Dispatcher, the older variant: no checksum outcome, the body
      is always delivered. */
  class CoreDispatcher {
    var pendingRpcCalls: map<int, ResultFuture>
    const sessionIdGenerator: SessionIdGenerator

    constructor (generator: SessionIdGenerator)
      ensures pendingRpcCalls == map[] && sessionIdGenerator == generator
    {
      pendingRpcCalls := map[];
      sessionIdGenerator := generator;
    }

    method ChannelRead0(header: Header, responseBody: Bytes)
      modifies this, sessionIdGenerator, pendingRpcCalls.Values
      ensures var session := header.session;
        && pendingRpcCalls == old(pendingRpcCalls) - {session}
        && sessionIdGenerator.pendingSessions == old(sessionIdGenerator.pendingSessions) - {session}
        && sessionIdGenerator.sessionIdGen == old(sessionIdGenerator.sessionIdGen)
        && (session in old(pendingRpcCalls) ==>
              var f := old(pendingRpcCalls)[session];
              f.state == (if old(f.state).Pending? then Completed(responseBody) else old(f.state))
              && forall g :: g in old(pendingRpcCalls).Values && g != f ==> g.state == old(g.state))
        && (session !in old(pendingRpcCalls) ==>
              forall g :: g in old(pendingRpcCalls).Values ==> g.state == old(g.state))
    {
      var session := header.session;
      if session in pendingRpcCalls {
        var resultFuture := pendingRpcCalls[session];
        pendingRpcCalls := pendingRpcCalls - {session};
        var changed := resultFuture.Complete(responseBody);
      }
      sessionIdGenerator.Release(session);
    }

    method AssignCallback(sessionId: int, resultFuture: ResultFuture)
      modifies this`pendingRpcCalls
      ensures pendingRpcCalls == old(pendingRpcCalls)[sessionId := resultFuture]
    {
      pendingRpcCalls := pendingRpcCalls[sessionId := resultFuture];
    }
  }
}
