/** The Go server: services registered in order, a linear scan for the
    method handle, and the per-connection loop that answers each request with
    status 200 until a receive fails, a method id is unknown or a handler
    returns an error. */
module GoServer {
  import opened Wire
  import opened Wrappers
  import opened FrameHeader
  import opened Routing

  /** `RawHandle`: the response bytes, or the handler's error. */
  type RawHandle = Bytes -> Result<Bytes, string>
  type GoService = Service<RawHandle>

  /** One incoming request, as `ReceivePayload` returns it. */
  datatype Request = Request(header: Header, body: Bytes)

  /** One `WritePayload(writer, session, resp, 200)` call. */
  datatype Reply = Reply(session: u16, body: Bytes, status: int)

  /** Why `HandleConnection` returns. `ReceiveFailed` is the error of the
      `ReceivePayload` that follows the last request (`io.EOF` when the peer
      closed the connection). */
  datatype ConnectionEnd =
    | ReceiveFailed
    | MethodNotFound(id: int)
    | HandlerFailed(err: string)

  /** The replies written for `requests` and the error the loop returns. */
  function Serve(services: seq<GoService>, requests: seq<Request>): (r: (seq<Reply>, ConnectionEnd))
    ensures |r.0| <= |requests|
    ensures r.1 == ReceiveFailed <==> |r.0| == |requests|
  {
    if |requests| == 0 then ([], ReceiveFailed)
    else
      var req := requests[0];
      match Lookup(services, req.header.meta)
      case None => ([], MethodNotFound(req.header.meta))
      case Some(handle) =>
        match handle(req.body)
        case Err(e) => ([], HandlerFailed(e))
        case Ok(resp) =>
          var (rest, end) := Serve(services, requests[1..]);
          ([Reply(req.header.session, resp, 200)] + rest, end)
  }

  /** The replies answer a prefix of the requests one for one, each with the
      request's session, status 200 and the routed handler's response; the
      request after that prefix, if any, is the one that ended the loop:
      its method id is unknown or its handler failed. */
  lemma {:induction false} ServeReplies(services: seq<GoService>, requests: seq<Request>)
    ensures var (replies, end) := Serve(services, requests);
      && |replies| <= |requests|
      && (forall i :: 0 <= i < |replies| ==>
            var h := Lookup(services, requests[i].header.meta);
            h.Some? && h.value(requests[i].body) == Ok(replies[i].body)
            && replies[i].session == requests[i].header.session && replies[i].status == 200)
      && (end == ReceiveFailed <==> |replies| == |requests|)
      && (end.MethodNotFound? ==>
            end.id == requests[|replies|].header.meta
            && Lookup(services, requests[|replies|].header.meta).None?)
      && (end.HandlerFailed? ==>
            var h := Lookup(services, requests[|replies|].header.meta);
            h.Some? && h.value(requests[|replies|].body) == Err(end.err))
  {
    if |requests| > 0 {
      ServeReplies(services, requests[1..]);
      var (rest, end) := Serve(services, requests[1..]);
      assert forall i :: 1 <= i < |requests| ==> requests[i] == requests[1..][i - 1];
    }
  }

  class Server {
    var services: seq<GoService>

    constructor ()
      ensures services == []
    {
      services := [];
    }

    method RegisterService(service: GoService)
      modifies this
      ensures services == old(services) + [service]
    {
      services := services + [service];
    }

    /** `MethodHandle`: the first non-nil handle in registration order, nil
        when no service knows the id. */
    method MethodHandle(id: u32) returns (handle: Option<RawHandle>)
      ensures handle == Lookup(services, id)
    {
      var i := 0;
      while i < |services|
        invariant 0 <= i <= |services|
        invariant forall j :: 0 <= j < i ==> services[j](id).None?
      {
        handle := services[i](id);
        if handle.Some? {
          assert FirstMatch(services, id) == Some(i);
          return;
        }
        i := i + 1;
      }
      handle := None;
    }

    /** `HandleConnection` over the requests the connection delivers; write
        and flush errors of the buffered writer are not modelled. */
    method HandleConnection(requests: seq<Request>) returns (replies: seq<Reply>, end: ConnectionEnd)
      ensures (replies, end) == Serve(services, requests)
    {
      replies := [];
      var i := 0;
      assert requests[i..] == requests;
      assert replies + Serve(services, requests).0 == Serve(services, requests).0;
      while true
        invariant 0 <= i <= |requests|
        invariant var (rest, last) := Serve(services, requests[i..]);
          Serve(services, requests) == (replies + rest, last)
        decreases |requests| - i
      {
        if i == |requests| {
          assert replies + [] == replies;
          return replies, ReceiveFailed;
        }
        var req := requests[i];
        assert requests[i..][1..] == requests[i + 1..];
        var handle := MethodHandle(req.header.meta);
        if handle.None? {
          assert replies + [] == replies;
          return replies, MethodNotFound(req.header.meta);
        }
        var resp := handle.value(req.body);
        if resp.Err? {
          assert replies + [] == replies;
          return replies, HandlerFailed(resp.error);
        }
        ghost var rest := Serve(services, requests[i + 1..]).0;
        assert replies + ([Reply(req.header.session, resp.value, 200)] + rest)
            == (replies + [Reply(req.header.session, resp.value, 200)]) + rest;
        replies := replies + [Reply(req.header.session, resp.value, 200)];
        i := i + 1;
      }
    }
  }
}
