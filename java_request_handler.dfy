/** The Java server's `RequestHandler`: finds the first registered service
    with a handler for the request's method id, applies it to the request body
    and answers with a response that reuses the request header unchanged. */
module JavaRequestHandler {
  import opened Wire
  import opened Wrappers
  import opened FrameHeader
  import opened Routing
  import opened JavaBuffers
  import E = JavaEncoders

  /** `Function<byte[], byte[]>`. */
  type Handler = Bytes -> Bytes
  type RpcService = Service<Handler>

  /** `Optional.get()` on an empty optional. */
  datatype RouteError = NoSuchElement

  /** What `channelRead0` hands to `writeAndFlush`, or the exception it
      throws when no service knows the method id (nothing is written then). */
  function Route(services: seq<RpcService>, header: Header, body: Bytes): (r: Result<E.RpcResponse, RouteError>)
    ensures r.Err? <==> forall j :: 0 <= j < |services| ==> services[j](header.meta).None?
    ensures r.Ok? ==> r.value.header == header
    ensures r.Ok? ==>
      exists k :: (0 <= k < |services| && services[k](header.meta).Some?
                   && (forall j :: 0 <= j < k ==> services[j](header.meta).None?)
                   && r.value.body == services[k](header.meta).value(body))
  {
    match Lookup(services, header.meta)
    case None => Err(NoSuchElement)
    case Some(handler) => Ok(E.RpcResponse(header, handler(body)))
  }

  class RequestHandler {
    /** `serviceIdToFunctionHandler`, in registration order. */
    var services: seq<RpcService>

    constructor ()
      ensures services == []
    {
      services := [];
    }

    method RegisterStorageService(rpcService: RpcService)
      modifies this
      ensures services == old(services) + [rpcService]
    {
      services := services + [rpcService];
    }

    /** `channelRead0`: the request body is a `ByteBuffer` that is drained
        to get the handler's argument. */
    method ChannelRead0(header: Header, body: NioBuffer) returns (r: Result<E.RpcResponse, RouteError>)
      requires body.Valid()
      modifies body`position
      ensures body.Valid()
      ensures r == Route(services, header, old(body.Remaining()))
      ensures r.Err? ==> body.position == old(body.position)
      ensures r.Ok? ==> body.position == body.limit
    {
      var requestHandler := Lookup(services, header.meta);
      if requestHandler.None? {
        return Err(NoSuchElement);
      }
      var bytes := body.Drain();
      r := Ok(E.RpcResponse(header, requestHandler.value(bytes)));
    }
  }
}
