/** First-match method routing, shared by the Java request handler and the
    Go server: the registered services are asked in registration order and the
    first one that knows the method id supplies the handler. */
module Routing {
  import opened Wrappers

  /** A service maps a method id to its handler, or to nothing (null / nil). */
  type Service<!H> = int -> Option<H>

  /** The position of the first service that knows `id`. */
  function FirstMatch<H>(services: seq<Service<H>>, id: int): (r: Option<nat>)
    ensures r.None? <==> forall j :: 0 <= j < |services| ==> services[j](id).None?
    ensures r.Some? ==> r.value < |services| && services[r.value](id).Some?
    ensures r.Some? ==> forall j :: 0 <= j < r.value ==> services[j](id).None?
  {
    if |services| == 0 then None
    else if services[0](id).Some? then Some(0)
    else match FirstMatch(services[1..], id)
      case None => None
      case Some(k) => Some(k + 1)
  }

  /** The handler the first matching service returns. */
  function Lookup<H>(services: seq<Service<H>>, id: int): (r: Option<H>)
    ensures r.None? <==> FirstMatch(services, id).None?
    ensures r.Some? ==> r == services[FirstMatch(services, id).value](id)
  {
    match FirstMatch(services, id)
    case None => None
    case Some(k) => services[k](id)
  }

  /** Registering a service later never changes the route of an id an
      earlier service already knows; it only gives a route to ids that had
      none. */
  lemma {:induction false} LookupAppend<H>(services: seq<Service<H>>, s: Service<H>, id: int)
    ensures Lookup(services + [s], id)
      == if Lookup(services, id).Some? then Lookup(services, id) else s(id)
  {
    var all := services + [s];
    assert forall j :: 0 <= j < |services| ==> all[j] == services[j];
    match FirstMatch(services, id)
    case Some(k) =>
      assert all[k] == services[k];
      assert FirstMatch(all, id) == Some(k);
    case None =>
      assert all[|services|] == s;
      if s(id).Some? {
        assert FirstMatch(all, id) == Some(|services|);
      }
  }
}
