/** `handle_request` of the RPC server: which requests of a batch are answered, and in what order. */
module Batch {
  import opened Wrappers

  datatype Request<Id, Params> = Request(id: Option<Id>, name: string, params: Params)

  datatype Response<Id, Payload> = Response(id: Option<Id>, payload: Payload)

  datatype Incoming<Id, Params> = Single(request: Request<Id, Params>) | Many(requests: seq<Request<Id, Params>>)

  datatype Outgoing<Id, Payload> =
    | Empty
    | One(response: Response<Id, Payload>)
    | List(responses: seq<Response<Id, Payload>>)

  /** `gen::handle`: the method's own result with the request's id copied onto it. */
  function Handle<Id, Params, Payload>(request: Request<Id, Params>, payload: Payload): Response<Id, Payload> {
    Response(request.id, payload)
  }

  /** The positions of the requests that carry an id. */
  function Calls<Id, Params>(requests: seq<Request<Id, Params>>): (positions: seq<nat>)
    ensures forall k :: 0 <= k < |positions| ==> positions[k] < |requests|
  {
    if requests == [] then []
    else
      var last := |requests| - 1;
      Calls(requests[..last]) + (if requests[last].id.Some? then [last] else [])
  }

  /** `Calls` lists every position with an id, once and in order, and no notification. */
  lemma {:induction false} CallsExact<Id, Params>(requests: seq<Request<Id, Params>>)
    ensures forall i :: 0 <= i < |requests| ==> (i in Calls(requests) <==> requests[i].id.Some?)
    ensures forall j, k :: 0 <= j < k < |Calls(requests)| ==> Calls(requests)[j] < Calls(requests)[k]
  {
    if requests != [] {
      var init := requests[..|requests| - 1];
      CallsExact(init);
      assert forall i :: 0 <= i < |init| ==> init[i] == requests[i];
    }
  }

  /** The server's answer when request `i` yields `payloads[i]`: notifications are handled too, and a batch of
      notifications alone is answered with an empty list. */
  method HandleRequest<Id, Params, Payload>(incoming: Incoming<Id, Params>, payloads: seq<Payload>)
    returns (out: Outgoing<Id, Payload>)
    requires |payloads| == if incoming.Single? then 1 else |incoming.requests|
    ensures incoming.Single? ==>
      out == if incoming.request.id.Some? then One(Response(incoming.request.id, payloads[0])) else Empty
    ensures incoming.Many? ==>
      && out.List? && |out.responses| == |Calls(incoming.requests)|
      && forall k :: 0 <= k < |out.responses| ==>
           var i := Calls(incoming.requests)[k];
           out.responses[k].id == incoming.requests[i].id && out.responses[k].payload == payloads[i]
  {
    match incoming {
      case Single(request) =>
        var res := Handle(request, payloads[0]);
        out := if request.id.Some? then One(res) else Empty;
      case Many(requests) =>
        var ret: seq<Response<Id, Payload>> := [];
        for n := 0 to |requests|
          invariant |ret| == |Calls(requests[..n])|
          invariant forall k :: 0 <= k < |ret| ==>
            var i := Calls(requests[..n])[k];
            ret[k].id == requests[i].id && ret[k].payload == payloads[i]
        {
          assert requests[..n + 1][..n] == requests[..n];
          var res := Handle(requests[n], payloads[n]);
          if requests[n].id.Some? {
            ret := ret + [res];
          }
        }
        assert requests[..|requests|] == requests;
        out := List(ret);
    }
  }
}
