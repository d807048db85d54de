/** The two codec objects at the ends of one connection, driven through any run of the step system:
    what the client object receives is what the system says. */
module RpcConnection {
  import opened Common
  import opened Wire
  import opened RpcSystem
  import C = ClientCodec
  import S = ServerCodec

  /** What the RPC layer is to be given for a request. */
  function ArgumentOf(r: Request): S.Body {
    if r.params.Some? then S.Argument(r.params.value) else S.MissingParams
  }

  class Connection {
    const client: C.Codec
    const server: S.Codec
    var requests: seq<Request>
    var responses: seq<Response>
    var log: seq<Received>
    var handed: map<nat, (string, S.Body)>   // the method and argument given to the RPC layer, by number

    constructor ()
      ensures Shows(START) && fresh(client) && fresh(server)
    {
      client := new C.Codec();
      server := new S.Codec();
      requests, responses, log, handed := [], [], [], map[];
    }

    /** The objects hold what the state says. */
    ghost predicate Shows(s: System)
      reads this, client, server
    {
      && client.pending == s.pending && !client.locked && server.View() == s.server
      && requests == s.requests && responses == s.responses && log == s.log
      && HandedOver(s.serving)
    }

    ghost predicate HandedOver(serving: map<nat, Request>)
      reads this`handed
    {
      forall q :: q in serving ==> q in handed && handed[q] == (serving[q].methodName, ArgumentOf(serving[q]))
    }

    method Send(id: nat, call: Call, ghost s: System)
      requires Shows(s) && Enabled(s, Step.Send(id, call))
      modifies this`requests, client
      ensures Shows(AfterSend(s, id, call))
    {
      var end := client.WriteRequest(id, call.serviceMethod, call.param);
      requests := requests + [end.wire];
    }

    method Read(ghost s: System)
      requires Shows(s) && Enabled(s, Step.Read)
      modifies this`requests, this`handed, server
      ensures Shows(AfterRead(s))
    {
      var serviceMethod, number := server.ReadRequestHeader(requests[0]);
      var argument := server.ReadRequestBody(true, _ => true);
      requests := requests[1..];
      handed := handed[number := (serviceMethod, argument)];
    }

    method Respond(seqNo: nat, reply: Reply, ghost s: System)
      requires Shows(s)
      modifies this`responses, server
      ensures Shows(AfterRespond(s, seqNo, reply))
    {
      var wire := server.WriteResponse(seqNo, reply.error, reply.result);
      if wire.Some? {
        responses := responses + [wire.value];
      }
    }

    method Receive(ghost s: System)
      requires Shows(s) && s.responses != [] && Faithful(s.sent, s.replies, s.responses[0])
      modifies this`responses, this`log, client
      ensures Shows(AfterReceive(s))
    {
      var wire := responses[0];
      responses := responses[1..];
      var end := client.ReadResponseHeader(wire);
      var body := client.ReadResponseBody(true, _ => true);
      var result := if body.Stored? then Some(body.value) else None;
      log := log + [Received(end.header, wire.channel, result)];
    }

    method Advance(step: Step, ghost s: System)
      requires Shows(s) && Inv(s) && Enabled(s, step)
      modifies this, client, server
      ensures Shows(Next(s, step))
    {
      match step {
        case Send(id, call) => Send(id, call, s);
        case Read => Read(s);
        case Respond(seqNo, reply) => Respond(seqNo, reply, s);
        case Receive =>
          assert Faithful(s.sent, s.replies, s.responses[0]);
          Receive(s);
      }
    }
  }

  /** Any run, carried out by the objects. */
  method Carry(steps: seq<Step>) returns (received: seq<Received>, handed: map<nat, (string, S.Body)>)
    requires ValidRun(START, steps)
    ensures received == Run(START, steps).log
    ensures var serving := Run(START, steps).serving;
            forall q :: q in serving ==> q in handed && handed[q] == (serving[q].methodName, ArgumentOf(serving[q]))
  {
    var link := new Connection();
    ghost var s := START;
    for i := 0 to |steps|
      invariant link.Shows(s) && Inv(s) && fresh(link) && fresh(link.client) && fresh(link.server)
      invariant ValidRun(s, steps[i..]) && Run(s, steps[i..]) == Run(START, steps)
    {
      assert steps[i..][0] == steps[i] && steps[i..][1..] == steps[i + 1..];
      StepKeepsInv(s, steps[i]);
      link.Advance(steps[i], s);
      s := Next(s, steps[i]);
    }
    received, handed := link.log, link.handed;
  }
}
