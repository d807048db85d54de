/** One connection as a step system: client codec, request wire, server codec with the RPC layer
    behind it, response wire. The RPC layer may answer in any order. */
module RpcSystem {
  import opened Common
  import opened Wire
  import opened Addressing
  import C = ClientCodec
  import S = ServerCodec

  datatype Call = Call(serviceMethod: string, param: Json)

  datatype Reply = Reply(error: string, result: Json)

  /** What the caller of one call is given back. */
  datatype Received = Received(header: C.Header, channel: Option<string>, result: Option<Json>)

  /** `serving` is what the RPC layer holds for each server number. `sent`, `replies` and `log` are
      history: the calls made, the answers the RPC layer gave, and what the client received. */
  datatype System = System(
    pending: map<nat, string>,
    requests: seq<Request>,
    server: S.State,
    serving: map<nat, Request>,
    responses: seq<Response>,
    sent: map<nat, Call>,
    replies: map<nat, Reply>,
    log: seq<Received>)

  const START := System(map[], [], S.INITIAL, map[], [], map[], map[], [])

  datatype Step =
    | Send(id: nat, call: Call)
    | Read
    | Respond(seqNo: nat, reply: Reply)
    | Receive

  /** A caller uses a fresh uint64 id and a name that WriteRequest accepts; the counter does not
      run into a number still in use. Any number may be answered, known or not. */
  predicate Enabled(s: System, step: Step) {
    match step
    case Send(id, call) => id !in s.sent && id < UINT64_LIMIT && Parse(call.serviceMethod).Some?
    case Read => s.requests != [] && S.NextSeq(s.server) !in s.serving
    case Respond(_, _) => true
    case Receive => s.responses != []
  }

  function Next(s: System, step: Step): System
    requires Enabled(s, step)
  {
    match step
    case Send(id, call) => AfterSend(s, id, call)
    case Read => AfterRead(s)
    case Respond(seqNo, reply) => AfterRespond(s, seqNo, reply)
    case Receive => AfterReceive(s)
  }

  function AfterSend(s: System, id: nat, call: Call): System
    requires Parse(call.serviceMethod).Some?
  {
    s.(pending := s.pending[id := call.serviceMethod],
       requests := s.requests + [C.RequestFor(id, call.serviceMethod, call.param).value],
       sent := s.sent[id := call])
  }

  function AfterRead(s: System): System
    requires s.requests != []
  {
    var server := S.Accept(s.server, s.requests[0]);
    s.(requests := s.requests[1..], server := server, serving := s.serving[server.seqNo := s.requests[0]])
  }

  /** The answer is recorded under the id of the request the RPC layer was answering. */
  function AfterRespond(s: System, seqNo: nat, reply: Reply): System {
    var wire := S.Answer(s.server, seqNo, reply.error, reply.result);
    var s' := s.(server := S.Forget(s.server, seqNo), serving := s.serving - {seqNo});
    if wire.None? then s'
    else if seqNo in s.serving && s.serving[seqNo].id.Number? then
      s'.(responses := s.responses + [wire.value], replies := s.replies[s.serving[seqNo].id.n := reply])
    else s'.(responses := s.responses + [wire.value])
  }

  function AfterReceive(s: System): System
    requires s.responses != []
  {
    var wire := s.responses[0];
    s.(responses := s.responses[1..],
       pending := C.Settle(s.pending, wire),
       log := s.log + [Received(C.HeaderOf(s.pending, wire), wire.channel, wire.result)])
  }

  predicate ValidRun(s: System, steps: seq<Step>)
    decreases |steps|
  {
    steps == [] || (Enabled(s, steps[0]) && ValidRun(Next(s, steps[0]), steps[1..]))
  }

  function Run(s: System, steps: seq<Step>): System
    requires ValidRun(s, steps)
    decreases |steps|
  {
    if steps == [] then s else Run(Next(s, steps[0]), steps[1..])
  }

  // ----- The invariant -----

  /** The request is the one the client writes for the call sent under its id. */
  predicate Genuine(sent: map<nat, Call>, r: Request) {
    && r.id.Number? && r.id.n in sent && r.id.n < UINT64_LIMIT
    && C.RequestFor(r.id.n, sent[r.id.n].serviceMethod, sent[r.id.n].param) == Some(r)
  }

  /** The response carries the id and channel of a call sent, and the answer given to that call. */
  predicate Faithful(sent: map<nat, Call>, replies: map<nat, Reply>, r: Response) {
    && r.id.Number? && r.id.n in sent && r.id.n in replies && r.id.n < UINT64_LIMIT
    && var address := Parse(sent[r.id.n].serviceMethod);
       address.Some? && r == S.ResponseTo(r.id, address.value.channel, replies[r.id.n].error, replies[r.id.n].result)
  }

  /** What the caller of `call` must be given when the RPC layer answered `reply`. */
  predicate Matches(id: nat, call: Call, reply: Reply, got: Received) {
    && got.header == C.Header(id, call.serviceMethod, reply.error)
    && Parse(call.serviceMethod).Some? && got.channel == Some(ChannelOf(Parse(call.serviceMethod).value.methodName))
    && got.result == (if reply.error == "" && reply.result != "null" then Some(reply.result) else None)
  }

  predicate Settled(sent: map<nat, Call>, replies: map<nat, Reply>, got: Received) {
    && got.header.Header?
    && var id := got.header.seqNo;
       id in sent && id in replies && Matches(id, sent[id], replies[id], got)
  }

  /** The codec's two maps and the RPC layer agree on what is being served. */
  predicate Served(server: S.State, serving: map<nat, Request>) {
    && server.pending.Keys == serving.Keys && server.channels.Keys == serving.Keys
    && forall q :: q in serving ==>
         server.pending[q] == serving[q].id && server.channels[q] == ChannelOf(serving[q].methodName)
  }

  predicate GenuineRequests(sent: map<nat, Call>, requests: seq<Request>) {
    forall i :: 0 <= i < |requests| ==> Genuine(sent, requests[i])
  }

  predicate GenuineService(sent: map<nat, Call>, serving: map<nat, Request>) {
    forall q :: q in serving ==> Genuine(sent, serving[q])
  }

  predicate FaithfulResponses(sent: map<nat, Call>, replies: map<nat, Reply>, responses: seq<Response>) {
    forall i :: 0 <= i < |responses| ==> Faithful(sent, replies, responses[i])
  }

  predicate SettledLog(sent: map<nat, Call>, replies: map<nat, Reply>, log: seq<Received>) {
    forall i :: 0 <= i < |log| ==> Settled(sent, replies, log[i])
  }

  predicate Remembered(sent: map<nat, Call>, pending: map<nat, string>) {
    forall id :: id in pending ==> id in sent && pending[id] == sent[id].serviceMethod
  }

  predicate Authentic(s: System) {
    && GenuineRequests(s.sent, s.requests) && GenuineService(s.sent, s.serving)
    && FaithfulResponses(s.sent, s.replies, s.responses) && SettledLog(s.sent, s.replies, s.log)
    && Remembered(s.sent, s.pending)
  }

  // Where a call can be.
  ghost predicate Requested(requests: seq<Request>, id: nat) {
    exists i :: 0 <= i < |requests| && requests[i].id == Number(id)
  }

  ghost predicate InService(serving: map<nat, Request>, id: nat) {
    exists q :: q in serving && serving[q].id == Number(id)
  }

  ghost predicate Responded(responses: seq<Response>, id: nat) {
    exists i :: 0 <= i < |responses| && responses[i].id == Number(id)
  }

  ghost predicate Logged(log: seq<Received>, id: nat) {
    exists i :: 0 <= i < |log| && log[i].header.Header? && log[i].header.seqNo == id
  }

  predicate DistinctRequests(requests: seq<Request>) {
    forall i, j :: 0 <= i < j < |requests| ==> requests[i].id != requests[j].id
  }

  predicate DistinctServing(serving: map<nat, Request>) {
    forall p, q :: p in serving && q in serving && p != q ==> serving[p].id != serving[q].id
  }

  predicate DistinctResponses(responses: seq<Response>) {
    forall i, j :: 0 <= i < j < |responses| ==> responses[i].id != responses[j].id
  }

  predicate DistinctLog(log: seq<Received>) {
    forall i, j :: 0 <= i < j < |log| && log[i].header.Header? && log[j].header.Header? ==>
      log[i].header.seqNo != log[j].header.seqNo
  }

  predicate Distinct(s: System) {
    DistinctRequests(s.requests) && DistinctServing(s.serving) && DistinctResponses(s.responses) && DistinctLog(s.log)
  }

  /** Every pending call is in exactly one place, and every other call sent has been received. */
  ghost predicate Accounted(s: System) {
    && (forall id :: id in s.pending <==>
          Requested(s.requests, id) || InService(s.serving, id) || Responded(s.responses, id))
    && (forall id :: !(Requested(s.requests, id) && InService(s.serving, id)))
    && (forall id :: !(Requested(s.requests, id) && Responded(s.responses, id)))
    && (forall id :: !(InService(s.serving, id) && Responded(s.responses, id)))
    && (forall id :: id in s.sent <==> id in s.pending || Logged(s.log, id))
    && (forall id :: !(id in s.pending && Logged(s.log, id)))
  }

  ghost predicate Inv(s: System) {
    Served(s.server, s.serving) && Authentic(s) && Distinct(s) && Accounted(s)
  }

  // ----- How one place gains or loses a call -----

  lemma RequestAdded(rs: seq<Request>, r: Request, k: nat)
    ensures Requested(rs + [r], k) <==> Requested(rs, k) || r.id == Number(k)
  {
    var rs' := rs + [r];
    assert rs'[|rs|] == r;
    assert forall i | 0 <= i < |rs| :: rs'[i] == rs[i];
  }

  lemma RequestTaken(rs: seq<Request>, k: nat)
    requires rs != [] && DistinctRequests(rs)
    ensures Requested(rs[1..], k) <==> Requested(rs, k) && rs[0].id != Number(k)
  {
    assert forall i | 1 <= i < |rs| :: rs[1..][i - 1] == rs[i];
  }

  lemma ServiceAdded(serving: map<nat, Request>, q: nat, r: Request, k: nat)
    requires q !in serving
    ensures InService(serving[q := r], k) <==> InService(serving, k) || r.id == Number(k)
  {
    var serving' := serving[q := r];
    assert serving'[q] == r;
    assert forall p | p in serving :: p in serving' && serving'[p] == serving[p];
  }

  lemma ServiceTaken(serving: map<nat, Request>, q: nat, k: nat)
    requires q in serving && DistinctServing(serving)
    ensures InService(serving - {q}, k) <==> InService(serving, k) && serving[q].id != Number(k)
  {
    assert forall p | p in serving && p != q :: p in serving - {q} && (serving - {q})[p] == serving[p];
  }

  lemma ResponseAdded(rs: seq<Response>, r: Response, k: nat)
    ensures Responded(rs + [r], k) <==> Responded(rs, k) || r.id == Number(k)
  {
    var rs' := rs + [r];
    assert rs'[|rs|] == r;
    assert forall i | 0 <= i < |rs| :: rs'[i] == rs[i];
  }

  lemma ResponseTaken(rs: seq<Response>, k: nat)
    requires rs != [] && DistinctResponses(rs)
    ensures Responded(rs[1..], k) <==> Responded(rs, k) && rs[0].id != Number(k)
  {
    assert forall i | 1 <= i < |rs| :: rs[1..][i - 1] == rs[i];
  }

  lemma LogAdded(log: seq<Received>, got: Received, k: nat)
    requires got.header.Header?
    ensures Logged(log + [got], k) <==> Logged(log, k) || got.header.seqNo == k
  {
    var log' := log + [got];
    assert log'[|log|] == got;
    assert forall i | 0 <= i < |log| :: log'[i] == log[i];
  }

  // ----- What stays true of a record when the history grows -----

  lemma HistoryGrows(sent: map<nat, Call>, id: nat, call: Call, s: System)
    requires id !in sent && sent == s.sent && Authentic(s)
    ensures GenuineRequests(sent[id := call], s.requests) && GenuineService(sent[id := call], s.serving)
    ensures FaithfulResponses(sent[id := call], s.replies, s.responses)
    ensures SettledLog(sent[id := call], s.replies, s.log)
  {
    var sent' := sent[id := call];
    forall i | 0 <= i < |s.requests| ensures Genuine(sent', s.requests[i]) {
      assert Genuine(sent, s.requests[i]);
    }
    forall q | q in s.serving ensures Genuine(sent', s.serving[q]) {
      assert Genuine(sent, s.serving[q]);
    }
    forall i | 0 <= i < |s.responses| ensures Faithful(sent', s.replies, s.responses[i]) {
      assert Faithful(sent, s.replies, s.responses[i]);
    }
    forall i | 0 <= i < |s.log| ensures Settled(sent', s.replies, s.log[i]) {
      assert Settled(sent, s.replies, s.log[i]);
    }
  }

  lemma RepliesGrow(s: System, id: nat, reply: Reply)
    requires Authentic(s) && !Responded(s.responses, id) && !Logged(s.log, id)
    ensures FaithfulResponses(s.sent, s.replies[id := reply], s.responses)
    ensures SettledLog(s.sent, s.replies[id := reply], s.log)
  {
    var replies' := s.replies[id := reply];
    forall i | 0 <= i < |s.responses| ensures Faithful(s.sent, replies', s.responses[i]) {
      assert Faithful(s.sent, s.replies, s.responses[i]);
    }
    forall i | 0 <= i < |s.log| ensures Settled(s.sent, replies', s.log[i]) {
      assert Settled(s.sent, s.replies, s.log[i]);
    }
  }

  lemma ServedAfterAccept(server: S.State, serving: map<nat, Request>, r: Request)
    requires Served(server, serving)
    ensures Served(S.Accept(server, r), serving[S.NextSeq(server) := r])
  {
  }

  lemma ServedAfterForget(server: S.State, serving: map<nat, Request>, q: nat)
    requires Served(server, serving)
    ensures Served(S.Forget(server, q), serving - {q})
  {
    assert S.Forget(server, q).pending.Keys == serving.Keys - {q};
  }

  lemma ServiceStaysGenuine(sent: map<nat, Call>, serving: map<nat, Request>, q: nat, r: Request)
    requires GenuineService(sent, serving) && Genuine(sent, r)
    ensures GenuineService(sent, serving[q := r])
  {
  }

  /** Answering a number being served moves that request to the response wire. */
  lemma RespondMoves(s: System, q: nat, reply: Reply)
    requires Served(s.server, s.serving) && q in s.serving && s.serving[q].id.Number?
    ensures var r := s.serving[q];
            var wire := S.ResponseTo(r.id, ChannelOf(r.methodName), reply.error, reply.result);
            AfterRespond(s, q, reply)
            == s.(server := S.Forget(s.server, q), serving := s.serving - {q},
                  responses := s.responses + [wire], replies := s.replies[r.id.n := reply])
  {
  }

  /** Answering any other number changes nothing. */
  lemma RespondToUnknownIsNoOp(s: System, q: nat, reply: Reply)
    requires Served(s.server, s.serving) && q !in s.serving
    ensures AfterRespond(s, q, reply) == s
  {
    assert q !in s.server.pending;
    assert s.serving - {q} == s.serving;
    assert S.Forget(s.server, q) == s.server by {
      assert s.server.pending - {q} == s.server.pending && s.server.channels - {q} == s.server.channels;
    }
  }

  lemma ResponseIsFaithful(sent: map<nat, Call>, replies: map<nat, Reply>, r: Request, reply: Reply)
    requires Genuine(sent, r) && r.id.n in replies && replies[r.id.n] == reply
    ensures Faithful(sent, replies, S.ResponseTo(r.id, ChannelOf(r.methodName), reply.error, reply.result))
  {
  }

  lemma ReceiptIsSettled(s: System, wire: Response)
    requires Faithful(s.sent, s.replies, wire) && Remembered(s.sent, s.pending) && wire.id.n in s.pending
    ensures Settled(s.sent, s.replies, Received(C.HeaderOf(s.pending, wire), wire.channel, wire.result))
  {
    var id := wire.id.n;
    HeaderOfResponse(s.pending, id, wire.channel, s.replies[id]);
    ParsedChannel(s.sent[id].serviceMethod);
  }

  lemma HeaderOfResponse(pending: map<nat, string>, id: nat, channel: Option<string>, reply: Reply)
    requires id in pending && id < UINT64_LIMIT && channel.Some?
    ensures C.HeaderOf(pending, S.ResponseTo(Number(id), channel.value, reply.error, reply.result))
            == C.Header(id, pending[id], reply.error)
  {
  }

  lemma ParsedChannel(name: string)
    requires Parse(name).Some?
    ensures Parse(name).value.channel == ChannelOf(Parse(name).value.methodName)
  {
  }

  // ----- The invariant is kept -----

  lemma SendKeepsAccounts(s: System, id: nat, call: Call)
    requires Distinct(s) && Accounted(s) && Enabled(s, Send(id, call))
    ensures Distinct(AfterSend(s, id, call)) && Accounted(AfterSend(s, id, call))
  {
    var s' := AfterSend(s, id, call);
    var r := s'.requests[|s.requests|];
    forall k ensures Requested(s'.requests, k) <==> Requested(s.requests, k) || r.id == Number(k) {
      RequestAdded(s.requests, r, k);
    }
    assert !Requested(s.requests, id);
  }

  lemma SendKeepsRest(s: System, id: nat, call: Call)
    requires Served(s.server, s.serving) && Authentic(s) && Enabled(s, Send(id, call))
    ensures var s' := AfterSend(s, id, call); Served(s'.server, s'.serving) && Authentic(s')
  {
    HistoryGrows(s.sent, id, call, s);
    GenuineSnoc(s.sent[id := call], s.requests, C.RequestFor(id, call.serviceMethod, call.param).value);
  }

  lemma GenuineSnoc(sent: map<nat, Call>, rs: seq<Request>, r: Request)
    requires GenuineRequests(sent, rs) && Genuine(sent, r)
    ensures GenuineRequests(sent, rs + [r])
  {
  }

  lemma ReadKeepsAccounts(s: System)
    requires Distinct(s) && Accounted(s) && GenuineRequests(s.sent, s.requests) && Enabled(s, Read)
    ensures Distinct(AfterRead(s)) && Accounted(AfterRead(s))
  {
    var s' := AfterRead(s);
    var r := s.requests[0];
    assert Genuine(s.sent, r);
    forall k
      ensures Requested(s'.requests, k) <==> Requested(s.requests, k) && r.id != Number(k)
      ensures InService(s'.serving, k) <==> InService(s.serving, k) || r.id == Number(k)
    {
      RequestTaken(s.requests, k);
      ServiceAdded(s.serving, s'.server.seqNo, r, k);
    }
    assert Requested(s.requests, r.id.n) && !InService(s.serving, r.id.n);
  }

  lemma ReadKeepsRest(s: System)
    requires Served(s.server, s.serving) && Authentic(s) && Enabled(s, Read)
    ensures var s' := AfterRead(s); Served(s'.server, s'.serving) && Authentic(s')
  {
    var r := s.requests[0];
    ServedAfterAccept(s.server, s.serving, r);
    assert Genuine(s.sent, r);
    ServiceStaysGenuine(s.sent, s.serving, S.NextSeq(s.server), r);
    assert GenuineRequests(s.sent, s.requests[1..]);
  }

  lemma RespondKeepsAccounts(s: System, q: nat, reply: Reply)
    requires Served(s.server, s.serving) && Distinct(s) && Accounted(s) && q in s.serving && s.serving[q].id.Number?
    ensures Distinct(AfterRespond(s, q, reply)) && Accounted(AfterRespond(s, q, reply))
  {
    RespondMoves(s, q, reply);
    var s' := AfterRespond(s, q, reply);
    var id := s.serving[q].id;
    MoveKeepsAccounts(s, s', q, id, s'.responses[|s.responses|]);
  }

  lemma MoveKeepsAccounts(s: System, s': System, q: nat, id: Id, wire: Response)
    requires Distinct(s) && Accounted(s) && q in s.serving && s.serving[q].id == id && id.Number? && wire.id == id
    requires s'.serving == s.serving - {q} && s'.responses == s.responses + [wire]
    requires s'.requests == s.requests && s'.pending == s.pending && s'.sent == s.sent && s'.log == s.log
    ensures Distinct(s') && Accounted(s')
  {
    forall k
      ensures InService(s'.serving, k) <==> InService(s.serving, k) && id != Number(k)
      ensures Responded(s'.responses, k) <==> Responded(s.responses, k) || id == Number(k)
    {
      ServiceTaken(s.serving, q, k);
      ResponseAdded(s.responses, wire, k);
    }
    assert InService(s.serving, id.n) && !Responded(s.responses, id.n);
  }

  lemma RespondKeepsRest(s: System, q: nat, reply: Reply)
    requires Served(s.server, s.serving) && Authentic(s) && Accounted(s) && q in s.serving
    ensures var s' := AfterRespond(s, q, reply); Served(s'.server, s'.serving) && Authentic(s')
  {
    var r := s.serving[q];
    assert Genuine(s.sent, r);
    RespondMoves(s, q, reply);
    ServedAfterForget(s.server, s.serving, q);
    assert GenuineService(s.sent, s.serving - {q});
    assert InService(s.serving, r.id.n);
    RepliesGrow(s, r.id.n, reply);
    var replies' := s.replies[r.id.n := reply];
    var wire := S.ResponseTo(r.id, ChannelOf(r.methodName), reply.error, reply.result);
    ResponseIsFaithful(s.sent, replies', r, reply);
    FaithfulSnoc(s.sent, replies', s.responses, wire);
  }

  lemma FaithfulSnoc(sent: map<nat, Call>, replies: map<nat, Reply>, rs: seq<Response>, r: Response)
    requires FaithfulResponses(sent, replies, rs) && Faithful(sent, replies, r)
    ensures FaithfulResponses(sent, replies, rs + [r])
  {
  }

  lemma ReceiveKeepsAccounts(s: System)
    requires Distinct(s) && Accounted(s) && FaithfulResponses(s.sent, s.replies, s.responses) && Enabled(s, Receive)
    ensures Distinct(AfterReceive(s)) && Accounted(AfterReceive(s))
  {
    var s' := AfterReceive(s);
    assert Faithful(s.sent, s.replies, s.responses[0]);
    ReceiptKeepsAccounts(s, s', s.responses[0].id.n, s'.log[|s.log|]);
  }

  lemma ReceiptKeepsAccounts(s: System, s': System, id: nat, got: Received)
    requires Distinct(s) && Accounted(s) && s.responses != [] && s.responses[0].id == Number(id)
    requires got.header.Header? && got.header.seqNo == id
    requires s'.responses == s.responses[1..] && s'.log == s.log + [got] && s'.pending == s.pending - {id}
    requires s'.requests == s.requests && s'.serving == s.serving && s'.sent == s.sent
    ensures Distinct(s') && Accounted(s')
  {
    forall k
      ensures Responded(s'.responses, k) <==> Responded(s.responses, k) && id != k
      ensures Logged(s'.log, k) <==> Logged(s.log, k) || id == k
    {
      ResponseTaken(s.responses, k);
      LogAdded(s.log, got, k);
    }
    assert Responded(s.responses, id) && !Logged(s.log, id);
  }

  lemma ReceiveKeepsRest(s: System)
    requires Served(s.server, s.serving) && Authentic(s) && Accounted(s) && Enabled(s, Receive)
    ensures var s' := AfterReceive(s); Served(s'.server, s'.serving) && Authentic(s')
  {
    var wire := s.responses[0];
    assert Faithful(s.sent, s.replies, wire);
    assert Responded(s.responses, wire.id.n);
    ReceiptIsSettled(s, wire);
    SettledSnoc(s.sent, s.replies, s.log, Received(C.HeaderOf(s.pending, wire), wire.channel, wire.result));
    assert FaithfulResponses(s.sent, s.replies, s.responses[1..]);
  }

  lemma SettledSnoc(sent: map<nat, Call>, replies: map<nat, Reply>, log: seq<Received>, got: Received)
    requires SettledLog(sent, replies, log) && Settled(sent, replies, got)
    ensures SettledLog(sent, replies, log + [got])
  {
  }

  lemma StepKeepsInv(s: System, step: Step)
    requires Inv(s) && Enabled(s, step)
    ensures Inv(Next(s, step))
  {
    match step
    case Send(id, call) => SendKeepsAccounts(s, id, call); SendKeepsRest(s, id, call);
    case Read => ReadKeepsAccounts(s); ReadKeepsRest(s);
    case Receive => ReceiveKeepsAccounts(s); ReceiveKeepsRest(s);
    case Respond(q, reply) =>
      if q in s.serving {
        assert Genuine(s.sent, s.serving[q]);
        RespondKeepsAccounts(s, q, reply); RespondKeepsRest(s, q, reply);
      } else {
        RespondToUnknownIsNoOp(s, q, reply);
      }
  }

  lemma {:induction false} RunKeepsInv(s: System, steps: seq<Step>)
    requires Inv(s) && ValidRun(s, steps)
    ensures Inv(Run(s, steps))
    decreases |steps|
  {
    if steps != [] {
      StepKeepsInv(s, steps[0]);
      RunKeepsInv(Next(s, steps[0]), steps[1..]);
    }
  }

  // ----- What callers and the RPC layer can rely on, over every run -----

  /** Whatever the interleaving, each response the client reads names a call that was sent, reports
      the full name that call was sent under, the result or error given to that very call, and the
      channel of its stripped method; and no call is answered twice. */
  lemma ResponsesMatchCalls(steps: seq<Step>, i: nat)
    requires ValidRun(START, steps) && i < |Run(START, steps).log|
    ensures var s := Run(START, steps);
            && s.log[i].header.Header?
            && var id := s.log[i].header.seqNo;
               id in s.sent && id in s.replies && Matches(id, s.sent[id], s.replies[id], s.log[i])
    ensures DistinctLog(Run(START, steps).log)
  {
    RunKeepsInv(START, steps);
    var s := Run(START, steps);
    assert Settled(s.sent, s.replies, s.log[i]);
  }

  /** A request on the wire or in service: its call is still pending, its name is that of the call taken
      apart, and it carries the parameters of the call. */
  lemma RequestsCarryTheirCalls(steps: seq<Step>, r: Request)
    requires ValidRun(START, steps) && (r in Run(START, steps).requests || r in Run(START, steps).serving.Values)
    ensures var s := Run(START, steps);
            && r.id.Number? && r.id.n in s.pending && r.id.n in s.sent
            && C.TakenApart(s.sent[r.id.n].serviceMethod, r) && r.params == Some(s.sent[r.id.n].param)
    ensures DistinctServing(Run(START, steps).serving)
  {
    RunKeepsInv(START, steps);
    InFlightIsGenuine(Run(START, steps), r);
    var call := Run(START, steps).sent[r.id.n];
    C.RequestIsTheNameTakenApart(r.id.n, call.serviceMethod, call.param);
  }

  lemma InFlightIsGenuine(s: System, r: Request)
    requires GenuineRequests(s.sent, s.requests) && GenuineService(s.sent, s.serving) && Accounted(s)
    requires r in s.requests || r in s.serving.Values
    ensures Genuine(s.sent, r) && r.id.n in s.pending
  {
    if r in s.requests {
      var i :| 0 <= i < |s.requests| && s.requests[i] == r;
      assert Genuine(s.sent, s.requests[i]);
      assert Requested(s.requests, r.id.n);
    } else {
      var q :| q in s.serving && s.serving[q] == r;
      ServedIsGenuine(s, q);
    }
  }

  /** For a call made under a printed name, the method served is the printed one and the target is the
      one shown, in every run: the method exactly when no `]` was in the target. */
  lemma PrintedCallsAreServed(steps: seq<Step>, r: Request, service: string, methodName: string,
                              target: Option<string>)
    requires ValidRun(START, steps) && (r in Run(START, steps).requests || r in Run(START, steps).serving.Values)
    requires r.id.Number? && r.id.n in Run(START, steps).sent
    requires Run(START, steps).sent[r.id.n].serviceMethod == ServiceName(service, methodName, target)
    ensures r.methodName == service + "." + methodName <==> target.None? || ']' !in target.value
    ensures Relayed(r.target) == if Shown(target) == "-1" then None else Some(Shown(target))
  {
    RunKeepsInv(START, steps);
    InFlightIsGenuine(Run(START, steps), r);
    C.PrintedRequest(r.id.n, service, methodName, target, Run(START, steps).sent[r.id.n].param);
  }

  lemma ServedIsGenuine(s: System, q: nat)
    requires GenuineService(s.sent, s.serving) && Accounted(s) && q in s.serving
    ensures Genuine(s.sent, s.serving[q]) && s.serving[q].id.n in s.pending
  {
    assert Genuine(s.sent, s.serving[q]);
    assert InService(s.serving, s.serving[q].id.n);
  }

  /** Conservation: pending calls are exactly those on the request wire, in service or on the
      response wire, each in one place only; all other calls sent were received, once. */
  lemma PendingIsConserved(steps: seq<Step>, id: nat)
    requires ValidRun(START, steps)
    ensures var s := Run(START, steps);
            var places := (if Requested(s.requests, id) then 1 else 0) + (if InService(s.serving, id) then 1 else 0)
                        + (if Responded(s.responses, id) then 1 else 0) + (if Logged(s.log, id) then 1 else 0);
            && places == (if id in s.sent then 1 else 0)
            && (id in s.pending <==> id in s.sent && !Logged(s.log, id))
            && (InService(s.serving, id) <==> HeldByServer(s.server, id))
            && Distinct(s)
  {
    RunKeepsInv(START, steps);
    ServedIsHeld(Run(START, steps), id);
  }

  /** The server codec has the id in its pending map. */
  ghost predicate HeldByServer(server: S.State, id: nat) {
    exists q :: q in server.pending && server.pending[q] == Number(id)
  }

  lemma ServedIsHeld(s: System, id: nat)
    requires Served(s.server, s.serving)
    ensures InService(s.serving, id) <==> HeldByServer(s.server, id)
  {
    assert forall q | q in s.serving :: s.server.pending[q] == s.serving[q].id;
  }

  predicate Counted(s: System) {
    |s.pending| == |s.requests| + |s.serving| + |s.responses|
  }

  lemma RemovalCounts<K, V>(m: map<K, V>, k: K)
    requires k in m
    ensures |m - {k}| == |m| - 1
  {
    assert (m - {k}).Keys == m.Keys - {k};
  }

  lemma StepKeepsCounted(s: System, step: Step)
    requires Inv(s) && Counted(s) && Enabled(s, step)
    ensures Counted(Next(s, step))
  {
    match step
    case Send(id, _) => assert id !in s.pending;
    case Read =>
    case Respond(q, reply) =>
      if q in s.serving {
        assert Genuine(s.sent, s.serving[q]);
        RespondMoves(s, q, reply);
        RemovalCounts(s.serving, q);
      } else {
        RespondToUnknownIsNoOp(s, q, reply);
      }
    case Receive =>
      assert Faithful(s.sent, s.replies, s.responses[0]);
      var id := s.responses[0].id.n;
      assert Responded(s.responses, id);
      RemovalCounts(s.pending, id);
  }

  lemma {:induction false} RunKeepsCounted(s: System, steps: seq<Step>)
    requires Inv(s) && Counted(s) && ValidRun(s, steps)
    ensures Counted(Run(s, steps))
    decreases |steps|
  {
    if steps != [] {
      StepKeepsInv(s, steps[0]);
      StepKeepsCounted(s, steps[0]);
      RunKeepsCounted(Next(s, steps[0]), steps[1..]);
    }
  }

  /** There are as many pending calls as records in the three places together. */
  lemma PendingCount(steps: seq<Step>)
    requires ValidRun(START, steps)
    ensures Counted(Run(START, steps))
  {
    RunKeepsCounted(START, steps);
  }

  // ----- Draining -----

  /** The number of steps the calls in flight still need. */
  function Work(s: System): nat {
    3 * |s.requests| + 2 * |s.serving| + |s.responses|
  }

  /** A step that moves a call on and sends no new one. */
  predicate Moves(s: System, step: Step) {
    Enabled(s, step) && !step.Send? && (step.Respond? ==> step.seqNo in s.serving)
  }

  predicate Draining(s: System, steps: seq<Step>)
    decreases |steps|
  {
    steps == [] || (Moves(s, steps[0]) && Draining(Next(s, steps[0]), steps[1..]))
  }

  function Drain(s: System, steps: seq<Step>): System
    requires Draining(s, steps)
    decreases |steps|
  {
    if steps == [] then s else Drain(Next(s, steps[0]), steps[1..])
  }

  lemma MoveDoesOneUnit(s: System, step: Step)
    requires Inv(s) && Moves(s, step)
    ensures Work(Next(s, step)) == Work(s) - 1
  {
    match step
    case Read =>
    case Respond(q, reply) =>
      assert Genuine(s.sent, s.serving[q]);
      RespondMoves(s, q, reply);
      RemovalCounts(s.serving, q);
    case Receive =>
  }

  /** While a call is in flight, some step moves one on. */
  lemma SomethingMoves(s: System) returns (step: Step)
    requires Work(s) > 0
    ensures Moves(s, step)
  {
    if s.responses != [] {
      step := Receive;
    } else if s.serving.Keys != {} {
      var q :| q in s.serving.Keys;
      step := Respond(q, Reply("", "null"));
    } else {
      step := Read;
    }
  }

  lemma {:induction false} DrainDoesItsWork(s: System, steps: seq<Step>)
    requires Inv(s) && Draining(s, steps)
    ensures Inv(Drain(s, steps))
    ensures Work(Drain(s, steps)) == Work(s) - |steps|
    decreases |steps|
  {
    if steps != [] {
      StepKeepsInv(s, steps[0]);
      MoveDoesOneUnit(s, steps[0]);
      DrainDoesItsWork(Next(s, steps[0]), steps[1..]);
    }
  }

  /** With no new calls, a run can go on exactly until 3 * requests + 2 * served + responses steps
      have been taken, and then nothing is pending anywhere. */
  lemma DrainingTakesExactlyItsWork(before: seq<Step>, steps: seq<Step>)
    requires ValidRun(START, before) && Draining(Run(START, before), steps)
    ensures var s := Run(START, before); var end := Drain(s, steps);
            && |steps| <= Work(s)
            && ((exists step :: Moves(end, step)) <==> |steps| < Work(s))
            && (|steps| == Work(s) <==> end.pending == map[])
  {
    RunKeepsInv(START, before);
    DrainDoesItsWork(Run(START, before), steps);
    WorkIsPending(Drain(Run(START, before), steps));
  }

  lemma WorkIsPending(s: System)
    requires Inv(s)
    ensures (exists step :: Moves(s, step)) <==> Work(s) > 0
    ensures Work(s) == 0 <==> s.pending == map[]
  {
    if Work(s) > 0 {
      var step := SomethingMoves(s);
      var id := PendingWitness(s);
    } else {
      forall id ensures id !in s.pending { assert !Responded(s.responses, id); }
    }
  }

  lemma PendingWitness(s: System) returns (id: nat)
    requires Inv(s) && Work(s) > 0
    ensures id in s.pending
  {
    if s.responses != [] {
      assert Faithful(s.sent, s.replies, s.responses[0]);
      id := s.responses[0].id.n;
      assert Responded(s.responses, id);
    } else if s.requests != [] {
      assert Genuine(s.sent, s.requests[0]);
      id := s.requests[0].id.n;
      assert Requested(s.requests, id);
    } else {
      assert s.serving.Keys != {};
      var q :| q in s.serving;
      assert Genuine(s.sent, s.serving[q]);
      id := s.serving[q].id.n;
      assert InService(s.serving, id);
    }
  }

  // ----- When the counter cannot catch up with itself -----

  predicate Numbered(s: System) {
    && s.server.seqNo + |s.requests| == |s.sent|
    && forall q :: q in s.serving ==> 1 <= q <= s.server.seqNo
  }

  lemma {:induction false} SentGrows(s: System, steps: seq<Step>)
    requires ValidRun(s, steps)
    ensures |s.sent| <= |Run(s, steps).sent|
    decreases |steps|
  {
    if steps != [] { SentGrows(Next(s, steps[0]), steps[1..]); }
  }

  lemma StepKeepsNumbered(s: System, step: Step)
    requires Numbered(s) && Enabled(s, step) && |Next(s, step).sent| < UINT64_LIMIT
    ensures Numbered(Next(s, step))
  {
    match step
    case Send(id, call) => assert |s.sent[id := call]| == |s.sent| + 1;
    case Read => ReadKeepsNumbered(s);
    case Respond(q, reply) =>
    case Receive =>
  }

  lemma ReadKeepsNumbered(s: System)
    requires Numbered(s) && s.requests != [] && |s.sent| < UINT64_LIMIT
    ensures Numbered(AfterRead(s))
  {
    assert S.NextSeq(s.server) == s.server.seqNo + 1;
  }

  lemma {:induction false} NumberedWhileFew(s: System, steps: seq<Step>)
    requires Numbered(s) && ValidRun(s, steps) && |Run(s, steps).sent| < UINT64_LIMIT
    ensures Numbered(Run(s, steps))
    decreases |steps|
  {
    if steps != [] {
      var s' := Next(s, steps[0]);
      SentGrows(s', steps[1..]);
      StepKeepsNumbered(s, steps[0]);
      NumberedWhileFew(s', steps[1..]);
    }
  }

  /** Below 2^64 calls, the side condition on `Read` always holds: a request on the wire can be read. */
  lemma FewCallsNeverWrap(steps: seq<Step>)
    requires ValidRun(START, steps) && |Run(START, steps).sent| < UINT64_LIMIT
    ensures var s := Run(START, steps); Enabled(s, Read) <==> s.requests != []
  {
    NumberedWhileFew(START, steps);
  }

  // ----- Order -----

  /** The ids of the calls sent, in order. */
  function SentIds(steps: seq<Step>): seq<nat> {
    if steps == [] then [] else SentBy(steps[0]) + SentIds(steps[1..])
  }

  function SentBy(step: Step): seq<nat> {
    if step.Send? then [step.id] else []
  }

  /** Server number q stands for the q-th call sent, and the request wire holds those not read yet. */
  predicate InSendOrder(requests: seq<Request>, serving: map<nat, Request>, read: nat, order: seq<nat>) {
    && |order| == read + |requests|
    && (forall i :: 0 <= i < |requests| ==> requests[i].id == Number(order[read + i]))
    && forall q :: q in serving ==> 1 <= q <= read && serving[q].id == Number(order[q - 1])
  }

  lemma SendKeepsOrder(requests: seq<Request>, serving: map<nat, Request>, read: nat, order: seq<nat>, r: Request)
    requires InSendOrder(requests, serving, read, order) && r.id.Number?
    ensures InSendOrder(requests + [r], serving, read, order + [r.id.n])
  {
  }

  lemma ReadKeepsOrder(requests: seq<Request>, serving: map<nat, Request>, read: nat, order: seq<nat>)
    requires InSendOrder(requests, serving, read, order) && requests != []
    ensures InSendOrder(requests[1..], serving[read + 1 := requests[0]], read + 1, order)
  {
    assert forall i | 0 <= i < |requests| - 1 :: requests[1..][i] == requests[i + 1];
  }

  lemma AnswerKeepsOrder(requests: seq<Request>, serving: map<nat, Request>, read: nat, order: seq<nat>, q: nat)
    requires InSendOrder(requests, serving, read, order)
    ensures InSendOrder(requests, serving - {q}, read, order)
  {
  }

  predicate Ordered(s: System, order: seq<nat>) {
    InSendOrder(s.requests, s.serving, s.server.seqNo, order)
  }

  lemma SendKeepsOrdered(s: System, id: nat, call: Call, order: seq<nat>)
    requires Ordered(s, order) && Parse(call.serviceMethod).Some?
    ensures Ordered(AfterSend(s, id, call), order + [id])
  {
    var r := C.RequestFor(id, call.serviceMethod, call.param).value;
    SendKeepsOrder(s.requests, s.serving, s.server.seqNo, order, r);
  }

  lemma ReadKeepsOrdered(s: System, order: seq<nat>)
    requires Ordered(s, order) && s.requests != [] && s.server.seqNo + 1 < UINT64_LIMIT
    ensures Ordered(AfterRead(s), order)
  {
    ReadKeepsOrder(s.requests, s.serving, s.server.seqNo, order);
    NoWrapYet(s.server);
  }

  lemma NoWrapYet(server: S.State)
    requires server.seqNo + 1 < UINT64_LIMIT
    ensures S.NextSeq(server) == server.seqNo + 1
  {
  }

  lemma StepKeepsOrdered(s: System, step: Step, order: seq<nat>)
    requires Ordered(s, order) && Enabled(s, step) && s.server.seqNo + |s.requests| < UINT64_LIMIT
    ensures Ordered(Next(s, step), order + SentBy(step))
  {
    if step.Send? {
      SendKeepsOrdered(s, step.id, step.call, order);
    } else {
      assert order + SentBy(step) == order;
      if step.Read? { ReadKeepsOrdered(s, order); }
      if step.Respond? { AnswerKeepsOrder(s.requests, s.serving, s.server.seqNo, order, step.seqNo); }
    }
  }

  lemma {:induction false} RunKeepsOrdered(s: System, steps: seq<Step>, order: seq<nat>)
    requires Ordered(s, order) && Numbered(s) && ValidRun(s, steps) && |Run(s, steps).sent| < UINT64_LIMIT
    ensures Ordered(Run(s, steps), order + SentIds(steps))
    decreases |steps|
  {
    if steps == [] {
      assert order + [] == order;
    } else {
      RoomForStep(s, steps);
      StepKeepsNumbered(s, steps[0]);
      StepKeepsOrdered(s, steps[0], order);
      RunKeepsOrdered(Next(s, steps[0]), steps[1..], order + SentBy(steps[0]));
      SentOneByOne(steps, order);
    }
  }

  lemma RoomForStep(s: System, steps: seq<Step>)
    requires ValidRun(s, steps) && steps != [] && |Run(s, steps).sent| < UINT64_LIMIT
    ensures |s.sent| < UINT64_LIMIT && |Next(s, steps[0]).sent| < UINT64_LIMIT
  {
    SentGrows(s, steps);
    SentGrows(Next(s, steps[0]), steps[1..]);
  }

  lemma SentOneByOne(steps: seq<Step>, order: seq<nat>)
    requires steps != []
    ensures order + SentBy(steps[0]) + SentIds(steps[1..]) == order + SentIds(steps)
  {
    Regroup(order, SentBy(steps[0]), SentIds(steps[1..]));
  }

  lemma Regroup<T>(a: seq<T>, b: seq<T>, c: seq<T>)
    ensures a + b + c == a + (b + c)
  {
  }

  /** Below 2^64 calls, the request served under number q is the q-th call sent, and those on the wire
      are the latest ones, in the order in which they were sent. */
  lemma CallsAreServedInOrder(steps: seq<Step>)
    requires ValidRun(START, steps) && |Run(START, steps).sent| < UINT64_LIMIT
    ensures var s := Run(START, steps); var order := SentIds(steps);
            && |order| == |s.sent| && |s.requests| <= |order|
            && (forall q :: q in s.serving ==> 1 <= q <= |order| && s.serving[q].id == Number(order[q - 1]))
            && forall i :: 0 <= i < |s.requests| ==> s.requests[i].id == Number(order[|order| - |s.requests| + i])
  {
    RunKeepsOrdered(START, steps, []);
    NumberedWhileFew(START, steps);
    assert [] + SentIds(steps) == SentIds(steps);
    assert Ordered(Run(START, steps), SentIds(steps)) && Numbered(Run(START, steps));
  }

  // ----- What was sent and what was answered -----

  ghost predicate WasSent(steps: seq<Step>, id: nat, call: Call) {
    exists k :: 0 <= k < |steps| && steps[k] == Send(id, call)
  }

  lemma WasSentLater(steps: seq<Step>, id: nat, call: Call)
    requires steps != [] && (steps[0] == Send(id, call) || WasSent(steps[1..], id, call))
    ensures WasSent(steps, id, call)
  {
    if steps[0] != Send(id, call) {
      var k :| 0 <= k < |steps| - 1 && steps[1..][k] == Send(id, call);
      assert steps[k + 1] == Send(id, call);
    }
  }

  lemma {:induction false} SentStays(s: System, steps: seq<Step>, id: nat)
    requires ValidRun(s, steps) && id in s.sent
    ensures id in Run(s, steps).sent && Run(s, steps).sent[id] == s.sent[id]
    decreases |steps|
  {
    if steps != [] { SentStays(Next(s, steps[0]), steps[1..], id); }
  }

  /** Only calls of Send steps are sent. */
  lemma {:induction false} SentWasSent(s: System, steps: seq<Step>, id: nat)
    requires ValidRun(s, steps) && id in Run(s, steps).sent && id !in s.sent
    ensures WasSent(steps, id, Run(s, steps).sent[id])
    decreases |steps|
  {
    var s' := Next(s, steps[0]);
    if id in s'.sent {
      SentStays(s', steps[1..], id);
    } else {
      SentWasSent(s', steps[1..], id);
    }
    WasSentLater(steps, id, Run(s, steps).sent[id]);
  }

  lemma {:induction false} SendIsRecorded(s: System, steps: seq<Step>, k: nat)
    requires ValidRun(s, steps) && k < |steps| && steps[k].Send?
    ensures var sent := Run(s, steps).sent; steps[k].id in sent && sent[steps[k].id] == steps[k].call
    decreases |steps|
  {
    if k == 0 {
      SentStays(Next(s, steps[0]), steps[1..], steps[0].id);
    } else {
      assert steps[1..][k - 1] == steps[k];
      SendIsRecorded(Next(s, steps[0]), steps[1..], k - 1);
    }
  }

  /** The calls answered and their answers, in the order of the answers. */
  function Answers(s: System, steps: seq<Step>): seq<(nat, Reply)>
    requires ValidRun(s, steps)
    decreases |steps|
  {
    if steps == [] then [] else AnswerBy(s.serving, steps[0]) + Answers(Next(s, steps[0]), steps[1..])
  }

  function AnswerBy(serving: map<nat, Request>, step: Step): seq<(nat, Reply)> {
    if step.Respond? && step.seqNo in serving && serving[step.seqNo].id.Number?
    then [(serving[step.seqNo].id.n, step.reply)] else []
  }

  /** The client has received the first of the answers, and the rest are on the response wire. */
  predicate InAnswerOrder(log: seq<Received>, responses: seq<Response>, order: seq<(nat, Reply)>) {
    && |order| == |log| + |responses|
    && (forall i :: 0 <= i < |log| ==> log[i].header.Header? && log[i].header.seqNo == order[i].0)
    && forall i :: 0 <= i < |responses| ==> responses[i].id == Number(order[|log| + i].0)
  }

  predicate Recorded(replies: map<nat, Reply>, order: seq<(nat, Reply)>) {
    forall i :: 0 <= i < |order| ==> order[i].0 in replies && replies[order[i].0] == order[i].1
  }

  lemma AnswerAtEnd(log: seq<Received>, responses: seq<Response>, order: seq<(nat, Reply)>, wire: Response,
                    reply: Reply)
    requires InAnswerOrder(log, responses, order) && wire.id.Number?
    ensures InAnswerOrder(log, responses + [wire], order + [(wire.id.n, reply)])
  {
  }

  lemma AnswerReceived(log: seq<Received>, responses: seq<Response>, order: seq<(nat, Reply)>, got: Received)
    requires InAnswerOrder(log, responses, order) && responses != []
    requires got.header.Header? && responses[0].id == Number(got.header.seqNo)
    ensures InAnswerOrder(log + [got], responses[1..], order)
  {
    assert forall i | 0 <= i < |responses| - 1 :: responses[1..][i] == responses[i + 1];
  }

  lemma AnswerIsNew(log: seq<Received>, responses: seq<Response>, order: seq<(nat, Reply)>, id: nat, i: nat)
    requires InAnswerOrder(log, responses, order) && !Logged(log, id) && !Responded(responses, id) && i < |order|
    ensures order[i].0 != id
  {
    if i < |log| {
      assert log[i].header.seqNo == order[i].0;
    } else {
      assert responses[i - |log|].id == Number(order[|log| + (i - |log|)].0);
    }
  }

  lemma HeaderNamesItsCall(sent: map<nat, Call>, replies: map<nat, Reply>, pending: map<nat, string>, wire: Response)
    requires Faithful(sent, replies, wire)
    ensures C.HeaderOf(pending, wire).Header? && wire.id == Number(C.HeaderOf(pending, wire).seqNo)
  {
  }

  predicate Answered(s: System, order: seq<(nat, Reply)>) {
    InAnswerOrder(s.log, s.responses, order) && Recorded(s.replies, order)
  }

  lemma AnswerIsRecorded(s: System, order: seq<(nat, Reply)>, id: nat, reply: Reply)
    requires Answered(s, order) && !Logged(s.log, id) && !Responded(s.responses, id)
    ensures Recorded(s.replies[id := reply], order + [(id, reply)])
  {
    forall i | 0 <= i < |order| ensures order[i].0 != id { AnswerIsNew(s.log, s.responses, order, id, i); }
  }

  lemma RespondKeepsAnswered(s: System, q: nat, reply: Reply, order: seq<(nat, Reply)>)
    requires Served(s.server, s.serving) && Answered(s, order)
    requires q in s.serving ==>
               && s.serving[q].id.Number?
               && !Logged(s.log, s.serving[q].id.n) && !Responded(s.responses, s.serving[q].id.n)
    ensures Answered(AfterRespond(s, q, reply), order + AnswerBy(s.serving, Respond(q, reply)))
  {
    if q in s.serving {
      var r := s.serving[q];
      RespondMoves(s, q, reply);
      AnswerIsRecorded(s, order, r.id.n, reply);
      var wire := S.ResponseTo(r.id, ChannelOf(r.methodName), reply.error, reply.result);
      AnswerAtEnd(s.log, s.responses, order, wire, reply);
    } else {
      RespondToUnknownIsNoOp(s, q, reply);
      assert order + [] == order;
    }
  }

  lemma ReceiveKeepsAnswered(s: System, order: seq<(nat, Reply)>)
    requires s.responses != [] && Faithful(s.sent, s.replies, s.responses[0]) && Answered(s, order)
    ensures Answered(AfterReceive(s), order)
  {
    var wire := s.responses[0];
    HeaderNamesItsCall(s.sent, s.replies, s.pending, wire);
    AnswerReceived(s.log, s.responses, order, Received(C.HeaderOf(s.pending, wire), wire.channel, wire.result));
  }

  lemma ServedIsUnanswered(s: System, q: nat)
    requires GenuineService(s.sent, s.serving) && Accounted(s) && q in s.serving
    ensures s.serving[q].id.Number? && !Logged(s.log, s.serving[q].id.n) && !Responded(s.responses, s.serving[q].id.n)
  {
    ServedIsGenuine(s, q);
    assert InService(s.serving, s.serving[q].id.n);
  }

  lemma StepKeepsAnswered(s: System, step: Step, order: seq<(nat, Reply)>)
    requires Inv(s) && Enabled(s, step) && Answered(s, order)
    ensures Answered(Next(s, step), order + AnswerBy(s.serving, step))
  {
    if step.Respond? {
      if step.seqNo in s.serving { ServedIsUnanswered(s, step.seqNo); }
      RespondKeepsAnswered(s, step.seqNo, step.reply, order);
    } else {
      assert order + AnswerBy(s.serving, step) == order;
      if step.Receive? { ReceiveKeepsAnswered(s, order); }
    }
  }

  lemma {:induction false} RunKeepsAnswered(s: System, steps: seq<Step>, order: seq<(nat, Reply)>)
    requires Inv(s) && ValidRun(s, steps) && Answered(s, order)
    ensures Answered(Run(s, steps), order + Answers(s, steps))
    decreases |steps|
  {
    if steps == [] {
      assert order + [] == order;
    } else {
      StepKeepsInv(s, steps[0]);
      StepKeepsAnswered(s, steps[0], order);
      RunKeepsAnswered(Next(s, steps[0]), steps[1..], order + AnswerBy(s.serving, steps[0]));
      AnsweredOneByOne(s, steps, order);
    }
  }

  lemma AnsweredOneByOne(s: System, steps: seq<Step>, order: seq<(nat, Reply)>)
    requires ValidRun(s, steps) && steps != []
    ensures order + AnswerBy(s.serving, steps[0]) + Answers(Next(s, steps[0]), steps[1..])
            == order + Answers(s, steps)
  {
    Regroup(order, AnswerBy(s.serving, steps[0]), Answers(Next(s, steps[0]), steps[1..]));
  }

  /** The i-th response the client reads is the i-th answer the RPC layer gave: it carries that answer, the
      error or else the result, to the call that was sent under its id. */
  lemma ResponsesAreTheAnswersInOrder(steps: seq<Step>, i: nat)
    requires ValidRun(START, steps) && i < |Run(START, steps).log|
    ensures i < |Answers(START, steps)|
    ensures var (id, reply) := Answers(START, steps)[i];
            exists call :: WasSent(steps, id, call) && Matches(id, call, reply, Run(START, steps).log[i])
  {
    RunKeepsAnswered(START, steps, []);
    assert [] + Answers(START, steps) == Answers(START, steps);
    ResponsesMatchCalls(steps, i);
    var id := Answers(START, steps)[i].0;
    SentWasSent(START, steps, id);
  }
}
