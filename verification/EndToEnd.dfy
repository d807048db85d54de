/** A call of a service from the name its caller prints, through the relay and the hub, to the clients
    called, and its result back to the caller (client/client.go). JSON and base64 are functions that
    are given. */
module EndToEnd {
  import opened Common
  import opened Wire
  import opened Addressing
  import opened HubState
  import opened HubDiscipline
  import C = ClientCodec
  import R = RpcSystem

  // ----- There -----

  /** The message the relay of `service` sends to the hub for a request of the service's client codec. */
  function Relay(session: string, sender: string, service: string, r: Request, encode: Request -> string): Message {
    Message(session, sender, service, Relayed(r.target), encode(r))
  }

  /** The request is on the wire of a run, for a call made under the printed name. */
  ghost predicate IsWritten(steps: seq<R.Step>, r: Request, service: string, methodName: string,
                            target: Option<string>)
  {
    && R.ValidRun(R.START, steps) && r in R.Run(R.START, steps).requests
    && r.id.Number? && r.id.n in R.Run(R.START, steps).sent
    && R.Run(R.START, steps).sent[r.id.n].serviceMethod == ServiceName(service, methodName, target)
  }

  /** For every service, method and target, a call reaches everyone in the caller's session but the
      caller when the shown target is "-1", and otherwise only the client in the session with that
      id. Each is called once, with the session, the sender, the service, the shown target and the text
      of the request; nobody is called with anything else. */
  lemma CallReachesItsTarget(ops: seq<Op>, steps: seq<R.Step>, r: Request, session: string, sender: string,
                             service: string, methodName: string, target: Option<string>,
                             encode: Request -> string, note: Note)
    requires Disciplined(ops) && IsWritten(steps, r, service, methodName, target)
    ensures var shown := if Shown(target) == "-1" then None else Some(Shown(target));
            Notes(Run(ops), Handle(Relay(session, sender, service, r, encode)))[note]
            == if InRoom(Run(ops), session, note.to)
                  && note.event == Deliver(Message(session, sender, service, shown, encode(r)))
                  && (if shown == None then note.to.id != sender else note.to.id == shown.value)
               then 1 else 0
  {
    R.PrintedCallsAreServed(steps, r, service, methodName, target);
    DeliveredExactlyOnce(ops, Relay(session, sender, service, r, encode), note);
  }

  /** A call made for one client of a disciplined run, whose id is neither "-1" nor holds a `]`,
      reaches that client alone, and the request it is given names the plain method. */
  lemma CallReachesTheClient(ops: seq<Op>, steps: seq<R.Step>, r: Request, session: string, sender: string,
                             service: string, methodName: string, target: Client,
                             encode: Request -> string, note: Note)
    requires Disciplined(ops) && InRoom(Run(ops), session, target)
    requires IsWritten(steps, r, service, methodName, Some(target.id))
    requires target.id != "-1" && ']' !in target.id
    ensures r.methodName == service + "." + methodName
    ensures var delivered := Message(session, sender, service, Some(target.id), encode(r));
            Notes(Run(ops), Handle(Relay(session, sender, service, r, encode)))[note]
            == if note == Note(target, Deliver(delivered)) then 1 else 0
  {
    R.PrintedCallsAreServed(steps, r, service, methodName, Some(target.id));
    CallReachesItsTarget(ops, steps, r, session, sender, service, methodName, Some(target.id), encode, note);
    OnlyOneHasTheId(ops, session, target, note.to);
  }

  lemma OnlyOneHasTheId(ops: seq<Op>, session: string, target: Client, c: Client)
    requires Disciplined(ops) && InRoom(Run(ops), session, target)
    ensures InRoom(Run(ops), session, c) && c.id == target.id <==> c == target
  {
    RunIsGood(ops);
    assert InOrder(Run(ops), session, Run(ops).rooms[session]);
  }

  // ----- And back -----

  /** What the target's handler makes of the response of its own service: the id of the request, and the
      channel of the method. */
  function Handled(r: Request, served: Response): Response {
    Response(r.id, Some(ChannelOf(r.methodName)), served.result, served.error)
  }

  /** What the relay hands to the caller's codec: the result of the remote response, and the error of its
      own call to the hub. */
  function Returned(r: Request, service: string, remote: Response, failure: Failure): Response {
    Response(r.id, Some(service), remote.result, failure)
  }

  /** The caller of a private call is given the result of the target's service, for its own call; the
      service's error never reaches it, so it learns the outcome exactly when there was no error. */
  lemma CallReturnsTheTargetsResult(ops: seq<Op>, steps: seq<R.Step>, r: Request, session: string, sender: string,
                                    service: string, methodName: string, target: Client,
                                    encode: Request -> string, write: Response -> string, read: string -> Response,
                                    served: Response, answer: Client -> string, after: string)
    requires Disciplined(ops) && InRoom(Run(ops), session, target)
    requires IsWritten(steps, r, service, methodName, Some(target.id))
    requires target.id != "-1" && ']' !in target.id
    requires answer(target) == write(Handled(r, served)) && read(write(Handled(r, served))) == Handled(r, served)
    requires IsReply(Run(ops), Relay(session, sender, service, r, encode), answer, "", after)
    ensures r.id.n in R.Run(R.START, steps).pending
    ensures var pending := R.Run(R.START, steps).pending;
            var back := Returned(r, service, read(after), Absent);
            && C.HeaderOf(pending, back)
               == C.Header(r.id.n, ServiceName(service, methodName, Some(target.id)), "")
            && back.result == served.result && back.channel == Some(service)
            && read(after).id == r.id
            && (read(after).channel == Some(service) <==> service != "" && '.' !in service)
            && (C.HeaderOf(pending, back) == C.HeaderOf(pending, Handled(r, served)) <==> served.error == Absent)
  {
    R.PrintedCallsAreServed(steps, r, service, methodName, Some(target.id));
    PendingUnderItsName(steps, r);
    TargetAnswers(ops, Relay(session, sender, service, r, encode), target, answer, after);
    ReturnedIsRead(R.Run(R.START, steps).pending, r, service, methodName, served);
  }

  lemma TargetAnswers(ops: seq<Op>, m: Message, target: Client, answer: Client -> string, after: string)
    requires Disciplined(ops) && InRoom(Run(ops), m.session, target) && m.target == Some(target.id)
    requires IsReply(Run(ops), m, answer, "", after)
    ensures after == answer(target)
  {
    ReplyIsTheTargets(ops, m, answer, "", after);
  }

  lemma ReturnedIsRead(pending: map<nat, string>, r: Request, service: string, methodName: string, served: Response)
    requires r.id.Number? && r.id.n < UINT64_LIMIT && r.id.n in pending && r.methodName == service + "." + methodName
    ensures var remote := Handled(r, served); var back := Returned(r, service, remote, Absent);
            && C.HeaderOf(pending, back) == C.Header(r.id.n, pending[r.id.n], "")
            && (remote.channel == Some(service) <==> service != "" && '.' !in service)
            && (C.HeaderOf(pending, back) == C.HeaderOf(pending, remote) <==> served.error == Absent)
  {
    ChannelOfPrinted(service, methodName);
  }

  lemma PendingUnderItsName(steps: seq<R.Step>, r: Request)
    requires R.ValidRun(R.START, steps) && r in R.Run(R.START, steps).requests
    ensures var s := R.Run(R.START, steps);
            && r.id.Number? && r.id.n < UINT64_LIMIT && r.id.n in s.pending && r.id.n in s.sent
            && s.pending[r.id.n] == s.sent[r.id.n].serviceMethod
  {
    R.RunKeepsInv(R.START, steps);
    R.InFlightIsGenuine(R.Run(R.START, steps), r);
  }

  /** A broadcast, and a private call to an id that nobody in the session has, come back without a result
      and without an error: the two cannot be told from a call whose service returned nothing. */
  lemma CallWithoutTargetReturnsNothing(ops: seq<Op>, steps: seq<R.Step>, r: Request, session: string,
                                        sender: string, service: string, methodName: string,
                                        target: Option<string>, encode: Request -> string,
                                        read: string -> Response, answer: Client -> string, after: string)
    requires Disciplined(ops) && session in Run(ops).rooms && IsWritten(steps, r, service, methodName, target)
    requires Shown(target) == "-1" || forall c :: InRoom(Run(ops), session, c) ==> c.id != Shown(target)
    requires IsReply(Run(ops), Relay(session, sender, service, r, encode), answer, "", after)
    requires read("") == C.EMPTY_RESPONSE
    ensures r.id.n in R.Run(R.START, steps).pending
    ensures var back := Returned(r, service, read(after), Absent);
            && C.HeaderOf(R.Run(R.START, steps).pending, back)
               == C.Header(r.id.n, ServiceName(service, methodName, target), "")
            && back.result == None
  {
    R.PrintedCallsAreServed(steps, r, service, methodName, target);
    PendingUnderItsName(steps, r);
    ReplyIsTheTargets(ops, Relay(session, sender, service, r, encode), answer, "", after);
  }

  /** When the call to the hub itself fails, the hub's words are the caller's error; a failure that is not a
      text, as when the connection to the hub is closed, is encoded as an object, which fails the codec of
      the whole service, with this call no longer pending. */
  lemma HubFailuresAreReported(steps: seq<R.Step>, r: Request, service: string, remote: Response, failure: Failure)
    requires R.ValidRun(R.START, steps) && r in R.Run(R.START, steps).requests && failure != Absent
    ensures r.id.Number? && r.id.n in R.Run(R.START, steps).sent
    ensures var s := R.Run(R.START, steps); var back := Returned(r, service, remote, failure);
            && r.id.n !in C.Settle(s.pending, back)
            && C.HeaderOf(s.pending, back)
               == if failure.Object? then C.InvalidError
                  else C.Header(r.id.n, s.sent[r.id.n].serviceMethod,
                                if failure.message == "" then "unspecified error" else failure.message)
  {
    PendingUnderItsName(steps, r);
  }
}
