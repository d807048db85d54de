/** One socket feeding many channels: the routing of each message, and what every channel then
    yields (client/client.go OnBinaryMessage, hub/hub-client.go OnBinaryMessage). */
module Demux {
  import opened Common
  import opened Addressing
  import opened Wire
  import R = RpcSystem
  import C = ClientCodec
  import N = NetConn

  const CLIENT_PING := "nice"
  const HUB_PING := "hello"

  /** The two members of a JSON message that decide where it goes. */
  datatype Fields = Fields(methodName: Option<string>, channel: Option<string>)

  /** JSON decoding; text that is not a JSON object leaves both members absent. */
  type Decoder = string -> Fields

  predicate RejectsKill(decode: Decoder) {
    decode(N.KILL) == Fields(None, None)
  }

  /** getChannelFromMessage: the prefix of the method if there is one, else the channel member. */
  function MessageChannel(fields: Fields): Option<string> {
    if fields.methodName.Some? then Some(ChannelOf(fields.methodName.value)) else fields.channel
  }

  /** A client keeps the channels of registered services apart from its own three. */
  datatype Key = Service(name: string) | Main(name: string)

  function ClientRoute(decode: Decoder, services: set<string>, mains: set<string>, data: string): Option<Key> {
    if data == CLIENT_PING then None
    else
      match MessageChannel(decode(data))
      case None => None
      case Some(c) =>
        if c in services then Some(Service(c)) else if c in mains then Some(Main(c)) else None
  }

  function HubRoute(decode: Decoder, events: set<string>, data: string): Option<Key> {
    if data == HUB_PING then None
    else
      match MessageChannel(decode(data))
      case None => None
      case Some(c) => if c in events then Some(Main(c)) else None
  }

  /** The message names the channel `c`: by the part of its method in front of the first dot, or, when it
      has no method, by its channel member. */
  predicate Names(fields: Fields, c: string) {
    match fields.methodName
    case Some(methodName) => IsChannelOf(c, methodName)
    case None => fields.channel == Some(c)
  }

  lemma MessageChannelIsNamed(fields: Fields, c: string)
    ensures MessageChannel(fields) == Some(c) <==> Names(fields, c)
  {
    if fields.methodName.Some? { ChannelIsThePrefix(fields.methodName.value, c); }
  }

  /** The message is for the channel `k` of a client: `k` is the service it names, or else the client's
      own channel it names. */
  predicate ForClient(decode: Decoder, services: set<string>, mains: set<string>, data: string, k: Key) {
    && data != "nice" && Names(decode(data), k.name)
    && if k.Service? then k.name in services else k.name in mains && k.name !in services
  }

  predicate ForHub(decode: Decoder, channels: set<string>, data: string, k: Key) {
    data != "hello" && Names(decode(data), k.name) && k.Main? && k.name in channels
  }

  /** Each message goes to the channel it is for, and only there. */
  lemma ClientRouteIsMeant(decode: Decoder, services: set<string>, mains: set<string>, data: string, k: Key)
    ensures ClientRoute(decode, services, mains, data) == Some(k) <==> ForClient(decode, services, mains, data, k)
  {
    MessageChannelIsNamed(decode(data), k.name);
  }

  lemma HubRouteIsMeant(decode: Decoder, channels: set<string>, data: string, k: Key)
    ensures HubRoute(decode, channels, data) == Some(k) <==> ForHub(decode, channels, data, k)
  {
    MessageChannelIsNamed(decode(data), k.name);
  }

  lemma KillIsNeverRouted(decode: Decoder, services: set<string>, mains: set<string>)
    requires RejectsKill(decode)
    ensures ClientRoute(decode, services, mains, N.KILL) == None && HubRoute(decode, mains, N.KILL) == None
  {
    assert MessageChannel(decode(N.KILL)) == None;
  }

  function RequestFields(r: Request): Fields {
    Fields(Some(r.methodName), Some(r.channel))
  }

  function ResponseFields(r: Response): Fields {
    Fields(None, r.channel)
  }

  lemma RequestNamesItsChannel(id: nat, name: string, param: Json)
    requires C.RequestFor(id, name, param).Some?
    ensures var request := C.RequestFor(id, name, param).value;
            MessageChannel(RequestFields(request)) == Some(request.channel)
            && Parse(name).Some? && request.channel == Parse(name).value.channel
  {
  }

  /** In every run of a connection, each response on the wire is for the channel to which the request
      of that call was sent, by its method as by its channel member. */
  lemma ResponsesReturnOnTheirChannel(steps: seq<R.Step>, i: nat)
    requires R.ValidRun(R.START, steps) && i < |R.Run(R.START, steps).responses|
    ensures var s := R.Run(R.START, steps); var response := s.responses[i];
            && response.id.Number? && response.id.n in s.sent
            && var call := s.sent[response.id.n];
               var request := C.RequestFor(response.id.n, call.serviceMethod, call.param);
               && request.Some?
               && MessageChannel(ResponseFields(response)) == MessageChannel(RequestFields(request.value))
               && MessageChannel(ResponseFields(response)) == Some(request.value.channel)
  {
    R.RunKeepsInv(R.START, steps);
    var s := R.Run(R.START, steps);
    FaithfulIsOnChannel(s.sent, s.replies, s.responses[i]);
  }

  lemma FaithfulIsOnChannel(sent: map<nat, R.Call>, replies: map<nat, R.Reply>, response: Response)
    requires R.Faithful(sent, replies, response)
    ensures var call := sent[response.id.n];
            var request := C.RequestFor(response.id.n, call.serviceMethod, call.param);
            && request.Some?
            && MessageChannel(ResponseFields(response)) == MessageChannel(RequestFields(request.value))
            && MessageChannel(ResponseFields(response)) == Some(request.value.channel)
  {
    var call := sent[response.id.n];
    RequestNamesItsChannel(response.id.n, call.serviceMethod, call.param);
  }

  // ----- Runs of one socket -----

  type Router = string -> Option<Key>

  /** A message from the socket, a message the relay emits on a channel itself, the terminate signal
      of a channel, and a read on a channel. */
  datatype Event =
    | Data(data: string)
    | Emit(key: Key, data: string)
    | Kill(key: Key)
    | ReadOn(key: Key, size: nat)

  type Conns = map<Key, N.State>

  function Deliver(conns: Conns, k: Key, message: string): Conns {
    if k in conns then conns[k := N.Arrive(conns[k], message)] else conns
  }

  function Step(route: Router, conns: Conns, e: Event): Conns {
    match e
    case Data(data) => if route(data).Some? then Deliver(conns, route(data).value, data) else conns
    case Emit(k, data) => Deliver(conns, k, data)
    case Kill(k) => Deliver(conns, k, N.KILL)
    case ReadOn(k, size) => if k in conns then conns[k := N.Read(conns[k], size).1] else conns
  }

  function Run(route: Router, start: Conns, events: seq<Event>): Conns {
    if events == [] then start
    else Step(route, Run(route, start, events[..|events| - 1]), events[|events| - 1])
  }

  /** What a step puts into the channel `k`. */
  function PutInto(route: Router, e: Event, k: Key): seq<string> {
    match e
    case Data(data) => if route(data) == Some(k) then [data] else []
    case Emit(k', data) => if k' == k then [data] else []
    case Kill(k') => if k' == k then [N.KILL] else []
    case ReadOn(_, _) => []
  }

  /** Everything put into the channel `k`, in order. */
  function SentTo(route: Router, events: seq<Event>, k: Key): seq<string> {
    if events == [] then []
    else SentTo(route, events[..|events| - 1], k) + PutInto(route, events[|events| - 1], k)
  }

  /** The bytes a step returns on channel `k`. */
  function BytesOn(conns: Conns, e: Event, k: Key): string {
    if e.ReadOn? && e.key == k && k in conns then N.BytesOf(N.Read(conns[k], e.size).0) else []
  }

  /** The bytes returned by all the reads on channel `k`. */
  function YieldedOn(route: Router, start: Conns, events: seq<Event>, k: Key): string {
    if events == [] then []
    else
      var before := events[..|events| - 1];
      YieldedOn(route, start, before, k) + BytesOn(Run(route, start, before), events[|events| - 1], k)
  }

  /** What one channel sees of a step. */
  function Seen(route: Router, e: Event, k: Key): seq<N.Event> {
    var put := PutInto(route, e, k);
    if put != [] then [N.Arrival(put[0])] else if e.ReadOn? && e.key == k then [N.Reads(e.size)] else []
  }

  function Projection(route: Router, events: seq<Event>, k: Key): seq<N.Event> {
    if events == [] then []
    else Projection(route, events[..|events| - 1], k) + Seen(route, events[|events| - 1], k)
  }

  /** A step changes channel `k`, and yields on it, by what that channel sees of it, and nothing else. */
  lemma StepOnChannel(route: Router, conns: Conns, e: Event, k: Key)
    requires k in conns
    ensures var conns' := Step(route, conns, e); var seen := Seen(route, e, k);
            && conns'.Keys == conns.Keys
            && conns'[k] == (if seen == [] then conns[k] else N.Next(conns[k], seen[0]))
            && BytesOn(conns, e, k) == (if seen == [] then [] else N.BytesRead(conns[k], seen[0]))
  {
  }

  lemma Extend(p: seq<N.Event>, seen: seq<N.Event>)
    requires |seen| <= 1
    ensures N.After(p + seen) == if seen == [] then N.After(p) else N.Next(N.After(p), seen[0])
    ensures N.Yielded(p + seen) == N.Yielded(p) + if seen == [] then [] else N.BytesRead(N.After(p), seen[0])
  {
    if seen == [] {
      assert p + seen == p;
    } else {
      N.RunSnoc(p, seen[0]);
      assert p + seen == p + [seen[0]];
    }
  }

  /** Each channel's connection goes its own way: it only sees its own part of the events. */
  lemma {:induction false} ChannelsAreIndependent(route: Router, start: Conns, events: seq<Event>, k: Key)
    requires k in start && start[k] == N.FRESH
    ensures Run(route, start, events).Keys == start.Keys
    ensures Run(route, start, events)[k] == N.After(Projection(route, events, k))
  {
    if events != [] {
      var before, e := events[..|events| - 1], events[|events| - 1];
      ChannelsAreIndependent(route, start, before, k);
      StepOnChannel(route, Run(route, start, before), e, k);
      Extend(Projection(route, before, k), Seen(route, e, k));
    }
  }

  lemma {:induction false} YieldsAreIndependent(route: Router, start: Conns, events: seq<Event>, k: Key)
    requires k in start && start[k] == N.FRESH
    ensures YieldedOn(route, start, events, k) == N.Yielded(Projection(route, events, k))
  {
    if events != [] {
      var before, e := events[..|events| - 1], events[|events| - 1];
      ChannelsAreIndependent(route, start, before, k);
      YieldsAreIndependent(route, start, before, k);
      StepOnChannel(route, Run(route, start, before), e, k);
      Extend(Projection(route, before, k), Seen(route, e, k));
    }
  }

  lemma ArrivedAfter(p: seq<N.Event>, seen: seq<N.Event>)
    requires |seen| <= 1
    ensures N.Arrived(p + seen)
            == N.Arrived(p) + if seen != [] && seen[0].Arrival? then [seen[0].message] else []
  {
    if seen == [] {
      assert p + seen == p;
    } else {
      assert (p + seen)[..|p|] == p;
    }
  }

  lemma SeenArrivals(route: Router, e: Event, k: Key)
    ensures |Seen(route, e, k)| <= 1 && |PutInto(route, e, k)| <= 1
    ensures PutInto(route, e, k)
            == var seen := Seen(route, e, k); if seen != [] && seen[0].Arrival? then [seen[0].message] else []
  {
  }

  lemma {:induction false} ArrivalsAreSent(route: Router, events: seq<Event>, k: Key)
    ensures N.Arrived(Projection(route, events, k)) == SentTo(route, events, k)
  {
    if events != [] {
      var before, e := events[..|events| - 1], events[|events| - 1];
      ArrivalsAreSent(route, before, k);
      SeenArrivals(route, e, k);
      ArrivedAfter(Projection(route, before, k), Seen(route, e, k));
    }
  }

  /** For every router, every interleaving of channels on one socket and any buffer sizes, the bytes a
      channel has yielded, followed by those it still holds, are the messages put into it before the
      first kill. */
  lemma StreamsAreExact(route: Router, start: Conns, events: seq<Event>, k: Key)
    requires k in start && start[k] == N.FRESH
    ensures k in Run(route, start, events)
    ensures YieldedOn(route, start, events, k) + N.Unread(Run(route, start, events)[k])
            == Flat(N.BeforeKill(SentTo(route, events, k)))
  {
    ChannelsAreIndependent(route, start, events, k);
    YieldsAreIndependent(route, start, events, k);
    N.StreamIsExact(Projection(route, events, k));
    ArrivalsAreSent(route, events, k);
  }

  /** A read on a channel fails only after everything put into it before its kill was delivered, and
      blocks only when everything put into it so far was delivered. */
  lemma NothingIsLostBeforeFailure(route: Router, start: Conns, events: seq<Event>, k: Key, size: nat)
    requires k in start && start[k] == N.FRESH
    ensures k in Run(route, start, events)
    ensures var reading := N.Read(Run(route, start, events)[k], size).0; var sent := SentTo(route, events, k);
            && (!reading.Got? ==> YieldedOn(route, start, events, k) == Flat(N.BeforeKill(sent)))
            && (reading.Terminated? ==> N.KILL in sent)
            && (reading.Blocked? ==> N.KILL !in sent)
  {
    ChannelsAreIndependent(route, start, events, k);
    YieldsAreIndependent(route, start, events, k);
    ArrivalsAreSent(route, events, k);
    var seen := Projection(route, events, k);
    N.FailureMeansKilled(seen, size);
    if !N.Read(N.After(seen), size).0.Got? { N.FailureIsFinal(seen, size, []); }
  }

  // ----- The two routers: only the terminate signal kills -----

  function ClientRouter(decode: Decoder, services: set<string>, mains: set<string>): Router {
    data => ClientRoute(decode, services, mains, data)
  }

  function HubRouter(decode: Decoder, channels: set<string>): Router {
    data => HubRoute(decode, channels, data)
  }

  /** What the relay emits is a JSON object, so never the text `kill`. */
  predicate EmitsNoKill(events: seq<Event>) {
    forall i :: 0 <= i < |events| && events[i].Emit? ==> events[i].data != N.KILL
  }

  /** The messages routed to `k`, or emitted on it by the relay, before its terminate signal. */
  function RoutedTo(route: Router, events: seq<Event>, k: Key): seq<string> {
    if events == [] then []
    else
      var before, e := events[..|events| - 1], events[|events| - 1];
      RoutedTo(route, before, k) + (if Kill(k) in before || e.Kill? then [] else PutInto(route, e, k))
  }

  lemma BeforeKillExtends(sent: seq<string>, put: seq<string>)
    requires |put| <= 1
    ensures N.BeforeKill(sent + put)
            == N.BeforeKill(sent) + if N.KILL in sent || N.KILL in put then [] else put
  {
    if put == [] {
      assert sent + put == sent && N.BeforeKill(sent) + [] == N.BeforeKill(sent);
    } else {
      N.BeforeKillSnoc(sent, put[0]);
      assert sent + put == sent + [put[0]] && N.BeforeKill(sent) + [] == N.BeforeKill(sent);
    }
  }

  lemma OnlySignalsKill(route: Router, e: Event, k: Key)
    requires route(N.KILL) == None && (e.Emit? ==> e.data != N.KILL)
    ensures N.KILL in PutInto(route, e, k) <==> e == Kill(k)
  {
  }

  lemma {:induction false} KillsAreSignals(route: Router, events: seq<Event>, k: Key)
    requires route(N.KILL) == None && EmitsNoKill(events)
    ensures N.KILL in SentTo(route, events, k) <==> Kill(k) in events
  {
    if events != [] {
      var before, e := events[..|events| - 1], events[|events| - 1];
      KillsAreSignals(route, before, k);
      OnlySignalsKill(route, e, k);
      assert events == before + [e];
    }
  }

  lemma {:induction false} SentIsRouted(route: Router, events: seq<Event>, k: Key)
    requires route(N.KILL) == None && EmitsNoKill(events)
    ensures N.BeforeKill(SentTo(route, events, k)) == RoutedTo(route, events, k)
  {
    if events != [] {
      var before, e := events[..|events| - 1], events[|events| - 1];
      SentIsRouted(route, before, k);
      KillsAreSignals(route, before, k);
      OnlySignalsKill(route, e, k);
      BeforeKillExtends(SentTo(route, before, k), PutInto(route, e, k));
    }
  }

  // ----- The streams, without the routers -----

  /** Which messages are for which channel. */
  type Meaning = (string, Key) -> bool

  function ClientMeaning(decode: Decoder, services: set<string>, mains: set<string>): Meaning {
    (data, k) => ForClient(decode, services, mains, data, k)
  }

  function HubMeaning(decode: Decoder, channels: set<string>): Meaning {
    (data, k) => ForHub(decode, channels, data, k)
  }

  /** The event brings `data` to the channel `k`: a message for it from the socket, or one that the relay
      emits on it. */
  predicate Brings(means: Meaning, e: Event, k: Key) {
    (e.Data? && means(e.data, k)) || (e.Emit? && e.key == k)
  }

  /** The messages brought to `k` before its terminate signal. */
  function Meant(means: Meaning, events: seq<Event>, k: Key): seq<string> {
    if events == [] then []
    else
      var before, e := events[..|events| - 1], events[|events| - 1];
      Meant(means, before, k) + (if Kill(k) !in before && Brings(means, e, k) then [e.data] else [])
  }

  lemma {:induction false} RoutedIsMeant(route: Router, means: Meaning, events: seq<Event>, k: Key)
    requires forall data :: route(data) == Some(k) <==> means(data, k)
    ensures RoutedTo(route, events, k) == Meant(means, events, k)
  {
    if events != [] { RoutedIsMeant(route, means, events[..|events| - 1], k); }
  }

  /** What is brought to a channel before its terminate signal has its place in the stream. */
  lemma {:induction false} BroughtArrives(means: Meaning, events: seq<Event>, j: nat, k: Key)
    requires j < |events| && Brings(means, events[j], k) && Kill(k) !in events[..j]
    ensures var earlier, all := Meant(means, events[..j], k), Meant(means, events, k);
            earlier + [events[j].data] <= all
    decreases |events|
  {
    var before := events[..|events| - 1];
    if j == |before| {
      assert events[..j] == before;
    } else {
      assert before[..j] == events[..j] && before[j] == events[j];
      BroughtArrives(means, before, j, k);
    }
  }

  /** The client's channels: what each yields and still holds are the messages for it that came over the
      socket, and those the relay emitted on it, before its terminate signal, in order. */
  lemma ClientStreamsAreExact(decode: Decoder, services: set<string>, mains: set<string>, start: Conns,
                              events: seq<Event>, k: Key)
    requires RejectsKill(decode) && EmitsNoKill(events) && k in start && start[k] == N.FRESH
    ensures var route := ClientRouter(decode, services, mains);
            && k in Run(route, start, events)
            && YieldedOn(route, start, events, k) + N.Unread(Run(route, start, events)[k])
               == Flat(Meant(ClientMeaning(decode, services, mains), events, k))
  {
    var route, means := ClientRouter(decode, services, mains), ClientMeaning(decode, services, mains);
    KillIsNeverRouted(decode, services, mains);
    StreamsAreExact(route, start, events, k);
    SentIsRouted(route, events, k);
    forall data ensures route(data) == Some(k) <==> means(data, k) {
      ClientRouteIsMeant(decode, services, mains, data, k);
    }
    RoutedIsMeant(route, means, events, k);
  }

  /** The hub's channels likewise. */
  lemma HubStreamsAreExact(decode: Decoder, channels: set<string>, start: Conns, events: seq<Event>, k: Key)
    requires RejectsKill(decode) && EmitsNoKill(events) && k in start && start[k] == N.FRESH
    ensures var route := HubRouter(decode, channels);
            && k in Run(route, start, events)
            && YieldedOn(route, start, events, k) + N.Unread(Run(route, start, events)[k])
               == Flat(Meant(HubMeaning(decode, channels), events, k))
  {
    var route, means := HubRouter(decode, channels), HubMeaning(decode, channels);
    KillIsNeverRouted(decode, {}, channels);
    StreamsAreExact(route, start, events, k);
    SentIsRouted(route, events, k);
    forall data ensures route(data) == Some(k) <==> means(data, k) {
      HubRouteIsMeant(decode, channels, data, k);
    }
    RoutedIsMeant(route, means, events, k);
  }

  /** The channel of the client on which the calls of `c` wait for their responses. */
  function CallersChannel(services: set<string>, c: string): Key {
    if c in services then Service(c) else Main(c)
  }

  /** In every run of a connection, a response on the wire that comes over the socket enters the stream of
      the channel its request was sent on, unless that was terminated before. */
  lemma ResponsesReachTheirChannel(steps: seq<R.Step>, i: nat, decode: Decoder, services: set<string>,
                                   mains: set<string>, events: seq<Event>, j: nat)
    requires R.ValidRun(R.START, steps) && i < |R.Run(R.START, steps).responses|
    requires j < |events| && events[j].Data? && events[j].data != "nice"
    requires decode(events[j].data) == ResponseFields(R.Run(R.START, steps).responses[i])
    ensures var s := R.Run(R.START, steps); var id := s.responses[i].id;
            && id.Number? && id.n in s.sent
            && var request := C.RequestFor(id.n, s.sent[id.n].serviceMethod, s.sent[id.n].param);
               && request.Some?
               && var k := CallersChannel(services, request.value.channel);
                  var means := ClientMeaning(decode, services, mains);
                  k.name in services + mains && Kill(k) !in events[..j] ==>
                    Meant(means, events[..j], k) + [events[j].data] <= Meant(means, events, k)
  {
    ResponsesReturnOnTheirChannel(steps, i);
    var s := R.Run(R.START, steps);
    var id := s.responses[i].id.n;
    var channel := C.RequestFor(id, s.sent[id].serviceMethod, s.sent[id].param).value.channel;
    var means, k := ClientMeaning(decode, services, mains), CallersChannel(services, channel);
    MessageChannelIsNamed(decode(events[j].data), channel);
    if k.name in services + mains && Kill(k) !in events[..j] { BroughtArrives(means, events, j, k); }
  }

  /** And a request on the wire enters the stream of the hub's channel that its method names. */
  lemma RequestsReachTheirChannel(steps: seq<R.Step>, r: Request, decode: Decoder, channels: set<string>,
                                  events: seq<Event>, j: nat)
    requires R.ValidRun(R.START, steps) && r in R.Run(R.START, steps).requests
    requires r.channel in channels && j < |events| && events[j].Data? && events[j].data != "hello"
    requires decode(events[j].data) == RequestFields(r) && Kill(Main(r.channel)) !in events[..j]
    ensures var means, k := HubMeaning(decode, channels), Main(r.channel);
            Meant(means, events[..j], k) + [events[j].data] <= Meant(means, events, k)
  {
    R.RequestsCarryTheirCalls(steps, r);
    BroughtArrives(HubMeaning(decode, channels), events, j, Main(r.channel));
  }

  // ----- The objects -----

  /** The client end of a socket: the channels of services, and the client's own. */
  class ClientSocket {
    const services: map<string, N.Conn>
    const mains: map<string, N.Conn>

    constructor (services: map<string, N.Conn>, mains: map<string, N.Conn>)
      ensures this.services == services && this.mains == mains
    {
      this.services, this.mains := services, mains;
    }

    function Lookup(key: Key): (conn: Option<N.Conn>)
      ensures conn.Some? ==> conn.value in services.Values + mains.Values
    {
      match key
      case Service(c) => if c in services then Some(services[c]) else None
      case Main(c) => if c in mains then Some(mains[c]) else None
    }

    /** No two channels share a connection. */
    ghost predicate Separate() {
      forall a, b :: a != b && Lookup(a).Some? ==> Lookup(a) != Lookup(b)
    }

    /** The connection objects hold what the states say. */
    ghost predicate Shows(conns: Conns)
      reads services.Values, mains.Values
    {
      && (forall k :: k in conns <==> Lookup(k).Some?)
      && forall k :: k in conns ==> Lookup(k).value.View() == conns[k]
    }

    /** The message reaches the one connection it is routed to, and no other. */
    method OnBinaryMessage(decode: Decoder, data: string)
      modifies services.Values, mains.Values
      ensures forall k :: ForClient(decode, services.Keys, mains.Keys, data, k) ==>
                Lookup(k).Some? && Lookup(k).value.View() == N.Arrive(old(Lookup(k).value.View()), data)
      ensures forall conn :: conn in services.Values + mains.Values
                && (forall k :: ForClient(decode, services.Keys, mains.Keys, data, k) ==> Lookup(k) != Some(conn))
                ==> conn.View() == old(conn.View())
    {
      forall k
        ensures ClientRoute(decode, services.Keys, mains.Keys, data) == Some(k)
                <==> ForClient(decode, services.Keys, mains.Keys, data, k)
      {
        ClientRouteIsMeant(decode, services.Keys, mains.Keys, data, k);
      }
      if data == CLIENT_PING {
        return;
      }
      var channel := MessageChannel(decode(data));
      if channel.Some? && channel.value in services {
        assert Lookup(Service(channel.value)) == Some(services[channel.value]);
        services[channel.value].Listen(data);
      } else if channel.Some? && channel.value in mains {
        assert Lookup(Main(channel.value)) == Some(mains[channel.value]);
        mains[channel.value].Listen(data);
      }
    }

    /** OnBinaryMessage, as a step of the states. */
    method Dispatch(decode: Decoder, data: string, ghost conns: Conns)
      requires Separate() && Shows(conns)
      modifies services.Values, mains.Values
      ensures Shows(Step(ClientRouter(decode, services.Keys, mains.Keys), conns, Data(data)))
    {
      ghost var to := ClientRoute(decode, services.Keys, mains.Keys, data);
      forall k ensures to == Some(k) <==> ForClient(decode, services.Keys, mains.Keys, data, k) {
        ClientRouteIsMeant(decode, services.Keys, mains.Keys, data, k);
      }
      OnBinaryMessage(decode, data);
    }

    method Listen(k: Key, message: string, ghost conns: Conns)
      requires Separate() && Shows(conns)
      modifies services.Values, mains.Values
      ensures Shows(Deliver(conns, k, message))
    {
      var conn := Lookup(k);
      if conn.Some? {
        conn.value.Listen(message);
      }
    }

    method Read(k: Key, size: nat, ghost conns: Conns) returns (data: string)
      requires Separate() && Shows(conns)
      modifies services.Values, mains.Values
      ensures Shows(if k in conns then conns[k := N.Read(conns[k], size).1] else conns)
      ensures data == BytesOn(conns, ReadOn(k, size), k)
    {
      var conn := Lookup(k);
      data := [];
      if conn.Some? {
        var reading := conn.value.Receive(size);
        data := N.BytesOf(reading);
      }
    }

    /** One event, with the bytes it returns on channel `watched`. */
    method Perform(decode: Decoder, e: Event, watched: Key, ghost conns: Conns) returns (data: string)
      requires Separate() && Shows(conns)
      modifies services.Values, mains.Values
      ensures Shows(Step(ClientRouter(decode, services.Keys, mains.Keys), conns, e))
      ensures data == BytesOn(conns, e, watched)
    {
      data := [];
      match e {
        case Data(message) => Dispatch(decode, message, conns);
        case Emit(k, message) => Listen(k, message, conns);
        case Kill(k) => Listen(k, N.KILL, conns);
        case ReadOn(k, size) =>
          var got := Read(k, size, conns);
          if k == watched {
            data := got;
          }
      }
    }

    /** The socket object follows any run, and the bytes its reads return on a channel are the run's. */
    method Serve(decode: Decoder, events: seq<Event>, watched: Key, ghost start: Conns) returns (yielded: string)
      requires Separate() && Shows(start)
      modifies services.Values, mains.Values
      ensures var route := ClientRouter(decode, services.Keys, mains.Keys);
              Shows(Run(route, start, events)) && yielded == YieldedOn(route, start, events, watched)
    {
      yielded := [];
      ghost var route := ClientRouter(decode, services.Keys, mains.Keys);
      for i := 0 to |events|
        invariant Shows(Run(route, start, events[..i]))
        invariant yielded == YieldedOn(route, start, events[..i], watched)
      {
        assert events[..i + 1][..i] == events[..i];
        var data := Perform(decode, events[i], watched, Run(route, start, events[..i]));
        yielded := yielded + data;
      }
      assert events[..|events|] == events;
    }
  }

  /** The hub end of a socket. */
  class HubSocket {
    const events: map<string, N.Conn>

    constructor (events: map<string, N.Conn>)
      ensures this.events == events
    {
      this.events := events;
    }

    method OnBinaryMessage(decode: Decoder, data: string)
      modifies events.Values
      ensures forall k :: ForHub(decode, events.Keys, data, k) ==>
                k.name in events && events[k.name].View() == N.Arrive(old(events[k.name].View()), data)
      ensures forall conn :: conn in events.Values
                && (forall k :: ForHub(decode, events.Keys, data, k) ==> events[k.name] != conn)
                ==> conn.View() == old(conn.View())
    {
      forall k ensures HubRoute(decode, events.Keys, data) == Some(k) <==> ForHub(decode, events.Keys, data, k) {
        HubRouteIsMeant(decode, events.Keys, data, k);
      }
      if data == HUB_PING {
        return;
      }
      var fields := decode(data);
      if fields.methodName.Some? {
        var channel := ChannelOf(fields.methodName.value);
        if channel in events {
          assert ForHub(decode, events.Keys, data, Main(channel));
          events[channel].Listen(data);
        }
      } else if fields.channel.Some? {
        if fields.channel.value in events {
          assert ForHub(decode, events.Keys, data, Main(fields.channel.value));
          events[fields.channel.value].Listen(data);
        }
      }
    }

    ghost predicate Separate() {
      forall a, b :: a in events && b in events && a != b ==> events[a] != events[b]
    }

    ghost predicate Shows(conns: Conns)
      reads events.Values
    {
      && (forall k :: k in conns <==> k.Main? && k.name in events)
      && forall k :: k in conns ==> events[k.name].View() == conns[k]
    }

    /** OnBinaryMessage, as a step of the states. */
    method Dispatch(decode: Decoder, data: string, ghost conns: Conns)
      requires Separate() && Shows(conns)
      modifies events.Values
      ensures Shows(Step(HubRouter(decode, events.Keys), conns, Data(data)))
    {
      ghost var to := HubRoute(decode, events.Keys, data);
      forall k ensures to == Some(k) <==> ForHub(decode, events.Keys, data, k) {
        HubRouteIsMeant(decode, events.Keys, data, k);
      }
      OnBinaryMessage(decode, data);
    }

    method Put(k: Key, message: string, ghost conns: Conns)
      requires Separate() && Shows(conns)
      modifies events.Values
      ensures Shows(Deliver(conns, k, message))
    {
      if k.Main? && k.name in events {
        events[k.name].Listen(message);
      }
    }

    /** One event, with the bytes it returns on channel `watched`. */
    method Perform(decode: Decoder, e: Event, watched: Key, ghost conns: Conns) returns (data: string)
      requires Separate() && Shows(conns)
      modifies events.Values
      ensures Shows(Step(HubRouter(decode, events.Keys), conns, e))
      ensures data == BytesOn(conns, e, watched)
    {
      data := [];
      match e {
        case Data(message) => Dispatch(decode, message, conns);
        case Emit(k, message) => Put(k, message, conns);
        case Kill(k) => Put(k, N.KILL, conns);
        case ReadOn(k, size) =>
          if k.Main? && k.name in events {
            var reading := events[k.name].Receive(size);
            if k == watched {
              data := N.BytesOf(reading);
            }
          }
      }
    }

    method Serve(decode: Decoder, log: seq<Event>, watched: Key, ghost start: Conns) returns (yielded: string)
      requires Separate() && Shows(start)
      modifies events.Values
      ensures var route := HubRouter(decode, events.Keys);
              Shows(Run(route, start, log)) && yielded == YieldedOn(route, start, log, watched)
    {
      yielded := [];
      ghost var route := HubRouter(decode, events.Keys);
      for i := 0 to |log|
        invariant Shows(Run(route, start, log[..i]))
        invariant yielded == YieldedOn(route, start, log[..i], watched)
      {
        assert log[..i + 1][..i] == log[..i];
        var data := Perform(decode, log[i], watched, Run(route, start, log[..i]));
        yielded := yielded + data;
      }
      assert log[..|log|] == log;
    }
  }
}
